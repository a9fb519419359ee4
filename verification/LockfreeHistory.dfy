/**
 One sequential history of all calls of the lock-free queue.

 A call is known by its thread and by the number of the state that its invocation leads to.
 The history is built along the run, one block per state.  A call that changes the queue is
 put at the end of the block of the state that its deciding step starts from; a call that
 found the queue empty, or asked whether it is, is put into the block of a state in which
 its answer was true.
 */
module LockfreeHistory {
  import opened Common
  import opened LockfreeQueue

  /** A call, the state it counts at, and what it did. */
  datatype Linear<T> = Linear(tid: nat, start: nat, at: nat, op: Op<T>, result: Result<T>)

  // ---------- A sequential queue with empty answers ----------

  ghost function Serve<T>(q: seq<T>, op: Op<T>, result: Result<T>): Option<seq<T>> {
    match (op, result)
    case (Enqueue(v), Done) => Some(q + [v])
    case (Dequeue, Value(v)) => if q != [] && q[0] == v then Some(q[1..]) else None
    case (Dequeue, Nothing) => if q == [] then Some(q) else None
    case (IsEmpty, Answer(b)) => if (q == []) == b then Some(q) else None
    case _ => None
  }

  /** The queue after the calls, if each answer is right. */
  ghost function ServeAll<T>(q: seq<T>, h: seq<Linear<T>>): Option<seq<T>>
    decreases |h|
  {
    if h == [] then Some(q)
    else
      var r := Serve(q, h[0].op, h[0].result);
      if r.None? then None else ServeAll(r.value, h[1..])
  }

  lemma {:induction false} ServeConcat<T>(q: seq<T>, a: seq<Linear<T>>, b: seq<Linear<T>>)
    requires ServeAll(q, a).Some?
    ensures ServeAll(q, a + b) == ServeAll(ServeAll(q, a).value, b)
    decreases |a|
  {
    if a == [] {
      assert a + b == b;
    } else {
      assert (a + b)[0] == a[0] && (a + b)[1..] == a[1..] + b;
      ServeConcat(Serve(q, a[0].op, a[0].result).value, a[1..], b);
    }
  }

  lemma ServeOne<T>(q: seq<T>, x: Linear<T>)
    requires Serve(q, x.op, x.result).Some?
    ensures ServeAll(q, [x]) == Serve(q, x.op, x.result)
  {
    assert [x][1..] == [];
  }

  // ---------- Blocks ----------

  ghost function Concat<T>(blocks: seq<seq<Linear<T>>>): seq<Linear<T>> {
    if blocks == [] then [] else blocks[0] + Concat(blocks[1..])
  }

  ghost function Hit<T>(x: Linear<T>, tid: nat, start: nat): nat {
    if x.tid == tid && x.start == start then 1 else 0
  }

  /** How often a call occurs in a list. */
  ghost function Count<T>(h: seq<Linear<T>>, tid: nat, start: nat): nat {
    if h == [] then 0 else Hit(h[0], tid, start) + Count(h[1..], tid, start)
  }

  ghost function Total<T>(blocks: seq<seq<Linear<T>>>, tid: nat, start: nat): nat {
    if blocks == [] then 0 else Count(blocks[0], tid, start) + Total(blocks[1..], tid, start)
  }

  lemma {:induction false} CountConcat<T>(a: seq<Linear<T>>, b: seq<Linear<T>>, tid: nat, start: nat)
    ensures Count(a + b, tid, start) == Count(a, tid, start) + Count(b, tid, start)
  {
    if a == [] {
      assert a + b == b;
    } else {
      assert (a + b)[0] == a[0] && (a + b)[1..] == a[1..] + b;
      CountConcat(a[1..], b, tid, start);
    }
  }

  lemma {:induction false} TotalIsCount<T>(blocks: seq<seq<Linear<T>>>, tid: nat, start: nat)
    ensures Count(Concat(blocks), tid, start) == Total(blocks, tid, start)
  {
    if blocks != [] {
      TotalIsCount(blocks[1..], tid, start);
      CountConcat(blocks[0], Concat(blocks[1..]), tid, start);
    }
  }

  lemma {:induction false} TotalGrow<T>(blocks: seq<seq<Linear<T>>>, tid: nat, start: nat)
    ensures Total(blocks + [[]], tid, start) == Total(blocks, tid, start)
  {
    if blocks == [] {
      assert (blocks + [[]])[0] == [] && (blocks + [[]])[1..] == blocks;
    } else {
      assert (blocks + [[]])[0] == blocks[0] && (blocks + [[]])[1..] == blocks[1..] + [[]];
      TotalGrow(blocks[1..], tid, start);
    }
  }

  lemma {:induction false} TotalUpdate<T>(blocks: seq<seq<Linear<T>>>, k: nat, b: seq<Linear<T>>, tid: nat, start: nat)
    requires k < |blocks|
    ensures Total(blocks[k := b], tid, start) + Count(blocks[k], tid, start)
         == Total(blocks, tid, start) + Count(b, tid, start)
  {
    if k == 0 {
      assert blocks[0 := b][1..] == blocks[1..];
    } else {
      assert blocks[k := b][0] == blocks[0] && blocks[k := b][1..] == blocks[1..][k - 1 := b];
      TotalUpdate(blocks[1..], k - 1, b, tid, start);
    }
  }

  lemma {:induction false} CountSome<T>(h: seq<Linear<T>>, i: nat)
    requires i < |h|
    ensures Count(h, h[i].tid, h[i].start) > 0
  {
    if i > 0 { CountSome(h[1..], i - 1); }
  }

  lemma {:induction false} TotalSome<T>(blocks: seq<seq<Linear<T>>>, k: nat, i: nat)
    requires k < |blocks| && i < |blocks[k]|
    ensures Total(blocks, blocks[k][i].tid, blocks[k][i].start) > 0
  {
    if k == 0 { CountSome(blocks[0], i); } else { TotalSome(blocks[1..], k - 1, i); }
  }

  lemma {:induction false} CountNone<T>(h: seq<Linear<T>>, tid: nat, start: nat)
    requires forall i :: 0 <= i < |h| ==> h[i].start != start
    ensures Count(h, tid, start) == 0
  {
    if h != [] { CountNone(h[1..], tid, start); }
  }

  lemma {:induction false} TotalNone<T>(blocks: seq<seq<Linear<T>>>, tid: nat, start: nat)
    requires forall k, i :: 0 <= k < |blocks| && 0 <= i < |blocks[k]| ==> blocks[k][i].start != start
    ensures Total(blocks, tid, start) == 0
  {
    if blocks != [] {
      CountNone(blocks[0], tid, start);
      TotalNone(blocks[1..], tid, start);
    }
  }

  /** The blocks with an empty one at the end and `x` in block `k`, as the last of it or the first. */
  ghost function Added<T>(blocks: seq<seq<Linear<T>>>, k: nat, x: Linear<T>, last: bool): (r: seq<seq<Linear<T>>>)
    requires k <= |blocks|
    ensures |r| == |blocks| + 1
    ensures forall j :: 0 <= j < |r| && j != k ==> r[j] == if j < |blocks| then blocks[j] else []
    ensures var b := if k < |blocks| then blocks[k] else []; r[k] == if last then b + [x] else [x] + b
  {
    var more := blocks + [[]];
    more[k := if last then more[k] + [x] else [x] + more[k]]
  }

  lemma TotalAdded<T>(blocks: seq<seq<Linear<T>>>, k: nat, x: Linear<T>, last: bool, tid: nat, start: nat)
    requires k <= |blocks|
    ensures Total(Added(blocks, k, x, last), tid, start) == Total(blocks, tid, start) + Hit(x, tid, start)
  {
    var more := blocks + [[]];
    var b := if last then more[k] + [x] else [x] + more[k];
    TotalGrow(blocks, tid, start);
    TotalUpdate(more, k, b, tid, start);
    CountConcat(more[k], [x], tid, start);
    CountConcat([x], more[k], tid, start);
    assert [x][1..] == [];
  }

  // ---------- Calls ----------

  /** The call has taken effect, and what it will report is fixed. */
  ghost predicate Decided<T>(pc: PC<T>) {
    pc.EnqSwing? || pc.Returned?
  }

  /** What a decided call is, or will be, reporting. */
  ghost predicate Reports<T>(pc: PC<T>, op: Op<T>, result: Result<T>) {
    match pc
    case EnqSwing(v, _, _) => op == Enqueue(v) && result == Done
    case Returned(o, r) => op == o && result == r
    case _ => false
  }

  /** A call of `tid` begins with state `start`. */
  ghost predicate Starts<T>(trace: seq<State<T>>, acts: seq<Action<T>>, tid: nat, start: nat) {
    0 < start < |trace| && start <= |acts| && acts[start - 1].Invoke? && acts[start - 1].tid == tid &&
    tid < |trace[start - 1].threads| && trace[start - 1].threads[tid].Idle?
  }

  lemma {:induction false} SameThreads<T>(trace: seq<State<T>>, acts: seq<Action<T>>, n: nat)
    requires IsTrace(trace, acts) && n < |trace|
    ensures |trace[n].threads| == |trace[0].threads|
  {
    if n > 0 {
      SameThreads(trace, acts, n - 1);
      assert trace[n - 1 + 1] == Next(trace[n - 1], acts[n - 1]);
    }
  }

  /** A busy thread is in a call, which began with some state. */
  lemma {:induction false} Current<T>(trace: seq<State<T>>, acts: seq<Action<T>>, tid: nat, n: nat) returns (start: nat)
    requires IsTrace(trace, acts) && n < |trace| && tid < |trace[n].threads| && !trace[n].threads[tid].Idle?
    ensures Running(trace, acts, tid, start, n)
  {
    SameThreads(trace, acts, n);
    if n > 0 {
      SameThreads(trace, acts, n - 1);
      assert trace[n - 1 + 1] == Next(trace[n - 1], acts[n - 1]);
    }
    assert n > 0;
    if trace[n - 1].threads[tid].Idle? {
      start := n;
    } else {
      start := Current(trace, acts, tid, n - 1);
    }
  }

  lemma NotEarlier<T>(trace: seq<State<T>>, acts: seq<Action<T>>, tid: nat, a: nat, b: nat, n: nat)
    requires Running(trace, acts, tid, a, n) && Starts(trace, acts, tid, b) && b <= n
    ensures b <= a
  {
  }

  lemma OneCall<T>(trace: seq<State<T>>, acts: seq<Action<T>>, tid: nat, a: nat, b: nat, n: nat)
    requires Running(trace, acts, tid, a, n) && Running(trace, acts, tid, b, n)
    ensures a == b
  {
    NotEarlier(trace, acts, tid, a, b, n);
    NotEarlier(trace, acts, tid, b, a, n);
  }

  /** A running call is the one that was invoked. */
  lemma {:induction false} CallIs<T>(trace: seq<State<T>>, acts: seq<Action<T>>, tid: nat, start: nat, n: nat)
    requires Running(trace, acts, tid, start, n)
    ensures CallOf(trace[n].threads[tid]) == Some(acts[start - 1].op)
    decreases n
  {
    var s, a := trace[n - 1], acts[n - 1];
    assert trace[n - 1 + 1] == Next(s, a);
    if n > start {
      CallIs(trace, acts, tid, start, n - 1);
      if a.Step? && a.tid == tid {
        CallKept(s.mem, s.threads[tid], a.fails);
      }
    }
  }

  /** A decided call stays decided, and keeps its report, as long as it runs. */
  lemma {:induction false} StaysDecided<T>(trace: seq<State<T>>, acts: seq<Action<T>>, tid: nat, start: nat, m: nat,
                                           n: nat, op: Op<T>, result: Result<T>)
    requires Running(trace, acts, tid, start, n) && start <= m <= n && Reports(trace[m].threads[tid], op, result)
    ensures Reports(trace[n].threads[tid], op, result)
    decreases n
  {
    if m < n {
      StaysDecided(trace, acts, tid, start, m, n - 1, op, result);
      assert trace[n - 1 + 1] == Next(trace[n - 1], acts[n - 1]);
    }
  }

  // ---------- The deciding steps ----------

  /** The step decides the call of its thread. */
  ghost predicate Commits<T>(s: State<T>, a: Action<T>) {
    a.Step? && a.tid < |s.threads| && !Decided(s.threads[a.tid]) &&
    Decided(Move(s.mem, s.threads[a.tid], a.fails).0)
  }

  ghost predicate Observes<T>(result: Result<T>) {
    result.Nothing? || result.Answer?
  }

  /** A deciding step has its effect on the queue, or none if the call only observes. */
  lemma CommitServes<T>(s: State<T>, a: Action<T>, c: Chain, op: Op<T>, result: Result<T>)
    requires Inv(s, c) && Commits(s, a) && Reports(Move(s.mem, s.threads[a.tid], a.fails).0, op, result)
    ensures if Observes(result) then Contents(Next(s, a).mem) == Contents(s.mem)
            else Serve(Contents(s.mem), op, result) == Some(Contents(Next(s, a).mem))
  {
    StepRefines(s, a, c);
    var q, q' := Contents(s.mem), Contents(Next(s, a).mem);
    hide Contents;
    var pc := s.threads[a.tid];
    match pc
    case EnqLink(v, node, tail) =>
    case DeqSwing(head, succ, value) =>
    case _ =>
  }

  lemma OtherKeeps<T>(s: State<T>, a: Action<T>, c: Chain)
    requires Inv(s, c) && !Commits(s, a)
    ensures Contents(Next(s, a).mem) == Contents(s.mem)
  {
    StepRefines(s, a, c);
    hide Contents;
    if a.Step? && a.tid < |s.threads| {
      match s.threads[a.tid]
      case EnqLink(v, node, tail) =>
      case DeqSwing(head, succ, value) =>
      case _ =>
    }
  }

  // ---------- The history so far ----------

  /** The call runs in the state it counts at, and is the one that was invoked. */
  ghost predicate Sits<T>(trace: seq<State<T>>, acts: seq<Action<T>>, x: Linear<T>, k: nat) {
    x.at == k && Running(trace, acts, x.tid, x.start, k) && x.op == acts[x.start - 1].op
  }

  /** What the call returns, if it has come to that by state `n`, is what the history says. */
  ghost predicate Agrees<T>(trace: seq<State<T>>, acts: seq<Action<T>>, x: Linear<T>, n: nat) {
    Running(trace, acts, x.tid, x.start, n) && Decided(trace[n].threads[x.tid]) ==>
      Reports(trace[n].threads[x.tid], x.op, x.result)
  }

  /** The call has returned, or is decided. */
  ghost predicate Settled<T>(trace: seq<State<T>>, acts: seq<Action<T>>, tid: nat, start: nat, n: nat) {
    Running(trace, acts, tid, start, n) ==> Decided(trace[n].threads[tid])
  }

  /** Serving the block in one state gives the contents of the next. */
  ghost predicate Served<T>(trace: seq<State<T>>, block: seq<Linear<T>>, k: nat, n: nat)
    requires k <= n < |trace|
  {
    ServeAll(Contents(trace[k].mem), block) == Some(Contents(trace[if k < n then k + 1 else n].mem))
  }

  ghost predicate Once<T>(trace: seq<State<T>>, acts: seq<Action<T>>, n: nat, blocks: seq<seq<Linear<T>>>,
                          tid: nat, start: nat) {
    Starts(trace, acts, tid, start) && start <= n ==>
      Total(blocks, tid, start) == if Settled(trace, acts, tid, start, n) then 1 else 0
  }

  ghost predicate AllServed<T>(trace: seq<State<T>>, n: nat, blocks: seq<seq<Linear<T>>>) {
    n < |trace| && |blocks| == n + 1 && forall k :: 0 <= k <= n ==> Served(trace, blocks[k], k, n)
  }

  ghost predicate AllSit<T>(trace: seq<State<T>>, acts: seq<Action<T>>, blocks: seq<seq<Linear<T>>>) {
    forall k, i :: 0 <= k < |blocks| && 0 <= i < |blocks[k]| ==> Sits(trace, acts, blocks[k][i], k)
  }

  ghost predicate AgreeAt<T>(trace: seq<State<T>>, acts: seq<Action<T>>, m: nat, blocks: seq<seq<Linear<T>>>) {
    forall k, i :: 0 <= k < |blocks| && 0 <= i < |blocks[k]| ==> Agrees(trace, acts, blocks[k][i], m)
  }

  ghost predicate AllAgree<T>(trace: seq<State<T>>, acts: seq<Action<T>>, n: nat, blocks: seq<seq<Linear<T>>>) {
    forall m :: 0 <= m <= n ==> AgreeAt(trace, acts, m, blocks)
  }

  ghost predicate AllOnce<T>(trace: seq<State<T>>, acts: seq<Action<T>>, n: nat, blocks: seq<seq<Linear<T>>>) {
    forall tid: nat, start: nat :: Once(trace, acts, n, blocks, tid, start)
  }

  ghost predicate Hist<T>(trace: seq<State<T>>, acts: seq<Action<T>>, n: nat, blocks: seq<seq<Linear<T>>>) {
    IsTrace(trace, acts) && |blocks| == n + 1 && AllServed(trace, n, blocks) && AllSit(trace, acts, blocks) &&
    AllAgree(trace, acts, n, blocks) && AllOnce(trace, acts, n, blocks)
  }

  lemma HistStart<T>(trace: seq<State<T>>, acts: seq<Action<T>>)
    requires IsTrace(trace, acts)
    ensures Hist(trace, acts, 0, [[]])
  {
  }

  // ---------- One more step ----------

  /** Nothing is decided by the step. */
  lemma IdleServed<T>(trace: seq<State<T>>, acts: seq<Action<T>>, n: nat, blocks: seq<seq<Linear<T>>>)
    requires IsTrace(trace, acts) && n < |acts| && AllServed(trace, n, blocks) && !Commits(trace[n], acts[n])
    ensures AllServed(trace, n + 1, blocks + [[]])
  {
    var c := TraceInv(trace, acts, n);
    OtherKeeps(trace[n], acts[n], c);
    hide Contents, Next, Inv, Commits, ServeAll;
    assert trace[n + 1] == Next(trace[n], acts[n]);
    var more := blocks + [[]];
    NoneServed(Contents(trace[n + 1].mem));
    forall k | 0 <= k <= n + 1 ensures Served(trace, more[k], k, n + 1) {
      assert k <= n ==> more[k] == blocks[k] && Served(trace, blocks[k], k, n);
    }
  }

  lemma NoneServed<T>(q: seq<T>)
    ensures ServeAll<T>(q, []) == Some(q)
  {
  }

  /** The step changes the queue, and its call is the last of its block. */
  lemma EffectServed<T>(trace: seq<State<T>>, acts: seq<Action<T>>, n: nat, blocks: seq<seq<Linear<T>>>, x: Linear<T>)
    requires IsTrace(trace, acts) && n < |acts| && AllServed(trace, n, blocks) && Commits(trace[n], acts[n])
    requires Reports(Move(trace[n].mem, trace[n].threads[acts[n].tid], acts[n].fails).0, x.op, x.result)
    requires !Observes(x.result)
    ensures AllServed(trace, n + 1, Added(blocks, n, x, true))
  {
    var c := TraceInv(trace, acts, n);
    CommitServes(trace[n], acts[n], c, x.op, x.result);
    hide Contents, Next, Inv, Commits, ServeAll, Reports, Move;
    assert trace[n + 1] == Next(trace[n], acts[n]);
    var r, q := Added(blocks, n, x, true), Contents(trace[n].mem);
    NoneServed(Contents(trace[n + 1].mem));
    assert Served(trace, blocks[n], n, n);
    ServeOne(q, x);
    ServeConcat(q, blocks[n], [x]);
    forall k | 0 <= k <= n + 1 ensures Served(trace, r[k], k, n + 1) {
      assert k < n ==> r[k] == blocks[k] && Served(trace, blocks[k], k, n);
    }
  }

  /** The step answers a call whose answer was true in state `k`. */
  lemma ObserveServed<T>(trace: seq<State<T>>, acts: seq<Action<T>>, n: nat, blocks: seq<seq<Linear<T>>>, k: nat,
                         x: Linear<T>)
    requires IsTrace(trace, acts) && n < |acts| && AllServed(trace, n, blocks) && Commits(trace[n], acts[n]) &&
             k <= n + 1
    requires Reports(Move(trace[n].mem, trace[n].threads[acts[n].tid], acts[n].fails).0, x.op, x.result)
    requires Observes(x.result) && Serve(Contents(trace[k].mem), x.op, x.result) == Some(Contents(trace[k].mem))
    ensures AllServed(trace, n + 1, Added(blocks, k, x, false))
  {
    var c := TraceInv(trace, acts, n);
    CommitServes(trace[n], acts[n], c, x.op, x.result);
    hide Contents, Next, Inv, Commits, ServeAll, Reports, Move;
    assert trace[n + 1] == Next(trace[n], acts[n]);
    var r, q := Added(blocks, k, x, false), Contents(trace[k].mem);
    NoneServed(Contents(trace[n + 1].mem));
    ServeOne(q, x);
    ServeConcat(q, [x], if k <= n then blocks[k] else []);
    forall j | 0 <= j <= n + 1 ensures Served(trace, r[j], j, n + 1) {
      assert j <= n ==> Served(trace, blocks[j], j, n);
    }
  }

  lemma RunningBefore<T>(trace: seq<State<T>>, acts: seq<Action<T>>, tid: nat, start: nat, m: nat, n: nat)
    requires Running(trace, acts, tid, start, n) && start <= m <= n
    ensures Running(trace, acts, tid, start, m)
  {
  }

  lemma DecidedStays<T>(trace: seq<State<T>>, acts: seq<Action<T>>, tid: nat, start: nat, m: nat, n: nat)
    requires Running(trace, acts, tid, start, n) && start <= m <= n && Decided(trace[m].threads[tid])
    ensures Decided(trace[n].threads[tid])
  {
    match trace[m].threads[tid]
    case EnqSwing(v, _, _) => StaysDecided(trace, acts, tid, start, m, n, Enqueue(v), Done);
    case Returned(op, result) => StaysDecided(trace, acts, tid, start, m, n, op, result);
  }

  /** A call of the history keeps its report. */
  lemma OldAgrees<T>(trace: seq<State<T>>, acts: seq<Action<T>>, n: nat, blocks: seq<seq<Linear<T>>>, k: nat, i: nat)
    requires Hist(trace, acts, n, blocks) && n < |acts| && k < |blocks| && i < |blocks[k]|
    ensures Agrees(trace, acts, blocks[k][i], n + 1)
  {
    var x := blocks[k][i];
    assert Sits(trace, acts, x, k) && AgreeAt(trace, acts, n, blocks) && Agrees(trace, acts, x, n);
    TotalSome(blocks, k, i);
    assert Once(trace, acts, n, blocks, x.tid, x.start);
    hide Hist, AllServed, AllSit, AllAgree, AllOnce, Total, Sits;
    if Running(trace, acts, x.tid, x.start, n + 1) {
      RunningBefore(trace, acts, x.tid, x.start, n, n + 1);
      StaysDecided(trace, acts, x.tid, x.start, n, n + 1, x.op, x.result);
    }
  }

  /** A call that is decided by this step was not decided before. */
  lemma NewAgrees<T>(trace: seq<State<T>>, acts: seq<Action<T>>, n: nat, x: Linear<T>, m: nat)
    requires IsTrace(trace, acts) && n < |acts| && Commits(trace[n], acts[n]) && x.tid == acts[n].tid && m <= n + 1
    requires Running(trace, acts, x.tid, x.start, n) && Reports(trace[n + 1].threads[x.tid], x.op, x.result)
    ensures Agrees(trace, acts, x, m)
  {
    if m <= n && Running(trace, acts, x.tid, x.start, m) && Decided(trace[m].threads[x.tid]) {
      DecidedStays(trace, acts, x.tid, x.start, m, n);
    }
  }

  /** How the calls that have taken effect change with a step. */
  lemma SettledStep<T>(trace: seq<State<T>>, acts: seq<Action<T>>, n: nat, tid: nat, start: nat)
    requires IsTrace(trace, acts) && n < |acts| && Starts(trace, acts, tid, start) && start <= n
    ensures Settled(trace, acts, tid, start, n + 1) <==>
            Settled(trace, acts, tid, start, n) ||
            (Commits(trace[n], acts[n]) && tid == acts[n].tid && Running(trace, acts, tid, start, n))
  {
    assert trace[n + 1] == Next(trace[n], acts[n]);
    if Settled(trace, acts, tid, start, n) {
      if Running(trace, acts, tid, start, n + 1) {
        RunningBefore(trace, acts, tid, start, n, n + 1);
        DecidedStays(trace, acts, tid, start, n, n + 1);
      }
    } else {
      StillRuns(trace[n], acts[n], tid);
    }
  }

  lemma StillRuns<T>(s: State<T>, a: Action<T>, tid: nat)
    requires tid < |s.threads| && !s.threads[tid].Idle? && !Decided(s.threads[tid])
    ensures tid < |Next(s, a).threads| && !Next(s, a).threads[tid].Idle?
    ensures Decided(Next(s, a).threads[tid]) <==> Commits(s, a) && tid == a.tid
  {
  }

  /** A call that has just begun does not occur. */
  lemma FreshOnce<T>(trace: seq<State<T>>, acts: seq<Action<T>>, n: nat, tid: nat)
    requires IsTrace(trace, acts) && n < |acts| && Starts(trace, acts, tid, n + 1)
    ensures !Settled(trace, acts, tid, n + 1, n + 1)
  {
    SameThreads(trace, acts, n);
    assert trace[n + 1] == Next(trace[n], acts[n]);
  }

  lemma NotYet<T>(trace: seq<State<T>>, acts: seq<Action<T>>, n: nat, blocks: seq<seq<Linear<T>>>, tid: nat)
    requires AllSit(trace, acts, blocks) && |blocks| == n + 1
    ensures Total(blocks, tid, n + 1) == 0
  {
    forall k, i | 0 <= k < |blocks| && 0 <= i < |blocks[k]| ensures blocks[k][i].start != n + 1 {
      assert Sits(trace, acts, blocks[k][i], k);
    }
    TotalNone(blocks, tid, n + 1);
  }

  lemma IdleOnce<T>(trace: seq<State<T>>, acts: seq<Action<T>>, n: nat, blocks: seq<seq<Linear<T>>>, tid: nat,
                    start: nat)
    requires Hist(trace, acts, n, blocks) && n < |acts| && !Commits(trace[n], acts[n])
    ensures Once(trace, acts, n + 1, blocks + [[]], tid, start)
  {
    hide Commits, Settled, AllServed;
    TotalGrow(blocks, tid, start);
    if Starts(trace, acts, tid, start) && start <= n + 1 {
      if start == n + 1 {
        NotYet(trace, acts, n, blocks, tid);
        FreshOnce(trace, acts, n, tid);
      } else {
        assert Once(trace, acts, n, blocks, tid, start);
        SettledStep(trace, acts, n, tid, start);
      }
    }
  }

  lemma AddedOnce<T>(trace: seq<State<T>>, acts: seq<Action<T>>, n: nat, blocks: seq<seq<Linear<T>>>,
                     k: nat, x: Linear<T>, last: bool, tid: nat, start: nat)
    requires IsTrace(trace, acts) && |blocks| == n + 1 && AllSit(trace, acts, blocks)
    requires Once(trace, acts, n, blocks, tid, start) && n < |acts| && Commits(trace[n], acts[n]) && k <= n + 1
    requires x.tid == acts[n].tid && Running(trace, acts, x.tid, x.start, n)
    ensures Once(trace, acts, n + 1, Added(blocks, k, x, last), tid, start)
  {
    hide *;
    TotalAdded(blocks, k, x, last, tid, start);
    GrownOnce(trace, acts, n, blocks, Added(blocks, k, x, last), x, tid, start);
  }

  lemma GrownOnce<T>(trace: seq<State<T>>, acts: seq<Action<T>>, n: nat, blocks: seq<seq<Linear<T>>>,
                     blocks': seq<seq<Linear<T>>>, x: Linear<T>, tid: nat, start: nat)
    requires IsTrace(trace, acts) && |blocks| == n + 1 && AllSit(trace, acts, blocks)
    requires Once(trace, acts, n, blocks, tid, start) && n < |acts| && Commits(trace[n], acts[n])
    requires x.tid == acts[n].tid && Running(trace, acts, x.tid, x.start, n)
    requires Total(blocks', tid, start) == Total(blocks, tid, start) + Hit(x, tid, start)
    ensures Once(trace, acts, n + 1, blocks', tid, start)
  {
    assert x.start <= n;
    hide Settled, Total, Commits, IsTrace, AllSit, Running, Starts;
    if Starts(trace, acts, tid, start) && start <= n + 1 {
      if start == n + 1 {
        AddedFresh(trace, acts, n, blocks, x, tid);
      } else {
        AddedOld(trace, acts, n, blocks, x, tid, start);
      }
    }
  }

  lemma AddedFresh<T>(trace: seq<State<T>>, acts: seq<Action<T>>, n: nat, blocks: seq<seq<Linear<T>>>, x: Linear<T>,
                      tid: nat)
    requires IsTrace(trace, acts) && n < |acts| && |blocks| == n + 1 && AllSit(trace, acts, blocks)
    requires Starts(trace, acts, tid, n + 1) && x.start <= n
    ensures Total(blocks, tid, n + 1) + Hit(x, tid, n + 1) == 0 && !Settled(trace, acts, tid, n + 1, n + 1)
  {
    hide Settled, Total, IsTrace, AllSit, Starts;
    NotYet(trace, acts, n, blocks, tid);
    FreshOnce(trace, acts, n, tid);
  }

  lemma AddedOld<T>(trace: seq<State<T>>, acts: seq<Action<T>>, n: nat, blocks: seq<seq<Linear<T>>>, x: Linear<T>,
                    tid: nat, start: nat)
    requires IsTrace(trace, acts) && n < |acts| && Commits(trace[n], acts[n]) && Starts(trace, acts, tid, start) &&
             start <= n
    requires Once(trace, acts, n, blocks, tid, start)
    requires x.tid == acts[n].tid && Running(trace, acts, x.tid, x.start, n)
    ensures Total(blocks, tid, start) + Hit(x, tid, start) == if Settled(trace, acts, tid, start, n + 1) then 1 else 0
  {
    assert n < |trace|;
    hide Settled, Total, Commits, IsTrace, Running, Starts;
    SettledStep(trace, acts, n, tid, start);
    Undecided(trace, acts, n, x.tid, x.start);
    if tid == x.tid && Running(trace, acts, tid, start, n) {
      OneCall(trace, acts, tid, start, x.start, n);
    }
  }

  lemma Undecided<T>(trace: seq<State<T>>, acts: seq<Action<T>>, n: nat, tid: nat, start: nat)
    requires IsTrace(trace, acts) && n < |acts| && Commits(trace[n], acts[n]) && tid == acts[n].tid
    requires Running(trace, acts, tid, start, n)
    ensures !Settled(trace, acts, tid, start, n)
  {
  }

  lemma IdleHist<T>(trace: seq<State<T>>, acts: seq<Action<T>>, n: nat, blocks: seq<seq<Linear<T>>>)
    requires Hist(trace, acts, n, blocks) && n < |acts| && !Commits(trace[n], acts[n])
    ensures Hist(trace, acts, n + 1, blocks + [[]])
  {
    var more := blocks + [[]];
    IdleServed(trace, acts, n, blocks);
    var n' := n + 1;
    forall tid: nat, start: nat ensures Once(trace, acts, n', more, tid, start) {
      IdleOnce(trace, acts, n, blocks, tid, start);
    }
    forall m | 0 <= m <= n + 1 ensures AgreeAt(trace, acts, m, more) {
      forall k, i | 0 <= k < |more| && 0 <= i < |more[k]| ensures Agrees(trace, acts, more[k][i], m) {
        AgreesNext(trace, acts, n, blocks, k, i, m);
      }
    }
    hide Once, Agrees, Commits, AllServed, Sits;
    assert forall k, i :: 0 <= k < |more| && 0 <= i < |more[k]| ==> k <= n && more[k][i] == blocks[k][i];
  }

  lemma AgreesNext<T>(trace: seq<State<T>>, acts: seq<Action<T>>, n: nat, blocks: seq<seq<Linear<T>>>, k: nat,
                      i: nat, m: nat)
    requires Hist(trace, acts, n, blocks) && n < |acts| && k < |blocks| && i < |blocks[k]| && m <= n + 1
    ensures Agrees(trace, acts, blocks[k][i], m)
  {
    if m == n + 1 {
      OldAgrees(trace, acts, n, blocks, k, i);
    } else {
      assert AgreeAt(trace, acts, m, blocks);
    }
  }

  lemma AddedHist<T>(trace: seq<State<T>>, acts: seq<Action<T>>, n: nat, blocks: seq<seq<Linear<T>>>,
                     k: nat, x: Linear<T>, last: bool)
    requires Hist(trace, acts, n, blocks) && n < |acts| && Commits(trace[n], acts[n]) && k <= n + 1
    requires x.tid == acts[n].tid && Running(trace, acts, x.tid, x.start, n) && Sits(trace, acts, x, k)
    requires Reports(trace[n + 1].threads[x.tid], x.op, x.result)
    requires AllServed(trace, n + 1, Added(blocks, k, x, last))
    ensures Hist(trace, acts, n + 1, Added(blocks, k, x, last))
  {
    AddedAllOnce(trace, acts, n, blocks, k, x, last);
    AddedSit(trace, acts, blocks, k, x, last);
    forall m | 0 <= m <= n + 1 ensures AgreeAt(trace, acts, m, Added(blocks, k, x, last)) {
      AddedAgree(trace, acts, n, blocks, k, x, last, m);
    }
    hide AllSit, AllOnce, AllServed, AgreeAt, Sits, Commits, Running, Reports;
  }

  lemma AddedAllOnce<T>(trace: seq<State<T>>, acts: seq<Action<T>>, n: nat, blocks: seq<seq<Linear<T>>>,
                        k: nat, x: Linear<T>, last: bool)
    requires Hist(trace, acts, n, blocks) && n < |acts| && Commits(trace[n], acts[n]) && k <= n + 1
    requires x.tid == acts[n].tid && Running(trace, acts, x.tid, x.start, n)
    ensures AllOnce(trace, acts, n + 1, Added(blocks, k, x, last))
  {
    hide Commits, Running, IsTrace, AllSit, AllServed, AllAgree, Once;
    var r, n' := Added(blocks, k, x, last), n + 1;
    forall tid: nat, start: nat ensures Once(trace, acts, n', r, tid, start) {
      assert Once(trace, acts, n, blocks, tid, start);
      AddedOnce(trace, acts, n, blocks, k, x, last, tid, start);
    }
  }

  lemma AddedSit<T>(trace: seq<State<T>>, acts: seq<Action<T>>, blocks: seq<seq<Linear<T>>>, k: nat, x: Linear<T>,
                    last: bool)
    requires AllSit(trace, acts, blocks) && k <= |blocks| && Sits(trace, acts, x, k)
    ensures AllSit(trace, acts, Added(blocks, k, x, last))
  {
    hide Sits;
    var r := Added(blocks, k, x, last);
    forall j, i | 0 <= j < |r| && 0 <= i < |r[j]| ensures Sits(trace, acts, r[j][i], j) {
      AddedIs(blocks, k, x, last, j, i);
    }
  }

  lemma AddedAgree<T>(trace: seq<State<T>>, acts: seq<Action<T>>, n: nat, blocks: seq<seq<Linear<T>>>,
                      k: nat, x: Linear<T>, last: bool, m: nat)
    requires Hist(trace, acts, n, blocks) && n < |acts| && Commits(trace[n], acts[n]) && k <= n + 1 && m <= n + 1
    requires x.tid == acts[n].tid && Running(trace, acts, x.tid, x.start, n)
    requires x.tid < |trace[n + 1].threads| && Reports(trace[n + 1].threads[x.tid], x.op, x.result)
    ensures AgreeAt(trace, acts, m, Added(blocks, k, x, last))
  {
    NewAgrees(trace, acts, n, x, m);
    hide Agrees, Commits, Running, IsTrace, AllSit, AllServed, AllAgree, AllOnce, Reports;
    var r := Added(blocks, k, x, last);
    forall j, i | 0 <= j < |r| && 0 <= i < |r[j]| ensures Agrees(trace, acts, r[j][i], m) {
      AddedIs(blocks, k, x, last, j, i);
      if r[j][i] != x {
        var o :| 0 <= o < |blocks[j]| && blocks[j][o] == r[j][i];
        AgreesNext(trace, acts, n, blocks, j, o, m);
      }
    }
  }

  lemma AddedIs<T>(blocks: seq<seq<Linear<T>>>, k: nat, x: Linear<T>, last: bool, j: nat, i: nat)
    requires k <= |blocks| && j <= |blocks| && i < |Added(blocks, k, x, last)[j]|
    ensures var y := Added(blocks, k, x, last)[j][i];
            (j == k && y == x) || (j < |blocks| && exists o :: 0 <= o < |blocks[j]| && blocks[j][o] == y)
  {
    var y := Added(blocks, k, x, last)[j][i];
    if j == k && y != x {
      var o := if last then i else i - 1;
      assert blocks[j][o] == y;
    } else if j != k {
      assert blocks[j][i] == y;
    }
  }

  /** The state in which an answer was true. */
  lemma Instant<T>(trace: seq<State<T>>, acts: seq<Action<T>>, tid: nat, start: nat, n: nat, op: Op<T>,
                   result: Result<T>)
    returns (k: nat)
    requires Running(trace, acts, tid, start, n) && trace[n].threads[tid] == Returned(op, result) && Observes(result)
    requires (op == Dequeue && result.Nothing?) || (op == IsEmpty && result.Answer?)
    ensures start <= k <= n && Serve(Contents(trace[k].mem), op, result) == Some(Contents(trace[k].mem))
  {
    AnswersWereTrue(trace, acts, tid, start, n);
    hide Contents, IsTrace;
    if result == Nothing || result == Answer(true) {
      k :| start <= k <= n && k < |trace| && (Contents(trace[k].mem) == []) == true;
    } else {
      k :| start <= k <= n && k < |trace| && (Contents(trace[k].mem) == []) == false;
    }
  }

  /** Only a dequeue finds nothing, and only the emptiness test answers. */
  lemma CommitKind<T>(s: State<T>, a: Action<T>)
    requires Commits(s, a)
    ensures var pc := Next(s, a).threads[a.tid];
            Decided(pc) && pc == Move(s.mem, s.threads[a.tid], a.fails).0 && !s.threads[a.tid].Idle? &&
            (pc.Returned? ==>
               (pc.op == Dequeue && (pc.result.Nothing? || pc.result.Value?)) ||
               (pc.op == IsEmpty && pc.result.Answer?))
  {
  }

  lemma StepHist<T>(trace: seq<State<T>>, acts: seq<Action<T>>, n: nat, blocks: seq<seq<Linear<T>>>)
    returns (blocks': seq<seq<Linear<T>>>)
    requires Hist(trace, acts, n, blocks) && n < |acts|
    ensures Hist(trace, acts, n + 1, blocks')
  {
    var s, a := trace[n], acts[n];
    if !Commits(s, a) {
      IdleHist(trace, acts, n, blocks);
      blocks' := blocks + [[]];
    } else {
      assert trace[n + 1] == Next(s, a);
      CommitKind(s, a);
      var tid := a.tid;
      var start := Current(trace, acts, tid, n);
      RunsOn(trace, acts, tid, start, n);
      CallIs(trace, acts, tid, start, n + 1);
      var pc := trace[n + 1].threads[tid];
      var op := acts[start - 1].op;
      var result := if pc.Returned? then pc.result else Done;
      hide Hist, Commits, Next, IsTrace, Running, Contents, Move;
      if Observes(result) {
        var k := Instant(trace, acts, tid, start, n + 1, op, result);
        var x := Linear(tid, start, k, op, result);
        RunningBefore(trace, acts, tid, start, k, n + 1);
        blocks' := Extend(trace, acts, n, blocks, k, x);
      } else {
        blocks' := Extend(trace, acts, n, blocks, n, Linear(tid, start, n, op, result));
      }
    }
  }

  lemma RunsOn<T>(trace: seq<State<T>>, acts: seq<Action<T>>, tid: nat, start: nat, n: nat)
    requires Running(trace, acts, tid, start, n) && n < |acts| && Commits(trace[n], acts[n]) && tid == acts[n].tid
    ensures Running(trace, acts, tid, start, n + 1)
  {
    assert trace[n + 1] == Next(trace[n], acts[n]);
  }

  lemma Extend<T>(trace: seq<State<T>>, acts: seq<Action<T>>, n: nat, blocks: seq<seq<Linear<T>>>, k: nat, x: Linear<T>)
    returns (blocks': seq<seq<Linear<T>>>)
    requires Hist(trace, acts, n, blocks) && n < |acts| && Commits(trace[n], acts[n]) && k <= n + 1
    requires x.tid == acts[n].tid && Running(trace, acts, x.tid, x.start, n) && Sits(trace, acts, x, k)
    requires x.tid < |trace[n + 1].threads| && Reports(trace[n + 1].threads[x.tid], x.op, x.result)
    requires trace[n + 1].threads[x.tid] == Move(trace[n].mem, trace[n].threads[x.tid], acts[n].fails).0
    requires if Observes(x.result) then Serve(Contents(trace[k].mem), x.op, x.result) == Some(Contents(trace[k].mem))
             else k == n
    ensures Hist(trace, acts, n + 1, blocks')
  {
    blocks' := Added(blocks, k, x, !Observes(x.result));
    if Observes(x.result) {
      ObserveServed(trace, acts, n, blocks, k, x);
    } else {
      EffectServed(trace, acts, n, blocks, x);
    }
    AddedHist(trace, acts, n, blocks, k, x, !Observes(x.result));
  }

  lemma {:induction false} BuildHist<T>(trace: seq<State<T>>, acts: seq<Action<T>>, n: nat)
    returns (blocks: seq<seq<Linear<T>>>)
    requires IsTrace(trace, acts) && n < |trace|
    ensures Hist(trace, acts, n, blocks)
  {
    if n == 0 {
      blocks := [[]];
      HistStart(trace, acts);
    } else {
      var before := BuildHist(trace, acts, n - 1);
      blocks := StepHist(trace, acts, n - 1, before);
    }
  }

  // ---------- The whole history ----------

  lemma {:induction false} ConcatServed<T>(trace: seq<State<T>>, n: nat, blocks: seq<seq<Linear<T>>>, k: nat)
    requires AllServed(trace, n, blocks) && k <= n
    ensures ServeAll(Contents(trace[k].mem), Concat(blocks[k..])) == Some(Contents(trace[n].mem))
    decreases n - k
  {
    hide Contents, ServeAll;
    assert Served(trace, blocks[k], k, n);
    assert blocks[k..][0] == blocks[k] && blocks[k..][1..] == blocks[k + 1..];
    ServeConcat(Contents(trace[k].mem), blocks[k], Concat(blocks[k + 1..]));
    if k < n {
      ConcatServed(trace, n, blocks, k + 1);
    } else {
      NoneServed(Contents(trace[n].mem));
    }
  }

  /** A history of calls, each in a state in which it runs, in the order of these states. */
  ghost predicate InOrder<T>(trace: seq<State<T>>, acts: seq<Action<T>>, h: seq<Linear<T>>) {
    (forall i :: 0 <= i < |h| ==> Sits(trace, acts, h[i], h[i].at)) &&
    forall i, j :: 0 <= i < j < |h| ==> h[i].at <= h[j].at
  }

  ghost predicate NotBefore<T>(h: seq<Linear<T>>, k: nat) {
    forall i :: 0 <= i < |h| ==> k <= h[i].at
  }

  lemma JoinInOrder<T>(trace: seq<State<T>>, acts: seq<Action<T>>, b: seq<Linear<T>>, rest: seq<Linear<T>>, k: nat)
    requires forall i :: 0 <= i < |b| ==> b[i].at == k && Sits(trace, acts, b[i], b[i].at)
    requires InOrder(trace, acts, rest) && NotBefore(rest, k)
    ensures InOrder(trace, acts, b + rest) && NotBefore(b + rest, k)
  {
    hide Sits;
    var h: seq<Linear<T>> := b + rest;
    forall i | 0 <= i < |h| ensures Sits(trace, acts, h[i], h[i].at) {
      assert if i < |b| then h[i] == b[i] else h[i] == rest[i - |b|];
    }
  }

  /** The calls from block `k` on sit where they should, in the order of the blocks. */
  lemma {:induction false} ConcatSits<T>(trace: seq<State<T>>, acts: seq<Action<T>>, blocks: seq<seq<Linear<T>>>,
                                         k: nat)
    requires AllSit(trace, acts, blocks) && k <= |blocks|
    ensures InOrder(trace, acts, Concat(blocks[k..])) && NotBefore(Concat(blocks[k..]), k)
    decreases |blocks| - k
  {
    if k < |blocks| {
      ConcatSits(trace, acts, blocks, k + 1);
      assert blocks[k..][0] == blocks[k] && blocks[k..][1..] == blocks[k + 1..];
      forall i | 0 <= i < |blocks[k]| ensures blocks[k][i].at == k && Sits(trace, acts, blocks[k][i], k) {
        assert Sits(trace, acts, blocks[k][i], k);
      }
      JoinInOrder(trace, acts, blocks[k], Concat(blocks[k + 1..]), k);
    }
  }

  lemma {:induction false} ConcatFrom<T>(blocks: seq<seq<Linear<T>>>, i: nat) returns (k: nat, o: nat)
    requires i < |Concat(blocks)|
    ensures k < |blocks| && o < |blocks[k]| && blocks[k][o] == Concat(blocks)[i]
  {
    if i < |blocks[0]| {
      k, o := 0, i;
    } else {
      k, o := ConcatFrom(blocks[1..], i - |blocks[0]|);
      k := k + 1;
    }
  }

  /** The call has returned by state `m`. */
  ghost predicate Over<T>(trace: seq<State<T>>, x: Linear<T>, m: nat) {
    x.start <= m < |trace| && x.tid < |trace[m].threads| && trace[m].threads[x.tid].Idle?
  }

  /** A call that returned before another one began comes first. */
  lemma RealTime<T>(trace: seq<State<T>>, acts: seq<Action<T>>, h: seq<Linear<T>>, i: nat, j: nat, m: nat)
    requires InOrder(trace, acts, h) && i < |h| && j < |h| && Over(trace, h[i], m) && m < h[j].start
    ensures i < j
  {
    assert Sits(trace, acts, h[i], h[i].at) && Sits(trace, acts, h[j], h[j].at);
    assert h[i].at < m;
  }

  /** A call that has come to its return occurs once, with its answer. */
  ghost predicate Listed<T>(trace: seq<State<T>>, acts: seq<Action<T>>, h: seq<Linear<T>>, tid: nat, start: nat,
                            n: nat) {
    Running(trace, acts, tid, start, n) && trace[n].threads[tid].Returned? ==>
      Count(h, tid, start) == 1 &&
      forall i :: 0 <= i < |h| && h[i].tid == tid && h[i].start == start ==>
        trace[n].threads[tid] == Returned(h[i].op, h[i].result)
  }

  /**
   Every run has one sequential history of a queue with empty answers.  It holds each call
   that returned exactly once, with its operation and its answer, and besides only calls
   that have taken effect; a call that returned before another began comes first.
   */
  lemma History<T>(trace: seq<State<T>>, acts: seq<Action<T>>) returns (h: seq<Linear<T>>)
    requires IsTrace(trace, acts)
    ensures ServeAll([], h) == Some(Contents(trace[|acts|].mem))
    ensures InOrder(trace, acts, h)
    ensures forall tid: nat, start: nat, n: nat :: n < |trace| ==> Listed(trace, acts, h, tid, start, n)
    ensures forall tid: nat, start: nat :: Starts(trace, acts, tid, start) ==>
      Count(h, tid, start) == if Settled(trace, acts, tid, start, |acts|) then 1 else 0
    ensures forall i, j, m: nat {:trigger Over(trace, h[i], m), h[j].start} ::
      0 <= i < |h| && 0 <= j < |h| && Over(trace, h[i], m) && m < h[j].start ==> i < j
  {
    var blocks := BuildHist(trace, acts, |acts|);
    h := Concat(blocks);
    assert blocks[0..] == blocks;
    ConcatServed(trace, |acts|, blocks, 0);
    InitInv(trace[0]);
    EmptyContents(trace[0].mem, Chain([0], 0, 0));
    ConcatSits(trace, acts, blocks, 0);
    forall tid: nat, start: nat, n: nat | n < |trace| ensures Listed(trace, acts, h, tid, start, n) {
      ListedOnce(trace, acts, blocks, tid, start, n);
    }
    forall tid: nat, start: nat | Starts(trace, acts, tid, start)
      ensures Count(h, tid, start) == if Settled(trace, acts, tid, start, |acts|) then 1 else 0
    {
      TotalIsCount(blocks, tid, start);
      assert Once(trace, acts, |acts|, blocks, tid, start);
    }
    forall i, j, m: nat | 0 <= i < |h| && 0 <= j < |h| && Over(trace, h[i], m) && m < h[j].start ensures i < j {
      RealTime(trace, acts, h, i, j, m);
    }
  }

  lemma ListedOnce<T>(trace: seq<State<T>>, acts: seq<Action<T>>, blocks: seq<seq<Linear<T>>>, tid: nat, start: nat,
                      n: nat)
    requires Hist(trace, acts, |acts|, blocks) && n < |trace|
    ensures Listed(trace, acts, Concat(blocks), tid, start, n)
  {
    if Running(trace, acts, tid, start, n) && trace[n].threads[tid].Returned? {
      var h := Concat(blocks);
      TotalIsCount(blocks, tid, start);
      assert Once(trace, acts, |acts|, blocks, tid, start);
      EndsSettled(trace, acts, tid, start, n);
      forall i | 0 <= i < |h| && h[i].tid == tid && h[i].start == start
        ensures trace[n].threads[tid] == Returned(h[i].op, h[i].result)
      {
        var k, o := ConcatFrom(blocks, i);
        assert AgreeAt(trace, acts, n, blocks) && Agrees(trace, acts, blocks[k][o], n);
      }
    }
  }

  lemma EndsSettled<T>(trace: seq<State<T>>, acts: seq<Action<T>>, tid: nat, start: nat, n: nat)
    requires Running(trace, acts, tid, start, n) && Decided(trace[n].threads[tid])
    ensures Settled(trace, acts, tid, start, |acts|)
  {
    if Running(trace, acts, tid, start, |acts|) {
      DecidedStays(trace, acts, tid, start, n, |acts|);
    }
  }
}
