/**
 Progress of the lock-free queue: a thread goes round its loop again only because of a
 compare-and-swap that failed for no reason, or because somebody wrote to the queue since
 it began the round; and writes are paid for by operations that take effect.
 */
module LockfreeProgress {
  import opened Common
  import opened LockfreeQueue

  /** Where a round of a retry loop begins. */
  predicate Begins<T>(pc: PC<T>) {
    pc.EnqLoadTail? || pc.DeqLoadHead?
  }

  /** Inside a round. */
  predicate InRound<T>(pc: PC<T>) {
    pc.EnqLoadNext? || pc.EnqCheck? || pc.EnqLink? || pc.EnqHelp? ||
    pc.DeqLoadTail? || pc.DeqLoadNext? || pc.DeqCheck? || pc.DeqHelp? || pc.DeqTake? || pc.DeqSwing?
  }

  /** A write to `head`, to `tail` or to a link. */
  predicate Touches<T>(w: Write<T>) {
    w.Link? || w.SetTail? || w.SetHead?
  }

  /** A compare-and-swap that would have succeeded. */
  predicate Spurious<T>(m: Shared<T>, pc: PC<T>, fails: bool) {
    fails && Touches(Move(m, pc, false).1)
  }

  /** The step ends a round without ending the call, and not for no reason. */
  predicate GoesRound<T>(m: Shared<T>, pc: PC<T>, fails: bool) {
    InRound(pc) && Begins(Move(m, pc, fails).0) && !Spurious(m, pc, fails)
  }

  ghost predicate Retries<T>(s: State<T>, a: Action<T>, tid: nat) {
    a.Step? && a.tid == tid < |s.threads| && GoesRound(s.mem, s.threads[tid], a.fails)
  }

  ghost predicate Writes<T>(s: State<T>, a: Action<T>) {
    a.Step? && a.tid < |s.threads| && Touches(Move(s.mem, s.threads[a.tid], a.fails).1)
  }

  /** How often a thread goes round in a run. */
  ghost function Rounds<T>(s: State<T>, acts: seq<Action<T>>, tid: nat): nat
    decreases |acts|
  {
    if acts == [] then 0 else (if Retries(s, acts[0], tid) then 1 else 0) + Rounds(Next(s, acts[0]), acts[1..], tid)
  }

  /** How often the queue is written to in a run. */
  ghost function Written<T>(s: State<T>, acts: seq<Action<T>>): nat
    decreases |acts|
  {
    if acts == [] then 0 else (if Writes(s, acts[0]) then 1 else 0) + Written(Next(s, acts[0]), acts[1..])
  }

  // ---------- What a thread has read is still so ----------

  ghost predicate UpToDate<T>(m: Shared<T>, pc: PC<T>) {
    match pc
    case EnqLoadNext(_, _, tail) => tail == m.tail
    case EnqCheck(_, _, tail, next) => tail == m.tail && next == NextOf(m, tail)
    case EnqLink(_, _, tail) => tail == m.tail && NextOf(m, tail).Null?
    case EnqHelp(_, _, tail, _) => tail == m.tail
    case DeqLoadTail(head) => head == m.head
    case DeqLoadNext(head, tail) => head == m.head && tail == m.tail
    case DeqCheck(head, tail, next) => head == m.head && tail == m.tail && next == NextOf(m, head)
    case DeqHelp(tail, _) => tail == m.tail
    case DeqTake(head, _) => head == m.head
    case DeqSwing(head, _, _) => head == m.head
    case _ => true
  }

  /** Steps that do not write keep it so, for the thread that makes them and for the others. */
  lemma OwnUpToDate<T>(m: Shared<T>, pc: PC<T>, fails: bool)
    requires UpToDate(m, pc) && !Touches(Move(m, pc, fails).1)
    ensures UpToDate(Apply(m, Move(m, pc, fails).1), Move(m, pc, fails).0)
  {
  }

  lemma OtherUpToDate<T>(m: Shared<T>, w: Write<T>, pc: PC<T>)
    requires UpToDate(m, pc) && !Touches(w)
    ensures UpToDate(Apply(m, w), pc)
  {
  }

  /** Whoever is up to date and goes round has written. */
  lemma RoundMeansChange<T>(m: Shared<T>, c: Chain, pc: PC<T>, fails: bool)
    requires Chained(m, c) && Knows(m, c, pc) && UpToDate(m, pc) && GoesRound(m, pc, fails)
    ensures Touches(Move(m, pc, fails).1)
  {
    match pc
    case DeqCheck(head, tail, next) => NextOfHead(m, c);
    case DeqTake(head, succ) => SuccessorThere(m, c, pc);
    case _ =>
  }

  /** If `head` and `tail` differ, the node at `head` has a successor. */
  lemma NextOfHead<T>(m: Shared<T>, c: Chain)
    requires Chained(m, c)
    ensures m.head != m.tail ==> NextOf(m, m.head).To?
  {
    assert m.heap[c.ids[c.h]].next == if c.h + 1 < |c.ids| then To(c.ids[c.h + 1]) else Null;
  }

  lemma SuccessorThere<T>(m: Shared<T>, c: Chain, pc: PC<T>)
    requires Chained(m, c) && pc.DeqTake? && Knows(m, c, pc)
    ensures pc.succ < |m.heap|
  {
    assert UpTo(c, pc.succ, c.k);
  }

  // ---------- Every run ----------

  ghost function Behind<T>(s: State<T>, tid: nat): nat
    requires tid < |s.threads|
  {
    if UpToDate(s.mem, s.threads[tid]) then 0 else 1
  }

  /** One step: going round is paid for by a write, now or since the round began. */
  lemma StepPaid<T>(s: State<T>, a: Action<T>, c: Chain, tid: nat)
    requires Inv(s, c) && tid < |s.threads|
    ensures |Next(s, a).threads| == |s.threads|
    ensures (if Retries(s, a, tid) then 1 else 0) + Behind(Next(s, a), tid)
         <= (if Writes(s, a) then 1 else 0) + Behind(s, tid)
  {
    if a.Step? && a.tid < |s.threads| {
      var pc, mine := s.threads[a.tid], s.threads[tid];
      assert Knows(s.mem, c, pc);
      var w := Move(s.mem, pc, a.fails).1;
      if a.tid == tid {
        if UpToDate(s.mem, pc) {
          if Retries(s, a, tid) {
            RoundMeansChange(s.mem, c, pc, a.fails);
          } else if !Touches(w) {
            OwnUpToDate(s.mem, pc, a.fails);
          }
        }
      } else if UpToDate(s.mem, mine) && !Touches(w) {
        OtherUpToDate(s.mem, w, mine);
      }
    }
  }

  lemma {:induction false} RunPaid<T>(s: State<T>, acts: seq<Action<T>>, c: Chain, tid: nat)
    requires Inv(s, c) && tid < |s.threads|
    ensures Rounds(s, acts, tid) <= Written(s, acts) + Behind(s, tid)
    decreases |acts|
  {
    if acts != [] {
      StepPaid(s, acts[0], c, tid);
      StepInv(s, acts[0], c);
      RunPaid(Next(s, acts[0]), acts[1..], ChainAfter(s, acts[0], c), tid);
    }
  }

  lemma InitPaid<T>(s: State<T>, acts: seq<Action<T>>, tid: nat)
    requires Init(s) && tid < |s.threads|
    ensures Rounds(s, acts, tid) <= Written(s, acts)
  {
    hide Written, Rounds;
    InitInv(s);
    RunPaid(s, acts, Chain([0], 0, 0), tid);
  }

  /** The rounds of all threads. */
  ghost function AllRounds<T>(s: State<T>, acts: seq<Action<T>>, n: nat): nat {
    if n == 0 then 0 else AllRounds(s, acts, n - 1) + Rounds(s, acts, n - 1)
  }

  lemma OneMore(n: nat, w: nat)
    ensures (n + 1) * w == n * w + w
  {
  }

  lemma {:induction false} AllPaid<T>(s: State<T>, acts: seq<Action<T>>, n: nat)
    requires Init(s) && n <= |s.threads|
    ensures AllRounds(s, acts, n) <= n * Written(s, acts)
  {
    hide Written, Rounds, Init;
    if n > 0 {
      AllPaid(s, acts, n - 1);
      InitPaid(s, acts, n - 1);
      OneMore(n - 1, Written(s, acts));
    }
  }

  // ---------- Writes are operations ----------

  /** How far `tail` is behind the last node. */
  ghost function Lag(c: Chain): int {
    |c.ids| - 1 - c.k
  }

  /** One step: a link is an enqueue, moving `head` a dequeue, and moving `tail` makes up for a link. */
  lemma StepCosts<T>(s: State<T>, a: Action<T>, c: Chain)
    requires Inv(s, c)
    ensures var e := Listed(Effect(s, a));
            (if Writes(s, a) then 1 else 0) + Lag(ChainAfter(s, a, c)) ==
            2 * |EnqValues(e)| + |DeqValues(e)| + Lag(c)
  {
    if a.Step? && a.tid < |s.threads| {
      var pc := s.threads[a.tid];
      assert Knows(s.mem, c, pc);
      MoveLegal(s.mem, c, pc, a.fails);
      EffectIs(s.mem, c, pc, a.fails);
      var e := Listed(Effect(s, a));
      assert e != [] ==> e == [e[0]] && e[1..] == [];
    }
  }

  lemma {:induction false} RunCosts<T>(s: State<T>, acts: seq<Action<T>>, c: Chain) returns (c': Chain)
    requires Inv(s, c)
    ensures Inv(Run(s, acts), c')
    ensures var es := Events(s, acts);
            Written(s, acts) + Lag(c') == 2 * |EnqValues(es)| + |DeqValues(es)| + Lag(c)
    decreases |acts|
  {
    if acts == [] {
      c' := c;
    } else {
      var s' := Next(s, acts[0]);
      StepInv(s, acts[0], c);
      StepCosts(s, acts[0], c);
      c' := RunCosts(s', acts[1..], ChainAfter(s, acts[0], c));
      CountsConcat(Listed(Effect(s, acts[0])), Events(s', acts[1..]));
    }
  }

  lemma {:induction false} CountsConcat<T>(a: seq<Event<T>>, b: seq<Event<T>>)
    ensures |EnqValues(a + b)| == |EnqValues(a)| + |EnqValues(b)|
    ensures |DeqValues(a + b)| == |DeqValues(a)| + |DeqValues(b)|
  {
    if a == [] {
      assert a + b == b;
    } else {
      assert (a + b)[0] == a[0] && (a + b)[1..] == a[1..] + b;
      CountsConcat(a[1..], b);
    }
  }

  /**
   Lock-freedom: in every run, each thread goes round for other than spurious reasons at
   most twice for every enqueue and once for every dequeue that takes effect in the run; so
   all threads together at most that often times their number.
   */
  lemma LockFree<T>(s: State<T>, acts: seq<Action<T>>)
    requires Init(s)
    ensures var es := Events(s, acts);
            var work := 2 * |EnqValues(es)| + |DeqValues(es)|;
            Written(s, acts) <= work &&
            (forall tid :: 0 <= tid < |s.threads| ==> Rounds(s, acts, tid) <= Written(s, acts)) &&
            AllRounds(s, acts, |s.threads|) <= |s.threads| * Written(s, acts)
  {
    InitInv(s);
    var c := Chain([0], 0, 0);
    var c' := RunCosts(s, acts, c);
    AllPaid(s, acts, |s.threads|);
    forall tid | 0 <= tid < |s.threads| ensures Rounds(s, acts, tid) <= Written(s, acts) {
      InitPaid(s, acts, tid);
    }
  }

  // ---------- Steps ----------

  /** How many steps a call can make without going round. */
  function StepsLeft<T>(pc: PC<T>): nat {
    match pc
    case Idle => 0
    case Returned(_, _) => 0
    case EnqNew(_) => 6
    case EnqLoadTail(_, _) => 5
    case EnqLoadNext(_, _, _) => 4
    case EnqCheck(_, _, _, _) => 3
    case EnqLink(_, _, _) => 2
    case EnqHelp(_, _, _, _) => 2
    case EnqSwing(_, _, _) => 1
    case DeqLoadHead => 6
    case DeqLoadTail(_) => 5
    case DeqLoadNext(_, _) => 4
    case DeqCheck(_, _, _) => 3
    case DeqHelp(_, _) => 2
    case DeqTake(_, _) => 2
    case DeqSwing(_, _, _) => 1
    case EmptyLoadHead => 3
    case EmptyLoadTail(_) => 2
    case EmptyLoadNext(_) => 1
  }

  /** A step of a call that has not come to its return. */
  ghost predicate Acts<T>(s: State<T>, a: Action<T>, tid: nat) {
    a.Step? && a.tid == tid < |s.threads| && !s.threads[tid].Idle? && !s.threads[tid].Returned?
  }

  ghost predicate Excused<T>(s: State<T>, a: Action<T>, tid: nat) {
    a.Step? && a.tid == tid < |s.threads| && Spurious(s.mem, s.threads[tid], a.fails)
  }

  ghost predicate Begun<T>(s: State<T>, a: Action<T>, tid: nat) {
    a.Invoke? && a.tid == tid < |s.threads| && s.threads[tid].Idle?
  }

  /** The steps of a thread in a run. */
  ghost function Taken<T>(s: State<T>, acts: seq<Action<T>>, tid: nat): nat
    decreases |acts|
  {
    if acts == [] then 0 else (if Acts(s, acts[0], tid) then 1 else 0) + Taken(Next(s, acts[0]), acts[1..], tid)
  }

  /** What a thread has to show for them: calls begun, rounds, and spurious failures. */
  ghost function Reasons<T>(s: State<T>, acts: seq<Action<T>>, tid: nat): nat
    decreases |acts|
  {
    if acts == [] then 0
    else
      (if Begun(s, acts[0], tid) || Retries(s, acts[0], tid) || Excused(s, acts[0], tid) then 1 else 0) +
      Reasons(Next(s, acts[0]), acts[1..], tid)
  }

  lemma OneStep<T>(s: State<T>, a: Action<T>, tid: nat)
    requires tid < |s.threads|
    ensures |Next(s, a).threads| == |s.threads|
    ensures (if Acts(s, a, tid) then 1 else 0) + StepsLeft(Next(s, a).threads[tid])
         <= StepsLeft(s.threads[tid]) +
            if Begun(s, a, tid) || Retries(s, a, tid) || Excused(s, a, tid) then 7 else 0
  {
  }

  /** Seven steps for each call begun, each round and each spurious failure are all that a thread can take. */
  lemma {:induction false} StepsBounded<T>(s: State<T>, acts: seq<Action<T>>, tid: nat)
    requires tid < |s.threads|
    ensures Taken(s, acts, tid) <= 7 * Reasons(s, acts, tid) + StepsLeft(s.threads[tid])
    decreases |acts|
  {
    if acts != [] {
      OneStep(s, acts[0], tid);
      StepsBounded(Next(s, acts[0]), acts[1..], tid);
    }
  }
}
