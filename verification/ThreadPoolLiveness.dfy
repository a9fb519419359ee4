/**
 Liveness of the thread pool.  While a task waits in the queue there is a bound on what the
 workers can do before it is taken, whatever the schedule, and there is always a step that
 uses up some of the bound; whoever took it finishes it in three steps of its own.
 So every accepted task can be brought to its end, a call of `add_task` is accepted until
 the pool stops, and a destructor that was called can be brought to its end.
 */
module ThreadPoolLiveness {
  import opened ThreadPool
  import opened ThreadPoolProgress

  // ---------- A waiting task ----------

  /** The task is in the queue. */
  ghost predicate Waiting(s: Pool, t: nat) {
    s.popped <= t < s.pushed
  }

  /** A bound on the moves of workers until task `t` is taken. */
  ghost function Waits(s: Pool, t: nat): int {
    6 * (t + 1 - s.popped) + Ranks(s.workers)
  }

  lemma {:induction false} RanksLower(ws: seq<Worker>, vs: seq<Worker>)
    requires |ws| == |vs|
    requires forall i :: 0 <= i < |ws| ==> vs[i] == ws[i] || (ws[i].Sleeping? && vs[i].Woken?)
    ensures Ranks(vs) <= Ranks(ws) && (vs != ws ==> Ranks(vs) < Ranks(ws))
  {
    if ws != [] {
      var n := |ws| - 1;
      RanksLower(ws[..n], vs[..n]);
      if ws[..n] == vs[..n] && ws[n] == vs[n] {
        assert ws == ws[..n] + [ws[n]] && vs == vs[..n] + [vs[n]];
      }
    }
  }

  lemma {:induction false} RanksBound(ws: seq<Worker>)
    ensures Ranks(ws) <= 6 * |ws|
  {
    if ws != [] { RanksBound(ws[..|ws| - 1]); }
  }

  lemma WorkerWaits(s: Pool, i: nat, t: nat)
    requires s.tasks != [] && i < |s.workers|
    ensures var s' := StepWorker(s, i);
            s.popped <= s'.popped <= s.popped + 1 && s'.pushed == s.pushed &&
            Waits(s', t) <= Waits(s, t) && (s'.workers != s.workers ==> Waits(s', t) < Waits(s, t))
  {
    var s' := StepWorker(s, i);
    RanksUpdate(s.workers, i, s'.workers[i]);
    assert s'.workers == s.workers[i := s'.workers[i]];
  }

  lemma CallerWaits(s: Pool, i: nat, choice: nat, t: nat)
    requires i < |s.callers|
    ensures var s' := StepCaller(s, i, choice);
            s'.popped == s.popped && s.pushed <= s'.pushed &&
            Waits(s', t) <= Waits(s, t) && (s'.workers != s.workers ==> Waits(s', t) < Waits(s, t))
  {
    if s.callers[i].Owing? {
      NotifyWakes(s.workers, choice);
      RanksLower(s.workers, NotifyOne(s.workers, choice));
    }
  }

  lemma DestructorWaits(s: Pool, t: nat)
    ensures var s' := StepDestructor(s);
            s'.popped == s.popped && s.pushed == s'.pushed &&
            Waits(s', t) <= Waits(s, t) && (s'.workers != s.workers ==> Waits(s', t) < Waits(s, t))
  {
    if s.destructor.OwesAll? {
      RanksLower(s.workers, NotifyAll(s.workers));
    }
  }

  /** While a task waits, every move of a worker lowers its bound, and no step raises it. */
  lemma WaitStep(s: Pool, a: Action, t: nat)
    requires Queued(s) && Waiting(s, t)
    ensures var s' := Next(s, a);
            s.popped <= s'.popped <= s.popped + 1 && s.pushed <= s'.pushed &&
            Waits(s', t) <= Waits(s, t) && (s'.workers != s.workers ==> Waits(s', t) < Waits(s, t))
  {
    hide Ranks, StepWorker, StepCaller, StepDestructor;
    match a
    case WorkerStep(i) => if i < |s.workers| { WorkerWaits(s, i, t); }
    case WakeUp(i) => if i < |s.workers| { RanksUpdate(s.workers, i, Woken); }
    case Call(i) =>
    case CallerStep(i, choice) => if i < |s.callers| { CallerWaits(s, i, choice, t); }
    case Destroy =>
    case DestroyStep => DestructorWaits(s, t);
  }

  /** How many steps of a run move a worker. */
  ghost function Moves(s: Pool, acts: seq<Action>): nat
    decreases |acts|
  {
    if acts == [] then 0
    else (if Next(s, acts[0]).workers != s.workers then 1 else 0) + Moves(Next(s, acts[0]), acts[1..])
  }

  /** However the run goes on, the workers make at most so many moves before they take a waiting task. */
  lemma {:induction false} WaitsBounded(s: Pool, acts: seq<Action>, t: nat)
    requires Inv(s) && Waiting(s, t)
    ensures Moves(s, acts) >= Waits(s, t) ==> t < Run(s, acts).popped
    ensures t >= Run(s, acts).popped ==> Moves(s, acts) + Waits(Run(s, acts), t) <= Waits(s, t)
    decreases |acts|
  {
    if acts != [] {
      var s' := Next(s, acts[0]);
      StepInv(s, acts[0]);
      WaitStep(s, acts[0], t);
      if t < s'.popped {
        PoppedGrows(s', acts[1..]);
      } else {
        WaitsBounded(s', acts[1..], t);
      }
    }
  }

  lemma {:induction false} PoppedGrows(s: Pool, acts: seq<Action>)
    ensures s.popped <= Run(s, acts).popped
    decreases |acts|
  {
    if acts != [] {
      PoppedGrows(Next(s, acts[0]), acts[1..]);
    }
  }

  // ---------- The mutex is given back ----------

  /** How many steps the holder of the mutex can make before it gives it back. */
  ghost function Holds(s: Pool): nat {
    if s.lock.Free? then 0
    else if s.lock.t.W? && s.lock.t.i < |s.workers| then
      match s.workers[s.lock.t.i]
      case Check => 3
      case Decide => 2
      case _ => 1
    else 1
  }

  function HolderStep(t: Thread): Action {
    match t
    case W(i) => WorkerStep(i)
    case C(i) => CallerStep(i, 0)
    case D => DestroyStep
  }

  /** A step of one thread of the pool, not of its environment; the destructor steps only once it is called. */
  ghost predicate Internal(s: Pool, a: Action) {
    a.WorkerStep? || a.CallerStep? || (a.DestroyStep? && !s.destructor.NotCalled?)
  }

  ghost predicate AllInternal(s: Pool, acts: seq<Action>) {
    forall i :: 0 <= i < |acts| ==> Internal(s, acts[i])
  }

  /** How many tasks the holder of the mutex can still push. */
  ghost function Pushing(s: Pool): nat {
    if s.lock.HeldBy? && s.lock.t.C? then 1 else 0
  }

  /** What a step of the holder leaves alone. */
  ghost predicate Aside(s: Pool, s': Pool) {
    |s'.callers| == |s.callers| && |s'.workers| == |s.workers| && s.popped <= s'.popped &&
    s.pushed <= s'.pushed && s'.pushed + Pushing(s') <= s.pushed + Pushing(s) &&
    (forall i :: 0 <= i < |s.callers| && !s.callers[i].Inside? ==> s'.callers[i] == s.callers[i]) &&
    (!s.destructor.Stopping? ==> s'.destructor == s.destructor && s'.stop == s.stop) &&
    (s.destructor.Stopping? ==> s'.destructor.OwesAll?)
  }

  lemma HolderMoves(s: Pool)
    requires Inv(s) && s.lock.HeldBy?
    ensures var s' := Next(s, HolderStep(s.lock.t)); Holds(s') < Holds(s) && Aside(s, s')
    ensures Internal(s, HolderStep(s.lock.t))
  {
    hide Tallied;
  }

  /** The mutex is free after at most three steps of its holder. */
  lemma {:induction false} GivesBack(s: Pool) returns (acts: seq<Action>)
    requires Inv(s)
    ensures var s' := Run(s, acts); Inv(s') && s'.lock.Free? && Aside(s, s')
    ensures |acts| <= Holds(s) <= 3 && AllInternal(s, acts)
    decreases Holds(s)
  {
    if s.lock.Free? {
      acts := [];
    } else {
      var a := HolderStep(s.lock.t);
      HolderMoves(s);
      StepInv(s, a);
      hide Inv;
      var rest := GivesBack(Next(s, a));
      acts := [a] + rest;
      assert acts[1..] == rest;
    }
  }

  // ---------- A waiting task is taken ----------

  /** Neither a caller nor the destructor has the mutex. */
  ghost predicate ForWorkers(s: Pool) {
    s.lock.Free? || s.lock.t.W?
  }

  lemma ActiveMoves(s: Pool, j: nat)
    requires Inv(s) && j < |s.workers| && Active(s.workers[j]) && s.tasks != []
    requires s.lock.Free? || s.lock == HeldBy(W(j))
    ensures var s' := Next(s, WorkerStep(j)); s'.workers != s.workers && ForWorkers(s')
  {
    hide Tallied;
    assert StepWorker(s, j).workers[j] != s.workers[j];
  }

  lemma NotificationMoves(s: Pool, i: nat)
    requires i < |s.callers| && s.callers[i].Owing? && ForWorkers(s)
    requires exists j :: 0 <= j < |s.workers| && s.workers[j].Sleeping?
    ensures var s' := Next(s, CallerStep(i, 0)); s'.workers != s.workers && ForWorkers(s')
  {
    NotifyProvided(s.workers, 0);
  }

  /** While a task waits, a worker can move or a notification is given that wakes one. */
  lemma WaitMove(s: Pool, t: nat) returns (a: Action)
    requires Inv(s) && |s.workers| > 0 && Waiting(s, t) && ForWorkers(s)
    ensures (a.WorkerStep? || a.CallerStep?) && Next(s, a).workers != s.workers && ForWorkers(Next(s, a))
  {
    hide Tallied, Next;
    assert s.tasks != [];
    if s.lock.HeldBy? {
      a := WorkerStep(s.lock.t.i);
      ActiveMoves(s, s.lock.t.i);
    } else if j :| 0 <= j < |s.workers| && Active(s.workers[j]) {
      a := WorkerStep(j);
      ActiveMoves(s, j);
    } else {
      assert !Active(s.workers[0]);
      var i :| 0 <= i < |s.callers| && s.callers[i].Owing?;
      a := CallerStep(i, 0);
      NotificationMoves(s, i);
    }
  }

  lemma InternalStays(s: Pool, a: Action)
    requires Internal(s, a)
    ensures s.destructor.NotCalled? <==> Next(s, a).destructor.NotCalled?
  {
  }

  lemma InternalJoin(s: Pool, a: Action, acts: seq<Action>)
    requires Internal(s, a) && AllInternal(Next(s, a), acts)
    ensures AllInternal(s, [a] + acts) && Run(s, [a] + acts) == Run(Next(s, a), acts)
  {
    InternalStays(s, a);
    assert ([a] + acts)[1..] == acts;
  }

  lemma {:induction false} Taken(s: Pool, t: nat) returns (acts: seq<Action>)
    requires Inv(s) && |s.workers| > 0 && Waiting(s, t) && ForWorkers(s)
    ensures t < Run(s, acts).popped && |acts| <= Waits(s, t) && AllInternal(s, acts)
    decreases Waits(s, t)
  {
    var a := WaitMove(s, t);
    StepInv(s, a);
    WaitStep(s, a, t);
    NextSize(s, a);
    hide Inv, Next;
    var rest: seq<Action> := [];
    if Next(s, a).popped <= t {
      rest := Taken(Next(s, a), t);
    }
    InternalJoin(s, a, rest);
    acts := [a] + rest;
  }

  // ---------- A task that was taken is finished ----------

  /** How many steps the worker makes until it has finished task `t`. */
  function ToGo(w: Worker, t: nat): nat {
    match w
    case Holding(u) => if u == t then 3 else 0
    case Starting(u) => if u == t then 2 else 0
    case Running(u) => if u == t then 1 else 0
    case _ => 0
  }

  ghost function StepsOf(acts: seq<Action>, j: nat): nat {
    if acts == [] then 0 else (if acts[0] == WorkerStep(j) then 1 else 0) + StepsOf(acts[1..], j)
  }

  /** A worker with a task is never held up: each of its steps brings it on, and no other step disturbs it. */
  lemma ToGoStep(s: Pool, a: Action, j: nat, t: nat)
    requires j < |s.workers| && ToGo(s.workers[j], t) > 0
    ensures var s' := Next(s, a);
            j < |s'.workers| &&
            ToGo(s'.workers[j], t) == ToGo(s.workers[j], t) - (if a == WorkerStep(j) then 1 else 0) &&
            (ToGo(s'.workers[j], t) == 0 ==> Occurs(s'.finished, t) > 0)
  {
    if a == WorkerStep(j) && s.workers[j].Running? {
      OccursSnoc(s.finished, t, t);
    }
    if a.CallerStep? {
      NotifyWakes(s.workers, a.choice);
    }
  }

  lemma {:induction false} FinishedStays(s: Pool, acts: seq<Action>, t: nat)
    requires Occurs(s.finished, t) > 0
    ensures Occurs(Run(s, acts).finished, t) > 0
    decreases |acts|
  {
    if acts != [] {
      FinishedStep(s, acts[0], t);
      hide Next;
      FinishedStays(Next(s, acts[0]), acts[1..], t);
    }
  }

  lemma FinishedStep(s: Pool, a: Action, t: nat)
    ensures Occurs(s.finished, t) <= Occurs(Next(s, a).finished, t)
  {
    if a.WorkerStep? && a.i < |s.workers| && s.workers[a.i].Running? {
      OccursSnoc(s.finished, t, s.workers[a.i].task);
    }
  }

  /** However the run goes on, a task is finished once its worker has made its steps, at most three. */
  lemma {:induction false} HolderFinishes(s: Pool, acts: seq<Action>, j: nat, t: nat)
    requires Inv(s) && j < |s.workers| && ToGo(s.workers[j], t) > 0 && StepsOf(acts, j) >= ToGo(s.workers[j], t)
    ensures Occurs(Run(s, acts).finished, t) == 1
    decreases |acts|
  {
    var s' := Next(s, acts[0]);
    ToGoStep(s, acts[0], j, t);
    StepInv(s, acts[0]);
    hide Inv, Next;
    if ToGo(s'.workers[j], t) == 0 {
      FinishedStays(s', acts[1..], t);
      RunInv(s', acts[1..]);
      AtMostOne(Run(s, acts), t);
    } else {
      HolderFinishes(s', acts[1..], j, t);
    }
  }

  lemma AtMostOne(s: Pool, t: nat)
    requires Inv(s)
    ensures Occurs(s.finished, t) <= Occurs(s.started, t) <= 1
  {
    assert TalliedFor(s, t);
  }

  lemma {:induction false} FindHolder(ws: seq<Worker>, t: nat) returns (j: nat)
    requires InHand(ws, t) + InRun(ws, t) > 0
    ensures j < |ws| && 0 < ToGo(ws[j], t) <= 3
  {
    var n := |ws| - 1;
    if Hand(ws[n], t) + Runs(ws[n], t) > 0 {
      j := n;
    } else {
      j := FindHolder(ws[..n], t);
    }
  }

  /** A task that was taken has a worker, until it is finished. */
  lemma TakenIsHeld(s: Pool, t: nat) returns (j: nat)
    requires Inv(s) && t < s.popped
    ensures Occurs(s.finished, t) == 1 || (j < |s.workers| && 0 < ToGo(s.workers[j], t) <= 3)
  {
    assert TalliedFor(s, t);
    j := 0;
    if InHand(s.workers, t) + InRun(s.workers, t) > 0 {
      j := FindHolder(s.workers, t);
    }
  }

  lemma StepsOfThree(j: nat)
    ensures StepsOf([WorkerStep(j), WorkerStep(j), WorkerStep(j)], j) == 3
  {
    var a := WorkerStep(j);
    assert [a, a, a][1..] == [a, a] && [a, a][1..] == [a] && [a][1..] == [];
    assert StepsOf([a], j) == 1;
    assert StepsOf([a, a], j) == 2;
  }

  lemma Finished(s: Pool, t: nat) returns (acts: seq<Action>)
    requires Inv(s) && t < s.popped
    ensures Occurs(Run(s, acts).finished, t) == 1 && |acts| <= 3 && AllInternal(s, acts)
  {
    acts := [];
    var j := TakenIsHeld(s, t);
    if Occurs(s.finished, t) != 1 {
      acts := [WorkerStep(j), WorkerStep(j), WorkerStep(j)];
      StepsOfThree(j);
      HolderFinishes(s, acts, j, t);
    }
  }

  // ---------- Every accepted task runs ----------

  lemma {:induction false} InternalConcat(s: Pool, a: seq<Action>, b: seq<Action>)
    requires AllInternal(s, a) && AllInternal(Run(s, a), b)
    ensures AllInternal(s, a + b) && Run(s, a + b) == Run(Run(s, a), b)
    decreases |a|
  {
    if a == [] {
      assert a + b == b;
    } else {
      assert forall i :: 0 <= i < |a[1..]| ==> a[1..][i] == a[i + 1];
      assert Internal(s, a[0]);
      InternalStays(s, a[0]);
      InternalConcat(Next(s, a[0]), a[1..], b);
      InternalJoin(s, a[0], a[1..] + b);
      assert [a[0]] + (a[1..] + b) == a + b;
    }
  }

  lemma TaskRuns(s: Pool, t: nat) returns (acts: seq<Action>)
    requires Inv(s) && |s.workers| > 0 && t < s.pushed
    ensures Occurs(Run(s, acts).finished, t) == 1 && AllInternal(s, acts)
    ensures |acts| <= 6 * (|s.tasks| + |s.workers|) + 4
  {
    if t < s.popped {
      acts := Finished(s, t);
    } else {
      RanksBound(s.workers);
      assert s.popped + |s.tasks| == s.pushed;
      hide Inv, Next;
      var a := WorkersTurn(s, t);
      var s1 := Run(s, a);
      var b := Taken(s1, t);
      RunInv(s1, b);
      var c := Finished(Run(s1, b), t);
      InternalConcat(s1, b, c);
      InternalConcat(s, a, b + c);
      acts := a + (b + c);
    }
  }

  /** A caller or the destructor gives the mutex back in one step. */
  lemma WorkersTurn(s: Pool, t: nat) returns (acts: seq<Action>)
    requires Inv(s) && Waiting(s, t)
    ensures var s' := Run(s, acts);
            Inv(s') && Waiting(s', t) && ForWorkers(s') && |s'.workers| == |s.workers| && Waits(s', t) <= Waits(s, t)
    ensures |acts| <= 1 && AllInternal(s, acts)
  {
    acts := [];
    if !ForWorkers(s) {
      var a := HolderStep(s.lock.t);
      HolderMoves(s);
      StepInv(s, a);
      WaitStep(s, a, t);
      acts := [a];
      RunOne(s, a);
    }
  }

  /**
   Every accepted task of every run: steps of workers and callers, and of the destructor if
   it was called, bring it to its one start and its one end, within a bound.
   */
  lemma EveryTaskRuns(s: Pool, acts: seq<Action>, t: nat) returns (more: seq<Action>)
    requires Init(s) && |s.workers| > 0 && t < Run(s, acts).pushed
    ensures Occurs(Run(s, acts + more).started, t) == 1 && Occurs(Run(s, acts + more).finished, t) == 1
    ensures |more| <= 6 * (|Run(s, acts).tasks| + |s.workers|) + 4
    ensures forall i :: 0 <= i < |more| ==>
      more[i].WorkerStep? || more[i].CallerStep? || (more[i].DestroyStep? && !Run(s, acts).destructor.NotCalled?)
  {
    AlwaysInv(s, acts);
    RunSize(s, acts);
    more := TaskRuns(Run(s, acts), t);
    RunConcat(s, acts, more);
    AlwaysInv(s, acts + more);
    AtMostOne(Run(s, acts + more), t);
    assert forall i :: 0 <= i < |more| ==> Internal(Run(s, acts), more[i]);
  }

  // ---------- A call of add_task ----------

  /** In the mutex the call is refused exactly if the pool stops; otherwise its task is the last in the queue. */
  lemma PushStep(s: Pool, i: nat, choice: nat)
    requires Inv(s) && i < |s.callers| && s.callers[i].Inside?
    ensures var s' := Next(s, CallerStep(i, choice));
            s'.lock.Free? && s'.workers == s.workers &&
            if s.stop then s'.callers[i].Away? && s'.tasks == s.tasks && s'.pushed == s.pushed
            else s'.callers[i].Owing? && s'.tasks == s.tasks + [s.pushed] && s'.pushed == s.pushed + 1
  {
  }

  /** A caller that wants the mutex comes in. */
  lemma Enters(s: Pool, i: nat) returns (acts: seq<Action>)
    requires Inv(s) && i < |s.callers| && s.callers[i].Wanting?
    ensures var s' := Run(s, acts);
            Inv(s') && |s'.callers| == |s.callers| && |s'.workers| == |s.workers| && s'.callers[i].Inside? &&
            (!s.destructor.Stopping? ==> s'.stop == s.stop)
    ensures |acts| <= 4 && AllInternal(s, acts)
  {
    var a := GivesBack(s);
    var s1, b := Run(s, a), CallerStep(i, 0);
    StepInv(s1, b);
    RunOne(s1, b);
    InternalConcat(s, a, [b]);
    acts := a + [b];
  }

  /**
   A whole call, in any run in which the destructor is not called: it comes in, its task is
   accepted, and it is brought to its end.
   */
  lemma CallIsServed(s: Pool, acts: seq<Action>, i: nat) returns (enter: seq<Action>, more: seq<Action>, t: nat)
    requires Init(s) && |s.workers| > 0 && i < |s.callers|
    requires i < |Run(s, acts).callers| && Run(s, acts).callers[i].Wanting? && Run(s, acts).destructor.NotCalled?
    ensures var inside := Run(s, acts + enter);
            var pushed := Next(inside, CallerStep(i, 0));
            i < |inside.callers| && inside.callers[i].Inside? && t == inside.pushed &&
            pushed.tasks == inside.tasks + [t] && pushed.pushed == t + 1 &&
            Occurs(Run(pushed, more).started, t) == 1 && Occurs(Run(pushed, more).finished, t) == 1 &&
            |enter| <= 4 && |more| <= 6 * (|pushed.tasks| + |s.workers|) + 4
  {
    var now := Run(s, acts);
    AlwaysInv(s, acts);
    RunSize(s, acts);
    enter := Enters(now, i);
    RunConcat(s, acts, enter);
    var inside := Run(s, acts + enter);
    t := inside.pushed;
    PushStep(inside, i, 0);
    StepInv(inside, CallerStep(i, 0));
    var pushed := Next(inside, CallerStep(i, 0));
    more := TaskRuns(pushed, t);
    RunInv(pushed, more);
    AtMostOne(Run(pushed, more), t);
  }

  // ---------- The destructor ----------

  lemma DestroyTo(s: Pool)
    requires Inv(s) && (s.destructor.WantsLock? ==> s.lock.Free?)
    ensures var s' := Next(s, DestroyStep);
            Inv(s') && |s'.workers| == |s.workers| && s'.popped == s.popped && s'.pushed == s.pushed &&
            (s.destructor.WantsLock? ==> s'.destructor.Stopping?) &&
            (s.destructor.Stopping? ==> s'.destructor.OwesAll?) &&
            (s.destructor.OwesAll? ==> s'.destructor.Joining?)
  {
    StepInv(s, DestroyStep);
  }

  /** How far the destructor is from its joins. */
  ghost function Stages(s: Pool): nat {
    match s.destructor
    case WantsLock => 3
    case Stopping => 2
    case OwesAll => 1
    case _ => 0
  }

  lemma {:induction false} StagesPass(s: Pool) returns (acts: seq<Action>)
    requires Inv(s) && !s.destructor.NotCalled? && (s.destructor.WantsLock? ==> s.lock.Free?)
    ensures var s' := Run(s, acts);
            Finishing(s') && |s'.workers| == |s.workers| && s'.popped == s.popped && s'.pushed == s.pushed
    ensures |acts| <= 3 && AllInternal(s, acts) && |acts| == Stages(s)
    decreases Stages(s)
  {
    acts := [];
    if Stages(s) > 0 {
      DestroyTo(s);
      hide Inv, Next;
      var rest := StagesPass(Next(s, DestroyStep));
      InternalJoin(s, DestroyStep, rest);
      acts := [DestroyStep] + rest;
    }
  }

  /** A destructor that was called comes to its joins, one more task being pushed at most. */
  lemma ComesToJoin(s: Pool) returns (acts: seq<Action>)
    requires Inv(s) && !s.destructor.NotCalled?
    ensures var s' := Run(s, acts);
            Finishing(s') && |s'.workers| == |s.workers| && |s'.tasks| <= |s.tasks| + 1
    ensures |acts| <= 6 && AllInternal(s, acts)
  {
    var a := GivesBack(s);
    var b := StagesPass(Run(s, a));
    InternalConcat(s, a, b);
    acts := a + b;
  }

  /** In every run in which the destructor was called it can be brought to its end, within a bound. */
  lemma DestructionEnds(s: Pool, acts: seq<Action>) returns (more: seq<Action>)
    requires Init(s) && !Run(s, acts).destructor.NotCalled?
    ensures Run(s, acts + more).destructor.Joined?
    ensures |more| <= 12 * |Run(s, acts).tasks| + 14 * |s.workers| + 20
    ensures forall i :: 0 <= i < |more| ==> more[i].WorkerStep? || more[i].CallerStep? || more[i].DestroyStep?
  {
    var now := Run(s, acts);
    AlwaysInv(s, acts);
    RunSize(s, acts);
    hide Inv;
    var a := ComesToJoin(now);
    var b := JoinsEnd(Run(now, a));
    RanksBound(Run(now, a).workers);
    RunConcat(now, a, b);
    RunConcat(s, acts, a + b);
    more := a + b;
    assert forall i :: 0 <= i < |a| ==> Internal(now, a[i]);
  }
}
