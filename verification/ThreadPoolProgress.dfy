/**
 Progress of the thread pool: every task of a pool with sleepers is provided for, and once
 the destructor joins there is a bound on what the workers can still do.
 */
module ThreadPoolProgress {
  import opened ThreadPool

  // ---------- Enough wakeups for the work ----------

  /** The worker will look at the queue before it sleeps. */
  predicate Looks(w: Worker) {
    w.WantLock? || w.Woken? || w.Check? || w.Decide?
  }

  ghost function Looking(ws: seq<Worker>): nat {
    if ws == [] then 0 else Looking(ws[..|ws| - 1]) + if Looks(ws[|ws| - 1]) then 1 else 0
  }

  ghost function Owing(cs: seq<Caller>): nat {
    if cs == [] then 0 else Owing(cs[..|cs| - 1]) + if cs[|cs| - 1].Owing? then 1 else 0
  }

  /** If somebody sleeps, each task has a worker that will look, or a notification that is owed. */
  ghost predicate Provided(s: Pool) {
    (exists i :: 0 <= i < |s.workers| && s.workers[i].Sleeping?) ==>
      |s.tasks| <= Looking(s.workers) + Owing(s.callers)
  }

  lemma {:induction false} LookingUpdate(ws: seq<Worker>, i: nat, w: Worker)
    requires i < |ws|
    ensures Looking(ws[i := w]) + (if Looks(ws[i]) then 1 else 0) == Looking(ws) + if Looks(w) then 1 else 0
  {
    var n := |ws| - 1;
    if i == n {
      assert ws[i := w][..n] == ws[..n];
    } else {
      LookingUpdate(ws[..n], i, w);
      assert ws[i := w][..n] == ws[..n][i := w];
    }
  }

  lemma {:induction false} OwingUpdate(cs: seq<Caller>, i: nat, c: Caller)
    requires i < |cs|
    ensures Owing(cs[i := c]) + (if cs[i].Owing? then 1 else 0) == Owing(cs) + if c.Owing? then 1 else 0
  {
    var n := |cs| - 1;
    if i == n {
      assert cs[i := c][..n] == cs[..n];
    } else {
      OwingUpdate(cs[..n], i, c);
      assert cs[i := c][..n] == cs[..n][i := c];
    }
  }

  /** A worker falls asleep on an empty queue only, and stops looking when it takes a task or ends. */
  lemma WorkerLooks(s: Pool, i: nat)
    requires i < |s.workers|
    ensures var s' := StepWorker(s, i);
            |s'.workers| == |s.workers| && s'.workers == s.workers[i := s'.workers[i]] && s'.callers == s.callers &&
            (s'.workers[i].Sleeping? ==> s.workers[i].Sleeping? || s'.tasks == []) &&
            (s'.tasks == [] ||
             |s'.tasks| + (if Looks(s.workers[i]) then 1 else 0) <= |s.tasks| + if Looks(s'.workers[i]) then 1 else 0)
  {
  }

  lemma WorkerProvided(s: Pool, i: nat)
    requires Provided(s) && i < |s.workers|
    ensures Provided(StepWorker(s, i))
  {
    WorkerLooks(s, i);
    hide StepWorker, Looking;
    LookingUpdate(s.workers, i, StepWorker(s, i).workers[i]);
  }

  lemma WakeUpProvided(s: Pool, i: nat)
    requires Provided(s) && i < |s.workers| && s.workers[i].Sleeping?
    ensures Provided(SetWorker(s, i, Woken))
  {
    LookingUpdate(s.workers, i, Woken);
  }

  lemma CallerProvided(s: Pool, i: nat, choice: nat)
    requires Provided(s) && i < |s.callers|
    ensures Provided(StepCaller(s, i, choice))
  {
    var s' := StepCaller(s, i, choice);
    OwingUpdate(s.callers, i, s'.callers[i]);
    assert s'.callers == s.callers[i := s'.callers[i]];
    if s.callers[i].Owing? {
      NotifyProvided(s.workers, choice);
    }
  }

  /** A notification turns a sleeper, if there is one, into a worker that will look. */
  lemma NotifyProvided(ws: seq<Worker>, choice: nat)
    ensures var ws' := NotifyOne(ws, choice);
            |ws'| == |ws| &&
            if exists i :: 0 <= i < |ws| && ws[i].Sleeping? then Looking(ws') == Looking(ws) + 1 else ws' == ws
  {
    var i := if choice < |ws| && ws[choice].Sleeping? then choice else FirstSleeper(ws, 0);
    if i < |ws| {
      LookingUpdate(ws, i, Woken);
    }
  }

  lemma StepProvided(s: Pool, a: Action)
    requires Provided(s)
    ensures Provided(Next(s, a))
  {
    match a
    case WorkerStep(i) => if i < |s.workers| { WorkerProvided(s, i); }
    case WakeUp(i) => if i < |s.workers| && s.workers[i].Sleeping? { WakeUpProvided(s, i); }
    case Call(i) => if i < |s.callers| { OwingUpdate(s.callers, i, Wanting); }
    case CallerStep(i, choice) => if i < |s.callers| { CallerProvided(s, i, choice); }
    case Destroy =>
    case DestroyStep =>
  }

  /** In every reachable state, for any number of workers and callers. */
  lemma {:induction false} AlwaysProvided(s: Pool, acts: seq<Action>)
    requires Provided(s)
    ensures Provided(Run(s, acts))
    decreases |acts|
  {
    if acts != [] {
      StepProvided(s, acts[0]);
      AlwaysProvided(Next(s, acts[0]), acts[1..]);
    }
  }

  /** No task of a pool with a sleeper is left without a worker or a notification to come. */
  lemma NoTaskForgotten(s: Pool, acts: seq<Action>)
    requires Init(s)
    ensures Provided(Run(s, acts))
  {
    AlwaysProvided(s, acts);
  }

  // ---------- The joins end ----------

  /** How many steps a worker can still make without taking another task. */
  function Rank(w: Worker): nat {
    match w
    case Exited => 0
    case Decide => 1
    case Check => 2
    case WantLock => 3
    case Woken => 3
    case Sleeping => 4
    case Running(_) => 4
    case Starting(_) => 5
    case Holding(_) => 6
  }

  ghost function Ranks(ws: seq<Worker>): nat {
    if ws == [] then 0 else Ranks(ws[..|ws| - 1]) + Rank(ws[|ws| - 1])
  }

  lemma {:induction false} RanksUpdate(ws: seq<Worker>, i: nat, w: Worker)
    requires i < |ws|
    ensures Ranks(ws[i := w]) + Rank(ws[i]) == Ranks(ws) + Rank(w)
  {
    var n := |ws| - 1;
    if i == n {
      assert ws[i := w][..n] == ws[..n];
    } else {
      RanksUpdate(ws[..n], i, w);
      assert ws[i := w][..n] == ws[..n][i := w];
    }
  }

  ghost predicate Finishing(s: Pool) {
    Inv(s) && (s.destructor.Joining? || s.destructor.Joined?)
  }

  /** A bound on the steps of workers and destructor until the joins are done. */
  ghost function JoinWork(s: Pool): nat
    requires Finishing(s)
  {
    if s.destructor.Joined? then 0
    else 6 * |s.tasks| + Ranks(s.workers) + (|s.workers| - s.destructor.k) + 1
  }

  /** The step moves a worker or the destructor. */
  ghost predicate Effective(s: Pool, a: Action) {
    Next(s, a).workers != s.workers || Next(s, a).destructor != s.destructor
  }

  lemma WorkerWork(s: Pool, i: nat)
    requires s.stop && i < |s.workers| && !s.workers[i].Sleeping?
    ensures var s' := StepWorker(s, i);
            s'.destructor == s.destructor &&
            if s'.workers == s.workers then s'.tasks == s.tasks
            else 6 * |s'.tasks| + Ranks(s'.workers) < 6 * |s.tasks| + Ranks(s.workers)
  {
    var s' := StepWorker(s, i);
    RanksUpdate(s.workers, i, s'.workers[i]);
    assert s'.workers == s.workers[i := s'.workers[i]];
  }

  lemma NobodySleeps(s: Pool)
    requires Finishing(s)
    ensures s.stop && forall i :: 0 <= i < |s.workers| ==> !s.workers[i].Sleeping?
  {
  }

  /** Every effective step lowers the bound, and no other raises it. */
  lemma JoinStep(s: Pool, a: Action)
    requires Finishing(s)
    ensures Finishing(Next(s, a)) && JoinWork(Next(s, a)) <= JoinWork(s)
    ensures Effective(s, a) ==> JoinWork(Next(s, a)) < JoinWork(s)
  {
    StepInv(s, a);
    NobodySleeps(s);
    hide Inv, Exclusive, Queued, Tallied, NoLostWakeup;
    match a
    case WorkerStep(i) => if i < |s.workers| { WorkerJoin(s, i); }
    case WakeUp(i) =>
    case Call(i) =>
    case CallerStep(i, choice) => if i < |s.callers| { CallerJoin(s, i, choice); }
    case Destroy =>
    case DestroyStep => DestructorJoin(s);
  }

  lemma WorkerJoin(s: Pool, i: nat)
    requires Finishing(s) && i < |s.workers| && s.stop && !s.workers[i].Sleeping? && Finishing(StepWorker(s, i))
    ensures JoinWork(StepWorker(s, i)) <= JoinWork(s)
    ensures StepWorker(s, i).workers != s.workers ==> JoinWork(StepWorker(s, i)) < JoinWork(s)
  {
    WorkerWork(s, i);
    if s.destructor.Joined? {
      assert s.workers[i].Exited?;
    }
  }

  lemma CallerJoin(s: Pool, i: nat, choice: nat)
    requires s.stop && i < |s.callers| && forall k :: 0 <= k < |s.workers| ==> !s.workers[k].Sleeping?
    ensures var s' := StepCaller(s, i, choice);
            s'.workers == s.workers && s'.tasks == s.tasks && s'.destructor == s.destructor
  {
    NotifyProvided(s.workers, choice);
  }

  lemma DestructorJoin(s: Pool)
    requires Finishing(s) && Finishing(StepDestructor(s))
    ensures JoinWork(StepDestructor(s)) <= JoinWork(s)
    ensures StepDestructor(s) != s ==> JoinWork(StepDestructor(s)) < JoinWork(s)
  {
  }

  /** How many steps of a run are effective. */
  ghost function Effects(s: Pool, acts: seq<Action>): nat
    decreases |acts|
  {
    if acts == [] then 0
    else (if Effective(s, acts[0]) then 1 else 0) + Effects(Next(s, acts[0]), acts[1..])
  }

  /** However the run goes on, the number of effective steps is bounded; at the bound the joins are done. */
  lemma {:induction false} JoinsBounded(s: Pool, acts: seq<Action>)
    requires Finishing(s)
    ensures Finishing(Run(s, acts)) && Effects(s, acts) + JoinWork(Run(s, acts)) <= JoinWork(s)
    ensures Effects(s, acts) == JoinWork(s) ==> Run(s, acts).destructor.Joined?
    decreases |acts|
  {
    if acts != [] {
      JoinStep(s, acts[0]);
      JoinsBounded(Next(s, acts[0]), acts[1..]);
    }
  }

  /** Until the joins are done some effective step is possible, at most one step of a caller away. */
  lemma JoinMove(s: Pool) returns (acts: seq<Action>)
    requires Finishing(s) && s.destructor.Joining?
    ensures |acts| <= 2 && Finishing(Run(s, acts)) && JoinWork(Run(s, acts)) < JoinWork(s)
    ensures forall i :: 0 <= i < |acts| ==> acts[i].WorkerStep? || acts[i].CallerStep? || acts[i].DestroyStep?
  {
    hide Inv, Next, JoinWork;
    if s.lock.HeldBy? && s.lock.t.C? {
      var a := CallerStep(s.lock.t.i, 0);
      CallerLeaves(s);
      JoinStep(s, a);
      var b := FreeMove(Next(s, a));
      acts := [a, b];
      RunTwo(s, a, b);
      JoinStep(Next(s, a), b);
    } else {
      var b := FreeMove(s);
      acts := [b];
      RunOne(s, b);
      JoinStep(s, b);
    }
  }

  lemma RunOne(s: Pool, a: Action)
    ensures Run(s, [a]) == Next(s, a)
  {
    assert [a][1..] == [];
  }

  lemma RunTwo(s: Pool, a: Action, b: Action)
    ensures Run(s, [a, b]) == Next(Next(s, a), b)
  {
    assert [a, b][1..] == [b];
    RunOne(Next(s, a), b);
  }

  lemma CallerLeaves(s: Pool)
    requires Finishing(s) && s.destructor.Joining? && s.lock.HeldBy? && s.lock.t.C?
    ensures var s' := Next(s, CallerStep(s.lock.t.i, 0)); s'.lock.Free? && s'.destructor == s.destructor
  {
  }

  /** While no caller holds the mutex, a worker or the destructor can move. */
  lemma FreeMove(s: Pool) returns (a: Action)
    requires Finishing(s) && s.destructor.Joining? && !(s.lock.HeldBy? && s.lock.t.C?)
    ensures Effective(s, a) && (a.WorkerStep? || a.DestroyStep?)
  {
    NobodySleeps(s);
    var k := s.destructor.k;
    if k >= |s.workers| || s.workers[k].Exited? {
      a := DestroyStep;
    } else {
      var j := if s.lock.HeldBy? && s.lock.t.W? then s.lock.t.i else k;
      WorkerMoves(s, j);
      a := WorkerStep(j);
    }
  }

  lemma WorkerMoves(s: Pool, j: nat)
    requires Finishing(s) && j < |s.workers| && !s.workers[j].Exited? && !s.workers[j].Sleeping?
    requires s.lock.Free? || s.lock == HeldBy(W(j))
    ensures StepWorker(s, j).workers[j] != s.workers[j]
  {
  }

  /** From every state in which the destructor joins, some schedule ends the joins. */
  lemma {:induction false} JoinsEnd(s: Pool) returns (acts: seq<Action>)
    requires Finishing(s)
    ensures Run(s, acts).destructor.Joined? && |acts| <= 2 * JoinWork(s)
    ensures forall i :: 0 <= i < |acts| ==> acts[i].WorkerStep? || acts[i].CallerStep? || acts[i].DestroyStep?
    decreases JoinWork(s)
  {
    if s.destructor.Joined? {
      acts := [];
    } else {
      var a := JoinMove(s);
      var b := JoinsEnd(Run(s, a));
      RunConcat(s, a, b);
      acts := a + b;
    }
  }

  lemma {:induction false} RunConcat(s: Pool, a: seq<Action>, b: seq<Action>)
    ensures Run(s, a + b) == Run(Run(s, a), b)
    decreases |a|
  {
    if a == [] {
      assert a + b == b;
    } else {
      assert (a + b)[1..] == a[1..] + b;
      RunConcat(Next(s, a[0]), a[1..], b);
    }
  }
}
