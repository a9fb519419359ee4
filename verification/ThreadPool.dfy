/**
 The thread pool as interleaved steps.

 Workers, any number of callers of `add_task` and the destructor share a mutex, a condition
 variable, the queue of tasks and the stop flag.  Waiting releases the mutex and sleeps in one
 step; a sleeper may also wake up for no reason.  Tasks are numbered in the order in which
 they are pushed.
 */
module ThreadPool {

  datatype Worker =
    | WantLock
    | Check
    | Sleeping
    | Woken
    | Decide
    | Holding(task: nat)
    | Starting(task: nat)
    | Running(task: nat)
    | Exited

  datatype Caller = Away | Wanting | Inside | Owing

  datatype Destructor = NotCalled | WantsLock | Stopping | OwesAll | Joining(k: nat) | Joined

  datatype Thread = W(i: nat) | C(i: nat) | D

  datatype Lock = Free | HeldBy(t: Thread)

  datatype Pool = Pool(
    workers: seq<Worker>,
    callers: seq<Caller>,
    destructor: Destructor,
    lock: Lock,
    tasks: seq<nat>,
    stop: bool,
    pushed: nat,
    popped: nat,
    started: seq<nat>,
    finished: seq<nat>)

  /** `choice` is the sleeper that a notification prefers. */
  datatype Action =
    | WorkerStep(i: nat)
    | WakeUp(i: nat)
    | Call(i: nat)
    | CallerStep(i: nat, choice: nat)
    | Destroy
    | DestroyStep

  ghost predicate Init(s: Pool) {
    (forall i :: 0 <= i < |s.workers| ==> s.workers[i].WantLock?) &&
    (forall i :: 0 <= i < |s.callers| ==> s.callers[i].Away?) &&
    s.destructor.NotCalled? && s.lock.Free? && s.tasks == [] && !s.stop &&
    s.pushed == 0 && s.popped == 0 && s.started == [] && s.finished == []
  }

  // ---------- The steps ----------

  function SetWorker(s: Pool, i: nat, w: Worker): Pool
    requires i < |s.workers|
  {
    s.(workers := s.workers[i := w])
  }

  function StepWorker(s: Pool, i: nat): Pool
    requires i < |s.workers|
  {
    match s.workers[i]
    case WantLock => if s.lock.Free? then SetWorker(s, i, Check).(lock := HeldBy(W(i))) else s
    case Woken => if s.lock.Free? then SetWorker(s, i, Check).(lock := HeldBy(W(i))) else s
    case Check =>
      if s.stop || s.tasks != [] then SetWorker(s, i, Decide) else SetWorker(s, i, Sleeping).(lock := Free)
    case Decide =>
      if s.stop && s.tasks == [] then SetWorker(s, i, Exited).(lock := Free)
      else if s.tasks != [] then SetWorker(s, i, Holding(s.tasks[0])).(tasks := s.tasks[1..], popped := s.popped + 1)
      else s
    case Holding(task) => SetWorker(s, i, Starting(task)).(lock := Free)
    case Starting(task) => SetWorker(s, i, Running(task)).(started := s.started + [task])
    case Running(task) => SetWorker(s, i, WantLock).(finished := s.finished + [task])
    case Sleeping => s
    case Exited => s
  }

  function FirstSleeper(ws: seq<Worker>, i: nat): (r: nat)
    ensures r < |ws| ==> ws[r].Sleeping?
    ensures r >= |ws| ==> forall k :: i <= k < |ws| ==> !ws[k].Sleeping?
    decreases |ws| - i
  {
    if i >= |ws| then i else if ws[i].Sleeping? then i else FirstSleeper(ws, i + 1)
  }

  /** Wakes one sleeper, if there is any. */
  function NotifyOne(ws: seq<Worker>, choice: nat): seq<Worker> {
    var i := if choice < |ws| && ws[choice].Sleeping? then choice else FirstSleeper(ws, 0);
    if i < |ws| then ws[i := Woken] else ws
  }

  function NotifyAll(ws: seq<Worker>): (r: seq<Worker>)
    ensures |r| == |ws| && forall i :: 0 <= i < |ws| ==> r[i] == if ws[i].Sleeping? then Woken else ws[i]
  {
    seq(|ws|, i requires 0 <= i < |ws| => if ws[i].Sleeping? then Woken else ws[i])
  }

  function StepCaller(s: Pool, i: nat, choice: nat): Pool
    requires i < |s.callers|
  {
    match s.callers[i]
    case Away => s
    case Wanting => if s.lock.Free? then s.(callers := s.callers[i := Inside], lock := HeldBy(C(i))) else s
    case Inside =>
      if s.stop then s.(callers := s.callers[i := Away], lock := Free)
      else s.(callers := s.callers[i := Owing], lock := Free, tasks := s.tasks + [s.pushed], pushed := s.pushed + 1)
    case Owing => s.(callers := s.callers[i := Away], workers := NotifyOne(s.workers, choice))
  }

  function StepDestructor(s: Pool): Pool {
    match s.destructor
    case NotCalled => s
    case WantsLock => if s.lock.Free? then s.(destructor := Stopping, lock := HeldBy(D)) else s
    case Stopping => s.(destructor := OwesAll, stop := true, lock := Free)
    case OwesAll => s.(destructor := Joining(0), workers := NotifyAll(s.workers))
    case Joining(k) =>
      if k >= |s.workers| then s.(destructor := Joined)
      else if s.workers[k].Exited? then s.(destructor := Joining(k + 1))
      else s
    case Joined => s
  }

  function Next(s: Pool, a: Action): Pool {
    match a
    case WorkerStep(i) => if i < |s.workers| then StepWorker(s, i) else s
    case WakeUp(i) => if i < |s.workers| && s.workers[i].Sleeping? then SetWorker(s, i, Woken) else s
    case Call(i) =>
      if i < |s.callers| && s.callers[i].Away? then s.(callers := s.callers[i := Wanting]) else s
    case CallerStep(i, choice) => if i < |s.callers| then StepCaller(s, i, choice) else s
    case Destroy => if s.destructor.NotCalled? then s.(destructor := WantsLock) else s
    case DestroyStep => StepDestructor(s)
  }

  function Run(s: Pool, acts: seq<Action>): Pool
    decreases |acts|
  {
    if acts == [] then s else Run(Next(s, acts[0]), acts[1..])
  }

  // ---------- The mutex ----------

  predicate InLock(w: Worker) {
    w.Check? || w.Decide? || w.Holding?
  }

  /** Whoever is in a critical section holds the mutex; so there is only one. */
  ghost predicate Exclusive(s: Pool) {
    (forall i :: 0 <= i < |s.workers| ==> (InLock(s.workers[i]) <==> s.lock == HeldBy(W(i)))) &&
    (forall i :: 0 <= i < |s.callers| ==> (s.callers[i].Inside? <==> s.lock == HeldBy(C(i)))) &&
    (s.destructor.Stopping? <==> s.lock == HeldBy(D)) &&
    (s.lock.HeldBy? && s.lock.t.W? ==> s.lock.t.i < |s.workers|) &&
    (s.lock.HeldBy? && s.lock.t.C? ==> s.lock.t.i < |s.callers|)
  }

  // ---------- Tasks ----------

  /** How often a task occurs in a list. */
  ghost function Occurs(s: seq<nat>, t: nat): nat {
    if s == [] then 0 else Occurs(s[..|s| - 1], t) + if s[|s| - 1] == t then 1 else 0
  }

  /** How many workers hold a task that they have not started. */
  ghost function InHand(ws: seq<Worker>, t: nat): nat {
    if ws == [] then 0 else InHand(ws[..|ws| - 1], t) + Hand(ws[|ws| - 1], t)
  }

  ghost function Hand(w: Worker, t: nat): nat {
    if (w.Holding? || w.Starting?) && w.task == t then 1 else 0
  }

  /** How many workers run a task. */
  ghost function InRun(ws: seq<Worker>, t: nat): nat {
    if ws == [] then 0 else InRun(ws[..|ws| - 1], t) + Runs(ws[|ws| - 1], t)
  }

  ghost function Runs(w: Worker, t: nat): nat {
    if w.Running? && w.task == t then 1 else 0
  }

  /** The queue holds the pushed tasks that were not popped, in push order. */
  ghost predicate Queued(s: Pool) {
    s.popped + |s.tasks| == s.pushed && forall i :: 0 <= i < |s.tasks| ==> s.tasks[i] == s.popped + i
  }

  /** A popped task is in one worker's hands or was started, once; a started one runs or has finished. */
  ghost predicate TalliedFor(s: Pool, t: nat) {
    Occurs(s.started, t) + InHand(s.workers, t) == (if t < s.popped then 1 else 0) &&
    Occurs(s.finished, t) + InRun(s.workers, t) == Occurs(s.started, t)
  }

  ghost predicate Tallied(s: Pool) {
    forall t: nat :: TalliedFor(s, t)
  }

  lemma {:induction false} HandsUpdate(ws: seq<Worker>, i: nat, w: Worker, t: nat)
    requires i < |ws|
    ensures InHand(ws[i := w], t) + Hand(ws[i], t) == InHand(ws, t) + Hand(w, t)
    ensures InRun(ws[i := w], t) + Runs(ws[i], t) == InRun(ws, t) + Runs(w, t)
  {
    var n := |ws| - 1;
    if i == n {
      assert ws[i := w][..n] == ws[..n];
    } else {
      HandsUpdate(ws[..n], i, w, t);
      assert ws[i := w][..n] == ws[..n][i := w];
    }
  }

  lemma {:induction false} HandsSame(ws: seq<Worker>, vs: seq<Worker>, t: nat)
    requires |ws| == |vs|
    requires forall i :: 0 <= i < |ws| ==> ws[i] == vs[i] || (ws[i].Sleeping? && vs[i].Woken?)
    ensures InHand(ws, t) == InHand(vs, t) && InRun(ws, t) == InRun(vs, t)
  {
    if ws != [] {
      var n := |ws| - 1;
      HandsSame(ws[..n], vs[..n], t);
    }
  }

  // ---------- Wakeups ----------

  predicate Active(w: Worker) {
    !w.Sleeping? && !w.Exited?
  }

  /** Nobody sleeps through work, or through the end. */
  ghost predicate NoLostWakeup(s: Pool) {
    (s.tasks != [] && |s.workers| > 0 ==>
       (exists i :: 0 <= i < |s.workers| && Active(s.workers[i])) ||
       (exists i :: 0 <= i < |s.callers| && s.callers[i].Owing?)) &&
    (s.stop && (exists i :: 0 <= i < |s.workers| && s.workers[i].Sleeping?) ==> s.destructor.OwesAll?) &&
    ((exists i :: 0 <= i < |s.workers| && s.workers[i].Exited?) ==> s.stop && s.tasks == [])
  }

  /** The stop flag is set by the destructor, and joined workers have exited. */
  ghost predicate Ending(s: Pool) {
    (s.stop <==> s.destructor.OwesAll? || s.destructor.Joining? || s.destructor.Joined?) &&
    (forall i :: 0 <= i < |s.workers| && s.workers[i].Decide? ==> s.stop || s.tasks != []) &&
    (s.destructor.Joining? ==> s.destructor.k <= |s.workers|) &&
    (s.destructor.Joining? ==> forall i :: 0 <= i < s.destructor.k && i < |s.workers| ==> s.workers[i].Exited?) &&
    (s.destructor.Joined? ==> forall i :: 0 <= i < |s.workers| ==> s.workers[i].Exited?)
  }

  ghost predicate Inv(s: Pool) {
    Exclusive(s) && Queued(s) && Tallied(s) && NoLostWakeup(s) && Ending(s)
  }

  lemma InitInv(s: Pool)
    requires Init(s)
    ensures Inv(s)
  {
    forall t: nat ensures TalliedFor(s, t) {
      HandsNone(s.workers, t);
    }
  }

  lemma {:induction false} HandsNone(ws: seq<Worker>, t: nat)
    requires forall i :: 0 <= i < |ws| ==> Hand(ws[i], t) == 0 && Runs(ws[i], t) == 0
    ensures InHand(ws, t) == 0 && InRun(ws, t) == 0
  {
    if ws != [] {
      HandsNone(ws[..|ws| - 1], t);
    }
  }

  // ---------- Every step keeps it ----------

  lemma WorkerExclusive(s: Pool, i: nat)
    requires Exclusive(s) && i < |s.workers|
    ensures Exclusive(StepWorker(s, i))
  {
  }

  lemma WorkerQueued(s: Pool, i: nat)
    requires Queued(s) && i < |s.workers|
    ensures Queued(StepWorker(s, i))
  {
  }

  lemma WorkerTallied(s: Pool, i: nat, t: nat)
    requires Queued(s) && TalliedFor(s, t) && i < |s.workers|
    ensures TalliedFor(StepWorker(s, i), t)
  {
    match s.workers[i]
    case Decide => DecideTallied(s, i, t);
    case Starting(task) => StartTallied(s, i, t);
    case Running(task) => FinishTallied(s, i, t);
    case WantLock => PassTallied(s, i, Check, t);
    case Woken => PassTallied(s, i, Check, t);
    case Check =>
      PassTallied(s, i, Decide, t);
      PassTallied(s, i, Sleeping, t);
    case Holding(task) => PassTallied(s, i, Starting(task), t);
    case Sleeping =>
    case Exited =>
  }

  lemma PassTallied(s: Pool, i: nat, w: Worker, t: nat)
    requires TalliedFor(s, t) && i < |s.workers|
    requires Hand(w, t) == Hand(s.workers[i], t) && Runs(w, t) == Runs(s.workers[i], t)
    ensures forall l: Lock {:trigger TalliedFor(SetWorker(s, i, w).(lock := l), t)} ::
      TalliedFor(SetWorker(s, i, w).(lock := l), t)
    ensures TalliedFor(SetWorker(s, i, w), t)
  {
    HandsUpdate(s.workers, i, w, t);
  }

  lemma DecideTallied(s: Pool, i: nat, t: nat)
    requires Queued(s) && TalliedFor(s, t) && i < |s.workers| && s.workers[i].Decide?
    ensures TalliedFor(StepWorker(s, i), t)
  {
    HandsUpdate(s.workers, i, Exited, t);
    if s.tasks != [] {
      assert s.tasks[0] == s.popped;
      HandsUpdate(s.workers, i, Holding(s.popped), t);
    }
  }

  lemma StartTallied(s: Pool, i: nat, t: nat)
    requires TalliedFor(s, t) && i < |s.workers| && s.workers[i].Starting?
    ensures TalliedFor(StepWorker(s, i), t)
  {
    HandsUpdate(s.workers, i, Running(s.workers[i].task), t);
    OccursSnoc(s.started, t, s.workers[i].task);
  }

  lemma FinishTallied(s: Pool, i: nat, t: nat)
    requires TalliedFor(s, t) && i < |s.workers| && s.workers[i].Running?
    ensures TalliedFor(StepWorker(s, i), t)
  {
    HandsUpdate(s.workers, i, WantLock, t);
    OccursSnoc(s.finished, t, s.workers[i].task);
  }

  lemma OccursSnoc(s: seq<nat>, t: nat, x: nat)
    ensures Occurs(s + [x], t) == Occurs(s, t) + if x == t then 1 else 0
  {
    assert (s + [x])[..|s|] == s;
  }

  lemma WorkerWakeup(s: Pool, i: nat)
    requires NoLostWakeup(s) && i < |s.workers|
    ensures NoLostWakeup(StepWorker(s, i))
  {
    hide StepWorker;
    WorkerChange(s, i);
    var s' := StepWorker(s, i);
    if s'.workers[i] == s.workers[i] {
      assert s'.workers == s.workers;
    } else if s'.tasks != [] {
      assert Active(s'.workers[i]);
    }
  }

  /** What one step of a worker can do to it, and to the queue. */
  lemma WorkerChange(s: Pool, i: nat)
    requires i < |s.workers|
    ensures var s' := StepWorker(s, i);
            |s'.workers| == |s.workers| && s'.workers == s.workers[i := s'.workers[i]] &&
            s'.callers == s.callers && s'.stop == s.stop && s'.destructor == s.destructor &&
            (s.tasks == [] ==> s'.tasks == []) &&
            (s'.workers[i] == s.workers[i] ==> s'.tasks == s.tasks) &&
            (s'.workers[i].Sleeping? && !s.workers[i].Sleeping? ==> s'.tasks == [] && !s.stop) &&
            (s'.workers[i].Exited? && !s.workers[i].Exited? ==> s'.tasks == [] && s.stop)
  {
  }

  lemma WorkerEnding(s: Pool, i: nat)
    requires Exclusive(s) && Ending(s) && i < |s.workers|
    ensures Ending(StepWorker(s, i))
  {
  }

  lemma WakeUpTallied(s: Pool, i: nat, t: nat)
    requires TalliedFor(s, t) && i < |s.workers| && s.workers[i].Sleeping?
    ensures TalliedFor(SetWorker(s, i, Woken), t)
  {
    HandsUpdate(s.workers, i, Woken, t);
  }

  lemma WakeUpKeeps(s: Pool, i: nat)
    requires Exclusive(s) && Queued(s) && NoLostWakeup(s) && Ending(s) && i < |s.workers| && s.workers[i].Sleeping?
    ensures var s' := SetWorker(s, i, Woken); Exclusive(s') && Queued(s') && NoLostWakeup(s') && Ending(s')
  {
    assert Active(SetWorker(s, i, Woken).workers[i]);
  }

  lemma CallerExclusive(s: Pool, i: nat, choice: nat)
    requires Exclusive(s) && i < |s.callers|
    ensures Exclusive(StepCaller(s, i, choice))
  {
  }

  lemma CallerTallied(s: Pool, i: nat, choice: nat, t: nat)
    requires TalliedFor(s, t) && i < |s.callers|
    ensures TalliedFor(StepCaller(s, i, choice), t)
  {
    if s.callers[i].Owing? {
      NotifyWakes(s.workers, choice);
      HandsSame(s.workers, NotifyOne(s.workers, choice), t);
    }
  }

  lemma CallerQueued(s: Pool, i: nat, choice: nat)
    requires Queued(s) && i < |s.callers|
    ensures Queued(StepCaller(s, i, choice))
  {
  }

  lemma CallerWakeup(s: Pool, i: nat, choice: nat)
    requires Exclusive(s) && NoLostWakeup(s) && i < |s.callers|
    ensures NoLostWakeup(StepCaller(s, i, choice))
  {
    var s' := StepCaller(s, i, choice);
    assert forall k :: 0 <= k < |s.callers| && k != i ==> s'.callers[k] == s.callers[k];
    match s.callers[i]
    case Owing => NotifyWakes(s.workers, choice);
    case Inside => assert !s.stop ==> s'.callers[i].Owing?;
    case _ =>
  }

  /** After a notification some worker is awake, unless all have exited; nobody falls asleep or exits by it. */
  lemma NotifyWakes(ws: seq<Worker>, choice: nat)
    ensures var ws' := NotifyOne(ws, choice);
            |ws'| == |ws| &&
            (forall k :: 0 <= k < |ws| ==> ws'[k] == ws[k] || (ws[k].Sleeping? && ws'[k].Woken?)) &&
            (|ws| > 0 ==>
              (exists k :: 0 <= k < |ws| && Active(ws'[k])) || (forall k :: 0 <= k < |ws| ==> ws[k].Exited?))
  {
    var i := if choice < |ws| && ws[choice].Sleeping? then choice else FirstSleeper(ws, 0);
    if i < |ws| {
      assert Active(NotifyOne(ws, choice)[i]);
    } else if k :| 0 <= k < |ws| && !ws[k].Exited? {
      assert Active(ws[k]);
    }
  }

  lemma CallerEnding(s: Pool, i: nat, choice: nat)
    requires Exclusive(s) && Ending(s) && i < |s.callers|
    ensures Ending(StepCaller(s, i, choice))
  {
    if s.callers[i].Owing? {
      NotifyWakes(s.workers, choice);
    }
  }

  lemma DestructorTallied(s: Pool, t: nat)
    requires TalliedFor(s, t)
    ensures TalliedFor(StepDestructor(s), t)
  {
    hide InHand, InRun, Occurs;
    if s.destructor.OwesAll? {
      HandsSame(s.workers, NotifyAll(s.workers), t);
    }
  }

  lemma DestructorKeeps(s: Pool)
    requires Exclusive(s) && Queued(s) && NoLostWakeup(s) && Ending(s)
    ensures var s' := StepDestructor(s); Exclusive(s') && Queued(s') && NoLostWakeup(s') && Ending(s')
  {
    var s' := StepDestructor(s);
    if k :| 0 <= k < |s.workers| && Active(s.workers[k]) {
      assert Active(s'.workers[k]);
    }
  }

  lemma StepTallied(s: Pool, a: Action, t: nat)
    requires Queued(s) && TalliedFor(s, t)
    ensures TalliedFor(Next(s, a), t)
  {
    match a
    case WorkerStep(i) => if i < |s.workers| { WorkerTallied(s, i, t); }
    case WakeUp(i) => if i < |s.workers| && s.workers[i].Sleeping? { WakeUpTallied(s, i, t); }
    case Call(i) =>
    case CallerStep(i, choice) => if i < |s.callers| { CallerTallied(s, i, choice, t); }
    case Destroy =>
    case DestroyStep => DestructorTallied(s, t);
  }

  lemma StepKeeps(s: Pool, a: Action)
    requires Exclusive(s) && Queued(s) && NoLostWakeup(s) && Ending(s)
    ensures var s' := Next(s, a); Exclusive(s') && Queued(s') && NoLostWakeup(s') && Ending(s')
  {
    hide Exclusive, Queued, NoLostWakeup, Ending, StepWorker, StepCaller, StepDestructor;
    match a
    case WorkerStep(i) =>
      if i < |s.workers| {
        WorkerExclusive(s, i);
        WorkerQueued(s, i);
        WorkerWakeup(s, i);
        WorkerEnding(s, i);
      }
    case WakeUp(i) => if i < |s.workers| && s.workers[i].Sleeping? { WakeUpKeeps(s, i); }
    case Call(i) => CallKeeps(s, i);
    case CallerStep(i, choice) =>
      if i < |s.callers| {
        CallerExclusive(s, i, choice);
        CallerQueued(s, i, choice);
        CallerWakeup(s, i, choice);
        CallerEnding(s, i, choice);
      }
    case Destroy => DestroyKeeps(s);
    case DestroyStep => DestructorKeeps(s);
  }

  lemma DestroyKeeps(s: Pool)
    requires Exclusive(s) && Queued(s) && NoLostWakeup(s) && Ending(s)
    ensures var s' := Next(s, Destroy); Exclusive(s') && Queued(s') && NoLostWakeup(s') && Ending(s')
  {
  }

  lemma CallKeeps(s: Pool, i: nat)
    requires Exclusive(s) && Queued(s) && NoLostWakeup(s) && Ending(s)
    ensures var s' := Next(s, Call(i)); Exclusive(s') && Queued(s') && NoLostWakeup(s') && Ending(s')
  {
    var s' := Next(s, Call(i));
    if k :| 0 <= k < |s.callers| && s.callers[k].Owing? {
      assert s'.callers[k].Owing?;
    }
  }

  lemma StepInv(s: Pool, a: Action)
    requires Inv(s)
    ensures Inv(Next(s, a))
  {
    StepKeeps(s, a);
    forall t: nat ensures TalliedFor(Next(s, a), t) {
      assert TalliedFor(s, t);
      StepTallied(s, a, t);
    }
  }

  lemma {:induction false} RunInv(s: Pool, acts: seq<Action>)
    requires Inv(s)
    ensures Inv(Run(s, acts))
    decreases |acts|
  {
    if acts != [] {
      StepInv(s, acts[0]);
      RunInv(Next(s, acts[0]), acts[1..]);
    }
  }

  // ---------- What follows for every run ----------

  /** Any number of workers and callers, any schedule. */
  lemma AlwaysInv(s: Pool, acts: seq<Action>)
    requires Init(s)
    ensures Inv(Run(s, acts))
  {
    InitInv(s);
    RunInv(s, acts);
  }

  /** Tasks leave the queue in push order and none is started twice. */
  lemma StartedOnce(s: Pool, acts: seq<Action>, t: nat)
    requires Init(s)
    ensures var s' := Run(s, acts);
            Occurs(s'.started, t) <= 1 && Occurs(s'.finished, t) <= Occurs(s'.started, t) &&
            (Occurs(s'.started, t) == 1 ==> t < s'.popped <= s'.pushed) &&
            s'.popped + |s'.tasks| == s'.pushed &&
            forall i :: 0 <= i < |s'.tasks| ==> s'.tasks[i] == s'.popped + i
  {
    AlwaysInv(s, acts);
    assert TalliedFor(Run(s, acts), t);
  }

  /**
   In every reachable state: if there is work and every worker sleeps, a caller still owes
   its notification; if the pool stops and a worker sleeps, the general one is still to come.
   */
  lemma SleepersAreOwed(s: Pool, acts: seq<Action>)
    requires Init(s) && |s.workers| > 0
    ensures var s' := Run(s, acts);
            s'.tasks != [] && (forall i :: 0 <= i < |s'.workers| ==> s'.workers[i].Sleeping?) ==>
              exists i :: 0 <= i < |s'.callers| && s'.callers[i].Owing?
    ensures var s' := Run(s, acts);
            s'.stop && (exists i :: 0 <= i < |s'.workers| && s'.workers[i].Sleeping?) ==> s'.destructor.OwesAll?
  {
    AlwaysInv(s, acts);
    RunSize(s, acts);
  }

  /** When the joins are done every accepted task has run, exactly once, and the queue is empty. */
  lemma JoinedMeansDone(s: Pool, acts: seq<Action>, t: nat)
    requires Init(s) && |s.workers| > 0 && Run(s, acts).destructor.Joined?
    ensures var s' := Run(s, acts);
            s'.tasks == [] && s'.popped == s'.pushed && Occurs(s'.finished, t) == if t < s'.pushed then 1 else 0
  {
    AlwaysInv(s, acts);
    RunSize(s, acts);
    var s' := Run(s, acts);
    assert s'.workers[0].Exited?;
    assert TalliedFor(s', t);
    HandsNone(s'.workers, t);
  }

  lemma {:induction false} RunSize(s: Pool, acts: seq<Action>)
    ensures |Run(s, acts).workers| == |s.workers| && |Run(s, acts).callers| == |s.callers|
    decreases |acts|
  {
    if acts != [] {
      NextSize(s, acts[0]);
      hide Next;
      RunSize(Next(s, acts[0]), acts[1..]);
    }
  }

  lemma NextSize(s: Pool, a: Action)
    ensures |Next(s, a).workers| == |s.workers| && |Next(s, a).callers| == |s.callers|
  {
  }

  /** The end cannot get stuck: while the destructor joins, some worker that has not exited can move. */
  lemma NoDeadlock(s: Pool)
    requires Inv(s) && s.destructor.Joining? && (forall i :: 0 <= i < |s.callers| ==> !s.callers[i].Inside?)
    requires exists i :: 0 <= i < |s.workers| && !s.workers[i].Exited?
    ensures exists i :: 0 <= i < |s.workers| && StepWorker(s, i) != s
  {
    var i :| 0 <= i < |s.workers| && !s.workers[i].Exited?;
    var j := if s.lock.HeldBy? && s.lock.t.W? then s.lock.t.i else i;
    assert s.workers[j] != StepWorker(s, j).workers[j];
  }

  // ---------- The order of starting ----------

  /** Tasks start in the order in which they were pushed. */
  ghost predicate StartsInOrder(s: Pool) {
    forall k :: 0 <= k < |s.started| ==> s.started[k] == k
  }

  /** A lone worker starts what it popped before it pops again. */
  ghost predicate LoneWorker(s: Pool) {
    |s.workers| <= 1 && Queued(s) && StartsInOrder(s) &&
    if |s.workers| == 1 && (s.workers[0].Holding? || s.workers[0].Starting?)
    then s.popped == |s.started| + 1 && s.workers[0].task == |s.started|
    else s.popped == |s.started|
  }

  lemma LoneStep(s: Pool, a: Action)
    requires LoneWorker(s)
    ensures LoneWorker(Next(s, a))
  {
    hide StepWorker, StepCaller, StepDestructor;
    match a
    case WorkerStep(i) => if i < |s.workers| { LoneWorkerStep(s); }
    case WakeUp(i) =>
    case Call(i) =>
    case CallerStep(i, choice) => if i < |s.callers| { LoneCallerStep(s, i, choice); }
    case Destroy =>
    case DestroyStep => LoneDestructorStep(s);
  }

  lemma LoneCallerStep(s: Pool, i: nat, choice: nat)
    requires LoneWorker(s) && i < |s.callers|
    ensures LoneWorker(StepCaller(s, i, choice))
  {
    CallerQueued(s, i, choice);
    hide Queued;
    NotifyWakes(s.workers, choice);
  }

  lemma LoneDestructorStep(s: Pool)
    requires LoneWorker(s)
    ensures LoneWorker(StepDestructor(s))
  {
  }

  lemma LoneWorkerStep(s: Pool)
    requires LoneWorker(s) && |s.workers| == 1
    ensures LoneWorker(StepWorker(s, 0))
  {
    WorkerQueued(s, 0);
  }

  lemma {:induction false} LoneRun(s: Pool, acts: seq<Action>)
    requires LoneWorker(s)
    ensures LoneWorker(Run(s, acts))
    decreases |acts|
  {
    if acts != [] {
      LoneStep(s, acts[0]);
      LoneRun(Next(s, acts[0]), acts[1..]);
    }
  }

  lemma {:induction false} RunSnoc(s: Pool, acts: seq<Action>, a: Action)
    ensures Run(s, acts + [a]) == Next(Run(s, acts), a)
    decreases |acts|
  {
    if acts == [] {
      assert acts + [a] == [a] && [a][1..] == [];
    } else {
      assert (acts + [a])[1..] == acts[1..] + [a];
      RunSnoc(Next(s, acts[0]), acts[1..], a);
    }
  }

  /** A caller pushes a task and gives its notification. */
  lemma PushOne(s: Pool, acts: seq<Action>) returns (acts': seq<Action>)
    requires var t := Run(s, acts);
             |t.callers| > 0 && t.callers[0].Away? && t.lock.Free? && !t.stop &&
             forall i :: 0 <= i < |t.workers| ==> t.workers[i].WantLock?
    ensures var t, t' := Run(s, acts), Run(s, acts');
            t' == t.(tasks := t.tasks + [t.pushed], pushed := t.pushed + 1)
  {
    var t := Run(s, acts);
    RunSnoc(s, acts, Call(0));
    var a1 := acts + [Call(0)];
    RunSnoc(s, a1, CallerStep(0, 0));
    var a2 := a1 + [CallerStep(0, 0)];
    RunSnoc(s, a2, CallerStep(0, 0));
    var a3 := a2 + [CallerStep(0, 0)];
    RunSnoc(s, a3, CallerStep(0, 0));
    acts' := a3 + [CallerStep(0, 0)];
    assert Run(s, a3).callers[0].Owing? && Run(s, a3).workers == t.workers;
    assert Run(s, acts').callers == t.callers;
  }

  /** A worker pops the first task and releases the mutex. */
  lemma TakeFirst(s: Pool, acts: seq<Action>, i: nat) returns (acts': seq<Action>)
    requires var t := Run(s, acts); i < |t.workers| && t.workers[i].WantLock? && t.lock.Free? && t.tasks != []
    ensures var t, t' := Run(s, acts), Run(s, acts');
            t' == SetWorker(t, i, Starting(t.tasks[0])).(tasks := t.tasks[1..], popped := t.popped + 1)
  {
    RunSnoc(s, acts, WorkerStep(i));
    var a1 := acts + [WorkerStep(i)];
    RunSnoc(s, a1, WorkerStep(i));
    var a2 := a1 + [WorkerStep(i)];
    RunSnoc(s, a2, WorkerStep(i));
    var a3 := a2 + [WorkerStep(i)];
    RunSnoc(s, a3, WorkerStep(i));
    acts' := a3 + [WorkerStep(i)];
    var t := Run(s, acts);
    assert Run(s, acts').workers == t.workers[i := Starting(t.tasks[0])];
  }

  /** Two workers can overtake each other between popping and starting. */
  lemma Overtaking(s: Pool) returns (acts: seq<Action>)
    requires Init(s) && |s.workers| >= 2 && |s.callers| >= 1
    ensures Run(s, acts).started == [1]
  {
    var a0: seq<Action> := [];
    var a1 := PushOne(s, a0);
    var a2 := PushOne(s, a1);
    var a3 := TakeFirst(s, a2, 0);
    var a4 := TakeFirst(s, a3, 1);
    RunSnoc(s, a4, WorkerStep(1));
    acts := a4 + [WorkerStep(1)];
  }

  /** Tasks start in push order in every run exactly if there is at most one worker. */
  lemma StartOrder(s: Pool)
    requires Init(s) && |s.callers| >= 1
    ensures (forall acts :: StartsInOrder(Run(s, acts))) <==> |s.workers| <= 1
  {
    if |s.workers| <= 1 {
      forall acts ensures StartsInOrder(Run(s, acts)) {
        LoneRun(s, acts);
      }
    } else {
      var acts := Overtaking(s);
      assert Run(s, acts).started[0] == 1;
      assert !StartsInOrder(Run(s, acts));
    }
  }
}
