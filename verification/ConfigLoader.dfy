/**
 The two-pass configuration loader.

 The loader is driven by events: polls of the connection, messages it sent to its own
 thread, and the end of subsystem initialisation.  The first pass sends the requests that
 are allowed in the STARTUP state, the second those that are allowed only in the RUNTIME
 state.  What SPDK does is an event's business: whether a connection or a response is
 there, whether a request can be created and sent, how initialisation ends.
 */
module ConfigLoader {
  import opened Common

  /** A "config" entry: undecodable, of an unregistered method, or with the method's state mask. */
  datatype Entry = Undecodable | Unregistered | Method(startup: bool, runtime: bool)

  datatype Subsystem = BadSubsystem | Subsystem(entries: seq<Entry>)

  /** A place in the file: subsystem and entry. */
  datatype Pos = Pos(sub: nat, entry: nat)

  datatype Poller = Connecting | Serving | Off

  datatype Message = LoadSubsystemMsg | LoadEntryMsg

  /** How the creation, the encoding and the sending of a request end. */
  datatype Sending = Sends | CreateFails(errno: int) | BeginFails | SendFails(rc: int)

  datatype Event =
    | ConnectPoll(connected: bool, expired: bool, send: Sending)
    | NoResponse
    | Response(isError: bool, send: Sending)
    | PollFails(rc: int)
    | RunMessage(send: Sending)
    | InitDone(rc: int, send: Sending)

  const EINVAL := 22
  const ENOENT := 2
  const ENOMEM := 12
  const ETIMEDOUT := 110

  // ---------- What should be sent ----------

  ghost predicate GoodEntry(e: Entry) {
    e.Method?
  }

  ghost predicate GoodSubsystem(s: Subsystem) {
    s.Subsystem? && forall j :: 0 <= j < |s.entries| ==> GoodEntry(s.entries[j])
  }

  ghost predicate AllGood(subs: seq<Subsystem>) {
    forall i :: 0 <= i < |subs| ==> GoodSubsystem(subs[i])
  }

  /** Sent in the first pass if allowed at startup, in the second if allowed only at run time. */
  predicate Due(e: Entry, runtime: bool) {
    e.Method? && if runtime then e.runtime && !e.startup else e.startup
  }

  /** All entries, in file order. */
  ghost function Listing(subs: seq<Subsystem>, i: nat): seq<Pos>
    decreases |subs| - i
  {
    if i >= |subs| then []
    else if subs[i].Subsystem? then Entries(i, subs[i].entries, 0) + Listing(subs, i + 1)
    else Listing(subs, i + 1)
  }

  ghost function Entries(i: nat, es: seq<Entry>, j: nat): seq<Pos>
    decreases |es| - j
  {
    if j >= |es| then [] else [Pos(i, j)] + Entries(i, es, j + 1)
  }

  ghost predicate IsEntry(subs: seq<Subsystem>, p: Pos) {
    p.sub < |subs| && subs[p.sub].Subsystem? && p.entry < |subs[p.sub].entries|
  }

  ghost predicate DueAt(subs: seq<Subsystem>, p: Pos, runtime: bool) {
    IsEntry(subs, p) && Due(subs[p.sub].entries[p.entry], runtime)
  }

  ghost function Select(subs: seq<Subsystem>, ps: seq<Pos>, runtime: bool): seq<Pos> {
    if ps == [] then []
    else if DueAt(subs, ps[0], runtime) then [ps[0]] + Select(subs, ps[1..], runtime)
    else Select(subs, ps[1..], runtime)
  }

  /** The requests of a load without faults: first pass, then second pass, each in file order. */
  ghost function Wanted(subs: seq<Subsystem>): seq<Pos> {
    Select(subs, Listing(subs, 0), false) + Select(subs, Listing(subs, 0), true)
  }

  // ---------- What the walk still sends ----------

  ghost function RestSubs(subs: seq<Subsystem>, runtime: bool, i: nat): seq<Pos>
    decreases !runtime, |subs| - i, 0
  {
    if i >= |subs| then (if runtime then [] else RestSubs(subs, true, 0))
    else if subs[i].BadSubsystem? then []
    else Rest(subs, runtime, i, subs[i].entries, 0)
  }

  ghost function Rest(subs: seq<Subsystem>, runtime: bool, i: nat, es: seq<Entry>, j: nat): seq<Pos>
    requires i < |subs|
    decreases !runtime, |subs| - i - 1, 1, |es| - j
  {
    if j >= |es| then RestSubs(subs, runtime, i + 1)
    else if !GoodEntry(es[j]) then []
    else if Due(es[j], runtime) then [Pos(i, j)] + Rest(subs, runtime, i, es, j + 1)
    else Rest(subs, runtime, i, es, j + 1)
  }

  // ---------- How long the walk still takes ----------

  ghost function Work(subs: seq<Subsystem>, i: nat): nat
    decreases |subs| - i
  {
    if i >= |subs| then 0
    else 3 + (if subs[i].Subsystem? then 2 * |subs[i].entries| else 0) + Work(subs, i + 1)
  }

  ghost function PassWork(subs: seq<Subsystem>, runtime: bool): nat {
    if runtime then 0 else Work(subs, 0) + 2
  }

  // ---------- The loader ----------

  class Loader {
    const subsystems: seq<Subsystem>
    const stopOnError: bool
    var subsystemsIt: nat
    var config: seq<Entry>
    var configIt: nat
    var runtime: bool
    var awaitsResponse: bool
    var poller: Poller
    var mailbox: seq<Message>
    var initRunning: bool
    var outstanding: nat
    var sent: seq<Pos>
    var results: seq<int>
    ghost var faulted: bool
    ghost var early: bool
    ghost var reported: seq<int>

    /** The callback ran for what the walk reported, and before that for a poll that failed with nothing outstanding. */
    ghost predicate Told()
      reads this
    {
      if early then faulted && results != [] && results[0] < 0 && results[1..] == reported else results == reported
    }

    /** The poller waits for responses; it is gone once a poll has failed with nothing outstanding. */
    ghost predicate Polling()
      reads this
    {
      if early then poller.Off? else poller.Serving?
    }

    /** Nothing is under way. */
    ghost predicate Quiet()
      reads this
    {
      mailbox == [] && !initRunning && outstanding == 0 && !awaitsResponse && reported == []
    }

    ghost predicate InSubsystem()
      reads this
    {
      subsystemsIt < |subsystems| && subsystems[subsystemsIt] == Subsystem(config) && configIt <= |config|
    }

    /** Everything that the walk has passed in this pass was in order. */
    ghost predicate PassedGood()
      reads this
    {
      (runtime ==> AllGood(subsystems)) &&
      (forall i :: 0 <= i < subsystemsIt && i < |subsystems| ==> GoodSubsystem(subsystems[i]))
    }

    ghost predicate PassedEntries()
      reads this
    {
      forall j :: 0 <= j < configIt && j < |config| ==> GoodEntry(config[j])
    }

    /** The requests still to come, from where the walk stands. */
    ghost function Todo(): seq<Pos>
      reads this
    {
      if poller.Connecting? || mailbox == [LoadSubsystemMsg] then RestSubs(subsystems, runtime, subsystemsIt)
      else if initRunning then RestSubs(subsystems, true, 0)
      else if subsystemsIt >= |subsystems| then []
      else Rest(subsystems, runtime, subsystemsIt, config, if outstanding > 0 then configIt + 1 else configIt)
    }

    /** A bound on the number of events still to be handled. */
    ghost function Left(): nat
      reads this
    {
      if reported != [] then 0
      else if poller.Connecting? then PassWork(subsystems, runtime) + Work(subsystems, subsystemsIt) + 2
      else if mailbox == [LoadSubsystemMsg] then PassWork(subsystems, runtime) + Work(subsystems, subsystemsIt) + 1
      else if initRunning then PassWork(subsystems, runtime)
      else if configIt > |config| then 0
      else PassWork(subsystems, runtime) + Work(subsystems, subsystemsIt + 1) + 2 * (|config| - configIt)
           + if outstanding > 0 then 1 else 2
    }

    /**
     Until the load is complete exactly one thing is under way: the connection, one message,
     one request or the initialisation.  Once it is complete nothing is, so no event reaches
     the loader any more.
     */
    ghost predicate Valid()
      reads this
    {
      && |reported| <= 1 && outstanding <= 1
      && Told()
      && (reported == [] ==>
            && PassedGood()
            && sent + Todo() == RestSubs(subsystems, false, 0)
            && (poller.Connecting? ==>
                  mailbox == [] && !initRunning && outstanding == 0 && !runtime && subsystemsIt == 0 && !early)
            && (!poller.Connecting? ==>
                  && Polling()
                  && (|| (|mailbox| == 1 && !initRunning && outstanding == 0)
                      || (mailbox == [] && initRunning && outstanding == 0)
                      || (mailbox == [] && !initRunning && outstanding == 1)))
            && (initRunning ==> !runtime && AllGood(subsystems))
            && (mailbox == [LoadEntryMsg] ==> InSubsystem() && PassedEntries())
            && (outstanding == 1 ==>
                  InSubsystem() && PassedEntries() && configIt < |config| && GoodEntry(config[configIt]))
            && (outstanding == 1 <==> awaitsResponse))
      && (reported != [] ==>
            && poller.Off? && mailbox == [] && !initRunning
            && sent <= RestSubs(subsystems, false, 0)
            && (reported[0] == 0 ==> AllGood(subsystems) && sent == RestSubs(subsystems, false, 0) && outstanding == 0)
            && (reported[0] != 0 ==> faulted || !AllGood(subsystems)))
    }

    /** A file that cannot be read, or a connection that cannot be ready, ends the load at once. */
    constructor (subs: seq<Subsystem>, stop: bool, ready: bool)
      ensures Valid() && subsystems == subs && stopOnError == stop && faulted == !ready && !early
      ensures results == if ready then [] else [-EINVAL]
      ensures Left() <= 2 * Work(subs, 0) + 4 && sent == [] && outstanding == 0 && (ready ==> poller.Connecting?)
    {
      subsystems, stopOnError := subs, stop;
      subsystemsIt, config, configIt, runtime := 0, [], 0, false;
      awaitsResponse, mailbox, initRunning, outstanding := false, [], false, 0;
      sent, faulted, early := [], !ready, false;
      poller := if ready then Connecting else Off;
      results := if ready then [] else [-EINVAL];
      reported := if ready then [] else [-EINVAL];
    }

    method LoadDone(rc: int)
      requires reported == [] && Told() && mailbox == [] && !initRunning && outstanding <= 1
      requires sent <= RestSubs(subsystems, false, 0)
      requires rc == 0 ==> AllGood(subsystems) && sent == RestSubs(subsystems, false, 0) && outstanding == 0
      requires rc != 0 ==> faulted || !AllGood(subsystems)
      modifies this`poller, this`results, this`reported
      ensures Valid() && results == old(results) + [rc] && reported == [rc] && Left() == 0 && poller.Off?
    {
      poller := Off;
      results := results + [rc];
      reported := reported + [rc];
    }

    /** Handles the entry that `configIt` points to, or goes to the next subsystem. */
    method LoadEntry(send: Sending)
      requires Quiet() && Polling() && Told() && InSubsystem() && PassedGood() && PassedEntries() && Possible(send)
      requires sent + Rest(subsystems, runtime, subsystemsIt, config, configIt) == RestSubs(subsystems, false, 0)
      modifies this`subsystemsIt, this`configIt, this`mailbox, this`awaitsResponse, this`outstanding,
               this`sent, this`poller, this`results, this`reported, this`faulted
      ensures Valid() && old(sent) <= sent && (faulted ==> old(faulted) || !send.Sends?)
      ensures old(results) <= results && (!send.Sends? ==> outstanding == old(outstanding) && sent == old(sent))
      ensures |sent| - outstanding == old(|sent| - outstanding)
      ensures old(configIt) == |config| ==>
        results == old(results) && sent == old(sent) && subsystemsIt == old(subsystemsIt) + 1
      ensures Left() < 2 + old(PassWork(subsystems, runtime) + Work(subsystems, subsystemsIt + 1)
                               + 2 * (|config| - configIt))
    {
      if configIt == |config| {
        NextEntry(subsystems, runtime, subsystemsIt, config, configIt);
        hide Rest, RestSubs, Work, AllGood;
        EndSubsystem();
        return;
      }
      hide Rest, RestSubs, Work, AllGood, GoodSubsystem;
      OneEntry(send);
    }

    /** A bad entry ends the load, one that is not due is skipped, and one that is due is sent. */
    method OneEntry(send: Sending)
      requires Quiet() && Polling() && Told() && InSubsystem() && PassedGood() && PassedEntries() && Possible(send)
      requires configIt < |config|
      requires sent + Rest(subsystems, runtime, subsystemsIt, config, configIt) == RestSubs(subsystems, false, 0)
      modifies this`configIt, this`mailbox, this`awaitsResponse, this`outstanding,
               this`sent, this`poller, this`results, this`reported, this`faulted
      ensures Valid() && old(sent) <= sent && (faulted ==> old(faulted) || !send.Sends?)
      ensures old(results) <= results && (!send.Sends? ==> outstanding == old(outstanding) && sent == old(sent))
      ensures |sent| - outstanding == old(|sent| - outstanding)
      ensures config[old(configIt)].Undecodable? ==> results == old(results) + [-EINVAL] && sent == old(sent)
      ensures config[old(configIt)].Unregistered? ==> results == old(results) + [-ENOENT] && sent == old(sent)
      ensures config[old(configIt)].Method? ==>
        var m := config[old(configIt)];
        if (if runtime then m.runtime && !m.startup else m.startup) then
          (send.CreateFails? ==> results == old(results) + [-send.errno]) &&
          (send.BeginFails? ==> results == old(results) + [-ENOMEM]) &&
          (send.SendFails? ==> results == old(results) + [-send.rc]) &&
          (send.Sends? ==> results == old(results) && sent == old(sent) + [Pos(subsystemsIt, old(configIt))])
        else results == old(results) && sent == old(sent) && configIt == old(configIt) + 1
      ensures Left() < 2 + old(PassWork(subsystems, runtime) + Work(subsystems, subsystemsIt + 1)
                               + 2 * (|config| - configIt))
    {
      NextEntry(subsystems, runtime, subsystemsIt, config, configIt);
      hide Rest, RestSubs, Work, AllGood, GoodSubsystem;
      match config[configIt] {
        case Undecodable => LoadDone(-EINVAL);
        case Unregistered => LoadDone(-ENOENT);
        case Method(startup, runtimeToo) =>
          var allowed := if runtime then runtimeToo else startup;
          if !allowed || (startup && runtimeToo && runtime) {
            SkipEntry();
          } else {
            SendEntry(send);
          }
      }
    }

    method EndSubsystem()
      requires Quiet() && Polling() && Told() && InSubsystem() && PassedGood() && PassedEntries()
      requires configIt == |config| && !poller.Connecting?
      requires sent + RestSubs(subsystems, runtime, subsystemsIt + 1) == RestSubs(subsystems, false, 0)
      modifies this`subsystemsIt, this`mailbox
      ensures Valid() && Left() == old(PassWork(subsystems, runtime) + Work(subsystems, subsystemsIt + 1)) + 1
      ensures subsystemsIt == old(subsystemsIt) + 1
    {
      hide Rest, RestSubs, Work, AllGood;
      subsystemsIt := subsystemsIt + 1;
      mailbox := mailbox + [LoadSubsystemMsg];
    }

    method SkipEntry()
      requires Quiet() && Polling() && Told() && InSubsystem() && PassedGood() && PassedEntries()
      requires configIt < |config| && GoodEntry(config[configIt])
      requires sent + Rest(subsystems, runtime, subsystemsIt, config, configIt + 1) == RestSubs(subsystems, false, 0)
      modifies this`configIt, this`mailbox
      ensures Valid() && configIt == old(configIt) + 1
      ensures Left() < 2 + old(PassWork(subsystems, runtime) + Work(subsystems, subsystemsIt + 1)
                               + 2 * (|config| - configIt))
    {
      hide Rest, RestSubs, Work, AllGood, GoodSubsystem;
      configIt := configIt + 1;
      mailbox := mailbox + [LoadEntryMsg];
      assert mailbox[0] == LoadEntryMsg && mailbox == [LoadEntryMsg];
    }

    method SendEntry(send: Sending)
      requires Quiet() && Polling() && Told() && InSubsystem() && PassedGood() && PassedEntries() && Possible(send)
      requires configIt < |config| && Due(config[configIt], runtime)
      requires sent + Rest(subsystems, runtime, subsystemsIt, config, configIt) == RestSubs(subsystems, false, 0)
      modifies this`awaitsResponse, this`outstanding, this`sent, this`poller, this`results, this`reported, this`faulted
      ensures Valid() && old(sent) <= sent && (faulted ==> old(faulted) || !send.Sends?)
      ensures old(results) <= results && (!send.Sends? ==> outstanding == old(outstanding) && sent == old(sent))
      ensures send.CreateFails? ==> results == old(results) + [-send.errno] && sent == old(sent)
      ensures send.BeginFails? ==> results == old(results) + [-ENOMEM] && sent == old(sent)
      ensures send.SendFails? ==> results == old(results) + [-send.rc] && sent == old(sent)
      ensures send.Sends? ==>
        results == old(results) && sent == old(sent) + [Pos(subsystemsIt, configIt)] &&
        outstanding == old(outstanding) + 1
      ensures |sent| - outstanding == old(|sent| - outstanding)
      ensures Left() < 2 + old(PassWork(subsystems, runtime) + Work(subsystems, subsystemsIt + 1)
                               + 2 * (|config| - configIt))
    {
      SendsFirst(sent, subsystems, runtime, subsystemsIt, config, configIt);
      hide Rest, RestSubs, Work, AllGood, GoodSubsystem;
      match send
      case CreateFails(errno) =>
        faulted := true;
        LoadDone(-errno);
      case BeginFails =>
        faulted := true;
        LoadDone(-ENOMEM);
      case SendFails(rc) =>
        awaitsResponse := true;
        faulted := true;
        LoadDone(-rc);
      case Sends => RequestSent();
    }

    /** The request is on its way, and its handler waits for the response. */
    method RequestSent()
      requires Quiet() && Polling() && Told() && InSubsystem() && PassedGood() && PassedEntries()
      requires configIt < |config| && GoodEntry(config[configIt])
      requires sent + [Pos(subsystemsIt, configIt)] + Rest(subsystems, runtime, subsystemsIt, config, configIt + 1)
            == RestSubs(subsystems, false, 0)
      modifies this`awaitsResponse, this`outstanding, this`sent
      ensures Valid() && sent == old(sent) + [Pos(subsystemsIt, configIt)] && outstanding == 1 && awaitsResponse
      ensures Left() < 2 + old(PassWork(subsystems, runtime) + Work(subsystems, subsystemsIt + 1)
                               + 2 * (|config| - configIt))
    {
      hide Rest, RestSubs, Work, AllGood, GoodSubsystem, GoodEntry;
      awaitsResponse := true;
      outstanding := outstanding + 1;
      sent := sent + [Pos(subsystemsIt, configIt)];
    }

    /** Starts the subsystem that `subsystemsIt` points to, or ends the pass. */
    method LoadSubsystem(send: Sending)
      requires Quiet() && Polling() && Told() && PassedGood() && Possible(send)
      requires subsystemsIt >= |subsystems| ==> AllGood(subsystems)
      requires sent + RestSubs(subsystems, runtime, subsystemsIt) == RestSubs(subsystems, false, 0)
      modifies this`subsystemsIt, this`config, this`configIt, this`initRunning, this`mailbox, this`awaitsResponse,
               this`outstanding, this`sent, this`poller, this`results, this`reported, this`faulted
      ensures Valid() && old(sent) <= sent && (faulted ==> old(faulted) || !send.Sends?)
      ensures old(results) <= results && (!send.Sends? ==> outstanding == old(outstanding) && sent == old(sent))
      ensures |sent| - outstanding == old(|sent| - outstanding)
      ensures old(subsystemsIt) < |subsystems| && subsystems[old(subsystemsIt)].BadSubsystem? ==>
        results == old(results) + [-EINVAL] && sent == old(sent)
      ensures Left() < old(PassWork(subsystems, runtime) + Work(subsystems, subsystemsIt)) + 1
      ensures old(subsystemsIt) >= |subsystems| ==>
        if runtime then results == old(results) + [0] else initRunning && unchanged(this`results, this`poller)
    {
      if subsystemsIt >= |subsystems| {
        EndPass();
        return;
      }
      if subsystems[subsystemsIt].BadSubsystem? {
        LoadDone(-EINVAL);
        return;
      }
      config := subsystems[subsystemsIt].entries;
      configIt := 0;
      LoadEntry(send);
    }

    method EndPass()
      requires Quiet() && Polling() && Told() && PassedGood() && AllGood(subsystems) && subsystemsIt >= |subsystems|
      requires sent + RestSubs(subsystems, runtime, subsystemsIt) == RestSubs(subsystems, false, 0)
      modifies this`initRunning, this`poller, this`results, this`reported
      ensures Valid() && Left() < old(PassWork(subsystems, runtime) + Work(subsystems, subsystemsIt)) + 1
      ensures if runtime then results == old(results) + [0] else initRunning && unchanged(this`results, this`poller)
    {
      if !runtime {
        initRunning := true;
      } else {
        LoadDone(0);
      }
    }

    // ---------- The events ----------

    method OnConnectPoll(connected: bool, expired: bool, send: Sending)
      requires Valid() && poller.Connecting? && reported == [] && Possible(send)
      modifies this
      ensures Valid() && old(sent) <= sent && (faulted ==> old(faulted) || (!connected && expired) || !send.Sends?)
      ensures early == old(early) && old(results) <= results
      ensures connected && subsystems == [] ==> initRunning && results == old(results) && poller.Serving?
      ensures |sent| - outstanding == old(|sent| - outstanding)
      ensures !connected && expired ==> results == old(results) + [-ETIMEDOUT] && sent == old(sent) && reported != []
      ensures !connected && !expired ==> unchanged(this)
      ensures if connected || expired then Left() < old(Left()) else Left() == old(Left())
    {
      if connected {
        poller := Serving;
        LoadSubsystem(send);
      } else if expired {
        faulted := true;
        LoadDone(-ETIMEDOUT);
      }
    }

    /** The handler of a response is always there: the assertion in the source cannot fail. */
    method OnResponse(isError: bool, send: Sending)
      requires Valid() && poller.Serving? && outstanding > 0 && Possible(send)
      modifies this
      ensures Valid() && old(sent) <= sent && early == old(early) && old(results) <= results
      ensures faulted ==> old(faulted) || (isError && stopOnError) || !send.Sends?
      ensures |sent| - outstanding == old(|sent| - outstanding) + 1
      ensures isError && stopOnError ==>
        results == old(results) + [-EINVAL] && sent == old(sent) && poller.Off? && reported == [-EINVAL]
      ensures Left() < old(Left())
    {
      hide RestSubs, Work, AllGood, GoodSubsystem;
      outstanding := outstanding - 1;
      if isError && stopOnError {
        faulted := true;
        LoadDone(-EINVAL);
      } else {
        assert awaitsResponse;
        awaitsResponse := false;
        configIt := configIt + 1;
        LoadEntry(send);
      }
    }

    /**
     The poller is there until the load is done.  If a poll fails with nothing outstanding,
     a message or the initialisation is still to come, and goes on afterwards.
     */
    method OnPollFailure(rc: int)
      requires Valid() && poller.Serving? && rc < 0
      modifies this`poller, this`results, this`reported, this`faulted, this`early
      ensures Valid() && sent == old(sent) && faulted && results == old(results) + [rc]
      ensures poller.Off? && (!early ==> reported == [rc])
      ensures early == (old(outstanding) == 0)
      ensures if early then Left() == old(Left()) && reported == [] && outstanding == 0 else Left() < old(Left())
    {
      hide Rest, RestSubs, Work, AllGood, GoodEntry, GoodSubsystem;
      faulted := true;
      if outstanding > 0 {
        LoadDone(rc);
      } else {
        poller := Off;
        results := results + [rc];
        early := true;
      }
    }

    method OnMessage(send: Sending)
      requires Valid() && mailbox != [] && Possible(send)
      modifies this
      ensures Valid() && old(sent) <= sent && (faulted ==> old(faulted) || !send.Sends?)
      ensures old(results) <= results && (!send.Sends? ==> outstanding == old(outstanding) && sent == old(sent))
      ensures early == old(early)
      ensures |sent| - outstanding == old(|sent| - outstanding)
      ensures Left() < old(Left())
    {
      hide Rest, RestSubs, Work, AllGood, GoodEntry, GoodSubsystem;
      var message := mailbox[0];
      mailbox := mailbox[1..];
      match message
      case LoadSubsystemMsg => LoadSubsystem(send);
      case LoadEntryMsg => LoadEntry(send);
    }

    method OnInitDone(rc: int, send: Sending)
      requires Valid() && initRunning && Possible(send)
      modifies this
      ensures Valid() && old(sent) <= sent && (faulted ==> old(faulted) || rc != 0 || !send.Sends?)
      ensures old(results) <= results && (!send.Sends? ==> outstanding == old(outstanding) && sent == old(sent))
      ensures early == old(early)
      ensures rc == 0 && subsystems == [] ==> results == old(results) + [0]
      ensures |sent| - outstanding == old(|sent| - outstanding)
      ensures rc != 0 ==> results == old(results) + [rc] && sent == old(sent) && reported == [rc]
      ensures Left() < old(Left())
    {
      hide Rest, RestSubs, Work, GoodEntry;
      initRunning := false;
      if rc != 0 {
        faulted := true;
        LoadDone(rc);
        return;
      }
      runtime := true;
      subsystemsIt := 0;
      LoadSubsystem(send);
    }
  }

  /** What is left where nothing is sent: the end of a subsystem, a bad entry, an entry to skip. */
  lemma NextEntry(subs: seq<Subsystem>, runtime: bool, i: nat, es: seq<Entry>, j: nat)
    requires i < |subs| && subs[i] == Subsystem(es) && j <= |es|
    ensures j == |es| ==> Rest(subs, runtime, i, es, j) == RestSubs(subs, runtime, i + 1)
    ensures j == |es| && i + 1 == |subs| && (forall k :: 0 <= k <= i ==> GoodSubsystem(subs[k])) ==> AllGood(subs)
    ensures j < |es| && !GoodEntry(es[j]) ==> Rest(subs, runtime, i, es, j) == [] && !AllGood(subs)
    ensures j < |es| && GoodEntry(es[j]) && !Due(es[j], runtime) ==>
      Rest(subs, runtime, i, es, j) == Rest(subs, runtime, i, es, j + 1)
  {
    hide RestSubs;
    if j < |es| && !GoodEntry(es[j]) {
      assert !GoodSubsystem(subs[i]);
    }
  }

  /** An entry that is due is the first of what is left. */
  lemma SendsFirst(sent: seq<Pos>, subs: seq<Subsystem>, runtime: bool, i: nat, es: seq<Entry>, j: nat)
    requires i < |subs| && j < |es| && Due(es[j], runtime)
    ensures sent <= sent + Rest(subs, runtime, i, es, j)
    ensures sent + Rest(subs, runtime, i, es, j) == sent + [Pos(i, j)] + Rest(subs, runtime, i, es, j + 1)
  {
    hide RestSubs;
    Assoc(sent, [Pos(i, j)], Rest(subs, runtime, i, es, j + 1));
  }

  predicate Possible(send: Sending) {
    (send.CreateFails? ==> send.errno > 0) && (send.SendFails? ==> send.rc != 0)
  }

  // ---------- The plan of the walk is the wanted one ----------

  lemma {:induction false} SelectConcat(subs: seq<Subsystem>, a: seq<Pos>, b: seq<Pos>, runtime: bool)
    ensures Select(subs, a + b, runtime) == Select(subs, a, runtime) + Select(subs, b, runtime)
  {
    if a == [] {
      assert a + b == b;
    } else {
      assert (a + b)[1..] == a[1..] + b;
      SelectConcat(subs, a[1..], b, runtime);
    }
  }

  /** The second pass as it follows a first one. */
  ghost function Later(subs: seq<Subsystem>, runtime: bool): seq<Pos> {
    if runtime then [] else Select(subs, Listing(subs, 0), true)
  }

  lemma {:induction false} RestIsSelect(subs: seq<Subsystem>, runtime: bool, i: nat, j: nat)
    requires i < |subs| && subs[i].Subsystem? && j <= |subs[i].entries|
    ensures var want := Select(subs, Entries(i, subs[i].entries, j), runtime)
                      + Select(subs, Listing(subs, i + 1), runtime) + Later(subs, runtime);
            var plan := Rest(subs, runtime, i, subs[i].entries, j);
            plan <= want && (AllGood(subs) ==> plan == want)
    decreases !runtime, |subs| - i - 1, 1, |subs[i].entries| - j
  {
    var es := subs[i].entries;
    if j == |es| {
      RestSubsIsSelect(subs, runtime, i + 1);
      assert [] + Select(subs, Listing(subs, i + 1), runtime) == Select(subs, Listing(subs, i + 1), runtime);
    } else if GoodEntry(es[j]) {
      RestIsSelect(subs, runtime, i, j + 1);
      assert ([Pos(i, j)] + Entries(i, es, j + 1))[1..] == Entries(i, es, j + 1);
      var here, next := Select(subs, Entries(i, es, j + 1), runtime), Select(subs, Listing(subs, i + 1), runtime);
      Assoc([Pos(i, j)], here, next);
      Assoc([Pos(i, j)], here + next, Later(subs, runtime));
    } else {
      assert AllGood(subs) ==> GoodSubsystem(subs[i]);
    }
  }

  lemma {:induction false} RestSubsIsSelect(subs: seq<Subsystem>, runtime: bool, i: nat)
    ensures var want := Select(subs, Listing(subs, i), runtime) + Later(subs, runtime);
            var plan := RestSubs(subs, runtime, i);
            plan <= want && (AllGood(subs) ==> plan == want)
    decreases !runtime, |subs| - i, 0
  {
    if i >= |subs| {
      if !runtime {
        RestSubsIsSelect(subs, true, 0);
        assert Select(subs, Listing(subs, 0), true) + [] == Select(subs, Listing(subs, 0), true);
        assert [] + Later(subs, false) == Later(subs, false);
      }
    } else if subs[i].Subsystem? {
      RestIsSelect(subs, runtime, i, 0);
      SelectConcat(subs, Entries(i, subs[i].entries, 0), Listing(subs, i + 1), runtime);
    } else {
      assert AllGood(subs) ==> GoodSubsystem(subs[i]);
    }
  }

  /** Without faults in the file the walk plans the wanted requests; with one, a prefix of them. */
  lemma PlanIsWanted(subs: seq<Subsystem>)
    ensures RestSubs(subs, false, 0) <= Wanted(subs)
    ensures AllGood(subs) ==> RestSubs(subs, false, 0) == Wanted(subs)
  {
    RestSubsIsSelect(subs, false, 0);
  }

  // ---------- Each permitted entry is wanted once ----------

  lemma OneMore(x: Pos, s: seq<Pos>, p: Pos)
    ensures multiset([x] + s)[p] == multiset(s)[p] + if x == p then 1 else 0
  {
    assert multiset([x] + s) == multiset{x} + multiset(s);
  }

  lemma {:induction false} EntriesCount(i: nat, es: seq<Entry>, j: nat, p: Pos)
    ensures multiset(Entries(i, es, j))[p] == if p.sub == i && j <= p.entry < |es| then 1 else 0
    decreases |es| - j
  {
    if j < |es| {
      EntriesCount(i, es, j + 1, p);
      OneMore(Pos(i, j), Entries(i, es, j + 1), p);
    }
  }

  lemma {:induction false} ListingCount(subs: seq<Subsystem>, i: nat, p: Pos)
    ensures multiset(Listing(subs, i))[p] == if i <= p.sub && IsEntry(subs, p) then 1 else 0
    decreases |subs| - i
  {
    if i < |subs| {
      ListingCount(subs, i + 1, p);
      if subs[i].Subsystem? {
        EntriesCount(i, subs[i].entries, 0, p);
        assert multiset(Entries(i, subs[i].entries, 0) + Listing(subs, i + 1))
            == multiset(Entries(i, subs[i].entries, 0)) + multiset(Listing(subs, i + 1));
      }
    }
  }

  lemma {:induction false} SelectCount(subs: seq<Subsystem>, ps: seq<Pos>, runtime: bool, p: Pos)
    ensures multiset(Select(subs, ps, runtime))[p] == if DueAt(subs, p, runtime) then multiset(ps)[p] else 0
  {
    if ps != [] {
      SelectCount(subs, ps[1..], runtime, p);
      assert ps == [ps[0]] + ps[1..];
      OneMore(ps[0], ps[1..], p);
      OneMore(ps[0], Select(subs, ps[1..], runtime), p);
    }
  }

  /** An entry whose method may be called in some state. */
  ghost predicate Permitted(subs: seq<Subsystem>, p: Pos) {
    IsEntry(subs, p) && subs[p.sub].entries[p.entry].Method? &&
    (subs[p.sub].entries[p.entry].startup || subs[p.sub].entries[p.entry].runtime)
  }

  /** Over both passes each permitted entry is sent exactly once, and no other. */
  lemma WantedOnce(subs: seq<Subsystem>, p: Pos)
    ensures multiset(Wanted(subs))[p] == if Permitted(subs, p) then 1 else 0
  {
    ListingCount(subs, 0, p);
    SelectCount(subs, Listing(subs, 0), false, p);
    SelectCount(subs, Listing(subs, 0), true, p);
  }

  // ---------- The order of the wanted requests ----------

  /** The first place comes before the second in the file. */
  ghost predicate Before(p: Pos, q: Pos) {
    p.sub < q.sub || (p.sub == q.sub && p.entry < q.entry)
  }

  ghost predicate Rising(ps: seq<Pos>) {
    forall i, j :: 0 <= i < j < |ps| ==> Before(ps[i], ps[j])
  }

  lemma RisingJoin(a: seq<Pos>, b: seq<Pos>)
    requires Rising(a) && Rising(b) && forall p, q :: p in a && q in b ==> Before(p, q)
    ensures Rising(a + b)
  {
    var c := a + b;
    forall i, j | 0 <= i < j < |c| ensures Before(c[i], c[j]) {
      if i < |a| <= j {
        assert c[i] in a && c[j] in b;
      }
    }
  }

  lemma {:induction false} EntriesRise(i: nat, es: seq<Entry>, j: nat)
    ensures Rising(Entries(i, es, j))
    ensures forall p :: p in Entries(i, es, j) ==> p.sub == i && j <= p.entry < |es|
    decreases |es| - j
  {
    if j < |es| {
      EntriesRise(i, es, j + 1);
      RisingJoin([Pos(i, j)], Entries(i, es, j + 1));
    }
  }

  lemma {:induction false} ListingRises(subs: seq<Subsystem>, i: nat)
    ensures Rising(Listing(subs, i))
    ensures forall p :: p in Listing(subs, i) ==> i <= p.sub
    decreases |subs| - i
  {
    if i < |subs| {
      ListingRises(subs, i + 1);
      if subs[i].Subsystem? {
        EntriesRise(i, subs[i].entries, 0);
        RisingJoin(Entries(i, subs[i].entries, 0), Listing(subs, i + 1));
      }
    }
  }

  lemma {:induction false} SelectRises(subs: seq<Subsystem>, ps: seq<Pos>, runtime: bool)
    requires Rising(ps)
    ensures Rising(Select(subs, ps, runtime))
    ensures forall p :: p in Select(subs, ps, runtime) ==> p in ps && DueAt(subs, p, runtime)
  {
    if ps != [] {
      assert forall i :: 0 <= i < |ps[1..]| ==> ps[1..][i] == ps[i + 1];
      SelectRises(subs, ps[1..], runtime);
      RisingJoin([ps[0]], Select(subs, ps[1..], runtime));
    }
  }

  /**
   First come methods that are allowed at startup, then those that are allowed at run time
   only, and each part is in file order.
   */
  lemma WantedOrder(subs: seq<Subsystem>) returns (n: nat)
    ensures n <= |Wanted(subs)| && Rising(Wanted(subs)[..n]) && Rising(Wanted(subs)[n..])
    ensures forall i :: 0 <= i < |Wanted(subs)| ==>
      var p := Wanted(subs)[i];
      IsEntry(subs, p) && subs[p.sub].entries[p.entry].Method? &&
      var e := subs[p.sub].entries[p.entry];
      if i < n then e.startup else e.runtime && !e.startup
  {
    var first, second := Select(subs, Listing(subs, 0), false), Select(subs, Listing(subs, 0), true);
    ListingRises(subs, 0);
    SelectRises(subs, Listing(subs, 0), false);
    SelectRises(subs, Listing(subs, 0), true);
    n := |first|;
    assert Wanted(subs)[..n] == first && Wanted(subs)[n..] == second;
    forall i | 0 <= i < |Wanted(subs)| ensures DueAt(subs, Wanted(subs)[i], i >= n) {
      assert Wanted(subs)[i] in if i < n then first else second;
    }
  }

  // ---------- Whole runs ----------

  predicate PossibleEvent(e: Event) {
    match e
    case ConnectPoll(_, _, send) => Possible(send)
    case NoResponse => true
    case Response(_, send) => Possible(send)
    case PollFails(rc) => rc < 0
    case RunMessage(send) => Possible(send)
    case InitDone(_, send) => Possible(send)
  }

  /** An event that brings bad news. */
  predicate Bad(e: Event, stopOnError: bool) {
    match e
    case ConnectPoll(connected, expired, send) => (!connected && expired) || !send.Sends?
    case NoResponse => false
    case Response(isError, send) => (isError && stopOnError) || !send.Sends?
    case PollFails(_) => true
    case RunMessage(send) => !send.Sends?
    case InitDone(rc, send) => rc != 0 || !send.Sends?
  }

  /** An idle poll: nothing has happened. */
  predicate Idle(e: Event) {
    e.NoResponse? || (e.ConnectPoll? && !e.connected && !e.expired)
  }

  /** How many of the events at these places are responses. */
  ghost function Responses(events: seq<Event>, took: seq<nat>): nat
    requires Places(took, |events|)
  {
    if took == [] then 0
    else Responses(events, took[..|took| - 1]) + if events[took[|took| - 1]].Response? then 1 else 0
  }

  /**
   Any sequence of events, an event that cannot happen being skipped; `took` lists the
   places of those that happened.  What is sent is a prefix of the wanted requests, each
   answered before the next is sent.  The completion callback runs at most once unless a
   poll failed with nothing outstanding.  It reports success only when everything was sent
   and answered and nothing fatal happened, and -EINVAL for an error that stops the load.
   */
  method Drive(subs: seq<Subsystem>, stopOnError: bool, ready: bool, events: seq<Event>)
    returns (sent: seq<Pos>, results: seq<int>, took: seq<nat>, early: bool)
    requires forall n :: 0 <= n < |events| ==> PossibleEvent(events[n])
    ensures sent <= Wanted(subs) && |results| <= (if early then 2 else 1) && (early ==> results != [])
    ensures early ==> exists n :: 0 <= n < |events| && events[n].PollFails?
    ensures Places(took, |events|)
    ensures Responses(events, took) <= |sent| <= Responses(events, took) + 1
    ensures results == [0] ==> AllGood(subs) && sent == Wanted(subs) && Responses(events, took) == |sent|
    ensures results == [0] ==> forall i :: 0 <= i < |took| ==> !Fatal(events[took[i]], stopOnError)
    ensures forall i :: 0 <= i < |took| && Stops(events[took[i]], stopOnError) ==> results == [-EINVAL]
    ensures ready && AllGood(subs) && (forall n :: 0 <= n < |events| ==> !Bad(events[n], stopOnError)) ==>
              results == [] || results == [0]
    ensures Busy(events, took) <= 2 * Work(subs, 0) + if early then 5 else 4
  {
    hide Rest, RestSubs, Work, AllGood, Wanted, Loader.Valid, Loader.Left, Places, Busy, Responses, Idle, Bad, Fatal,
         AnyBad, AnyFailedPoll, AnyFatal, AnyStop, PossibleEvent;
    var loader := new Loader(subs, stopOnError, ready);
    took, early := [], false;
    PlanIsWanted(subs);
    NothingTook(events, stopOnError);
    for n := 0 to |events|
      invariant fresh(loader) && loader.Valid() && loader.subsystems == subs && loader.stopOnError == stopOnError
      invariant Places(took, n) && Places(took, |events|)
      invariant loader.faulted ==> !ready || AnyBad(events, n, stopOnError)
      invariant Busy(events, took) + loader.Left() <= 2 * Work(subs, 0) + if early then 5 else 4
      invariant early == loader.early && (early ==> AnyFailedPoll(events, n))
      invariant |loader.sent| - loader.outstanding == Responses(events, took)
      invariant AnyStop(events, took, stopOnError) ==> loader.reported == [-EINVAL] && !early
      invariant AnyFatal(events, took, stopOnError) ==> early || Failed(loader.reported)
    {
      SeeOne(events, n, stopOnError);
      var e := events[n];
      var nothing := loader.outstanding == 0;
      var done := Handle(loader, e);
      early := early || (done && e.PollFails? && nothing);
      if done {
        TookOne(events, took, n, stopOnError);
        took := took + [n];
      } else {
        PlacesGrow(took, n);
      }
    }
    Outcome(loader);
    TookAll(events, took, stopOnError);
    sent, results := loader.sent, loader.results;
  }

  /** A callback for a failure. */
  ghost predicate Failed(reported: seq<int>) {
    reported != [] && reported[0] != 0
  }

  ghost predicate Places(took: seq<nat>, n: nat) {
    (forall i :: 0 <= i < |took| ==> took[i] < n) && forall i, j :: 0 <= i < j < |took| ==> took[i] < took[j]
  }

  ghost predicate AnyBad(events: seq<Event>, n: nat, stopOnError: bool) {
    exists m :: 0 <= m < n && m < |events| && Bad(events[m], stopOnError)
  }

  ghost predicate AnyFailedPoll(events: seq<Event>, n: nat) {
    exists m :: 0 <= m < n && m < |events| && events[m].PollFails?
  }

  ghost predicate AnyFatal(events: seq<Event>, took: seq<nat>, stopOnError: bool) {
    exists i :: 0 <= i < |took| && took[i] < |events| && Fatal(events[took[i]], stopOnError)
  }

  ghost predicate AnyStop(events: seq<Event>, took: seq<nat>, stopOnError: bool) {
    exists i :: 0 <= i < |took| && took[i] < |events| && Stops(events[took[i]], stopOnError)
  }

  /** One more event was seen. */
  lemma SeeOne(events: seq<Event>, n: nat, stopOnError: bool)
    requires n < |events|
    ensures AnyBad(events, n + 1, stopOnError) <==> AnyBad(events, n, stopOnError) || Bad(events[n], stopOnError)
    ensures AnyFailedPoll(events, n + 1) <==> AnyFailedPoll(events, n) || events[n].PollFails?
  {
  }

  /** One more event was taken. */
  lemma TookOne(events: seq<Event>, took: seq<nat>, n: nat, stopOnError: bool)
    requires n < |events| && Places(took, n) && Places(took, |events|)
    ensures Places(took + [n], n + 1) && Places(took + [n], |events|)
    ensures Responses(events, took + [n]) == Responses(events, took) + if events[n].Response? then 1 else 0
    ensures Busy(events, took + [n]) == Busy(events, took) + if Idle(events[n]) then 0 else 1
    ensures AnyFatal(events, took + [n], stopOnError) ==>
      AnyFatal(events, took, stopOnError) || Fatal(events[n], stopOnError)
    ensures AnyStop(events, took + [n], stopOnError) ==>
      AnyStop(events, took, stopOnError) || Stops(events[n], stopOnError)
  {
    var t := took + [n];
    assert t[..|took|] == took;
    assert t[|took|] == n && forall i :: 0 <= i < |took| ==> t[i] == took[i];
  }

  lemma NothingTook(events: seq<Event>, stopOnError: bool)
    ensures Places([], 0) && Places([], |events|) && Responses(events, []) == 0 && Busy(events, []) == 0
    ensures !AnyFatal(events, [], stopOnError) && !AnyStop(events, [], stopOnError)
  {
  }

  lemma PlacesGrow(took: seq<nat>, n: nat)
    requires Places(took, n)
    ensures Places(took, n + 1)
  {
  }

  /** What the names above say of a whole run. */
  lemma TookAll(events: seq<Event>, took: seq<nat>, stopOnError: bool)
    requires Places(took, |events|)
    ensures forall i :: 0 <= i < |took| ==> took[i] < |events|
    ensures forall i, j :: 0 <= i < j < |took| ==> took[i] < took[j]
    ensures AnyBad(events, |events|, stopOnError) ==> exists n :: 0 <= n < |events| && Bad(events[n], stopOnError)
    ensures AnyFailedPoll(events, |events|) ==> exists n :: 0 <= n < |events| && events[n].PollFails?
    ensures !AnyFatal(events, took, stopOnError) ==>
      forall i :: 0 <= i < |took| ==> !Fatal(events[took[i]], stopOnError)
    ensures !AnyStop(events, took, stopOnError) ==>
      forall i :: 0 <= i < |took| ==> !Stops(events[took[i]], stopOnError)
  {
  }

  /** What the callback tells, in any state. */
  lemma Outcome(loader: Loader)
    requires loader.Valid()
    ensures loader.sent <= RestSubs(loader.subsystems, false, 0) && loader.outstanding <= 1
    ensures |loader.results| <= (if loader.early then 2 else 1) && (loader.early ==> loader.results != [])
    ensures loader.results == [0] ==>
      AllGood(loader.subsystems) && loader.sent == RestSubs(loader.subsystems, false, 0) &&
      loader.outstanding == 0 && !loader.early && !Failed(loader.reported)
    ensures !loader.early ==> loader.results == loader.reported
    ensures !loader.faulted && AllGood(loader.subsystems) ==> loader.results == [] || loader.results == [0]
  {
    hide Rest, RestSubs, Work, AllGood, GoodEntry, GoodSubsystem;
    assert loader.Told();
  }

  /** How many of the events at these places are not idle polls. */
  ghost function Busy(events: seq<Event>, took: seq<nat>): nat
    requires Places(took, |events|)
  {
    if took == [] then 0
    else Busy(events, took[..|took| - 1]) + if Idle(events[took[|took| - 1]]) then 0 else 1
  }

  /** The event that the loader is waiting for, without bad news. */
  ghost predicate Awaited(loader: Loader, e: Event)
    reads loader
  {
    match e
    case ConnectPoll(connected, _, send) => loader.poller.Connecting? && connected && send.Sends?
    case NoResponse => false
    case Response(isError, send) =>
      loader.poller.Serving? && loader.outstanding > 0 && !(isError && loader.stopOnError) && send.Sends?
    case PollFails(_) => false
    case RunMessage(send) => loader.mailbox != [] && send.Sends?
    case InitDone(rc, send) => loader.initRunning && rc == 0 && send.Sends?
  }

  /**
   A load of a good file in which every awaited event comes, with any error responses that
   do not stop it: all wanted requests are sent and the callback gets 0.
   */
  method Complete(subs: seq<Subsystem>, stopOnError: bool, rejected: set<Pos>)
    returns (sent: seq<Pos>, results: seq<int>)
    requires AllGood(subs)
    ensures sent == Wanted(subs) && results == [0]
  {
    var loader := new Loader(subs, stopOnError, true);
    PlanIsWanted(subs);
    while loader.results == []
      invariant fresh(loader) && loader.Valid() && loader.subsystems == subs && loader.stopOnError == stopOnError
      invariant !loader.faulted
      decreases loader.Left()
    {
      var e :=
        if loader.poller.Connecting? then ConnectPoll(true, false, Sends)
        else if loader.mailbox != [] then RunMessage(Sends)
        else if loader.initRunning then InitDone(0, Sends)
        else Response(!stopOnError && loader.sent != [] && loader.sent[|loader.sent| - 1] in rejected, Sends);
      assert Awaited(loader, e);
      var done := Handle(loader, e);
    }
    sent, results := loader.sent, loader.results;
  }

  /** The event can happen. */
  ghost predicate Enabled(loader: Loader, e: Event)
    reads loader
  {
    match e
    case ConnectPoll(_, _, _) => loader.poller.Connecting?
    case NoResponse => loader.poller.Serving?
    case Response(_, _) => loader.poller.Serving? && loader.outstanding > 0
    case PollFails(_) => loader.poller.Serving?
    case RunMessage(_) => loader.mailbox != []
    case InitDone(_, _) => loader.initRunning
  }

  /** An error response that stops the load. */
  predicate Stops(e: Event, stopOnError: bool) {
    e.Response? && e.isError && stopOnError
  }

  /** An event that ends the load, or should. */
  predicate Fatal(e: Event, stopOnError: bool) {
    (e.ConnectPoll? && !e.connected && e.expired) || Stops(e, stopOnError) ||
    e.PollFails? || (e.InitDone? && e.rc != 0)
  }

  /** One event; `done` tells whether it could happen. */
  method Handle(loader: Loader, e: Event) returns (done: bool)
    requires loader.Valid() && PossibleEvent(e)
    modifies loader
    ensures loader.Valid() && old(loader.sent) <= loader.sent
    ensures loader.faulted ==> old(loader.faulted) || Bad(e, loader.stopOnError)
    ensures (old(loader.reported) != [] ==> !done) && (!done ==> unchanged(loader))
    ensures done == old(Enabled(loader, e)) && (done && e.Response? ==> !loader.early)
    ensures |loader.sent| - loader.outstanding
         == old(|loader.sent| - loader.outstanding) + if done && e.Response? then 1 else 0
    ensures done && Stops(e, loader.stopOnError) ==> loader.reported == [-EINVAL]
    ensures done && Fatal(e, loader.stopOnError) ==> loader.early || Failed(loader.reported)
    ensures loader.early == (old(loader.early) || (done && e.PollFails? && old(loader.outstanding) == 0))
    ensures if done && !Idle(e) && loader.early == old(loader.early) then loader.Left() < old(loader.Left())
            else loader.Left() == old(loader.Left())
    ensures old(Awaited(loader, e)) && old(loader.results) == [] ==> done
  {
    done := false;
    match e {
      case ConnectPoll(connected, expired, send) =>
        if loader.poller.Connecting? {
          loader.OnConnectPoll(connected, expired, send);
          done := true;
        }
      case NoResponse =>
        done := loader.poller.Serving?;
      case Response(isError, send) =>
        if loader.poller.Serving? && loader.outstanding > 0 {
          loader.OnResponse(isError, send);
          done := true;
        }
      case PollFails(rc) =>
        if loader.poller.Serving? {
          loader.OnPollFailure(rc);
          done := true;
        }
      case RunMessage(send) =>
        if loader.mailbox != [] {
          loader.OnMessage(send);
          done := true;
        }
      case InitDone(rc, send) =>
        if loader.initRunning {
          loader.OnInitDone(rc, send);
          done := true;
        }
    }
  }

  // ---------- A poll that fails with nothing outstanding ----------

  /** Unless a poll has failed with nothing outstanding, the callback has run at most once. */
  lemma AtMostOnce(loader: Loader)
    requires loader.Valid() && !loader.early
    ensures |loader.results| <= 1
  {
    assert loader.Told();
  }

  /**
   A poll fails, in any state in which there is a poller.  With a request outstanding that
   is the only callback; with none, what is still to come can run it a second time.
   */
  method FailPoll(loader: Loader, rc: int)
    requires loader.Valid() && loader.poller.Serving? && rc < 0
    modifies loader
    ensures loader.Valid() && |loader.results| == (if old(loader.outstanding) == 0 then 2 else 1)
    ensures loader.results[0] == rc && loader.sent == old(loader.sent)
  {
    hide Rest, RestSubs, Work, AllGood, GoodEntry, GoodSubsystem;
    loader.OnPollFailure(rc);
    if loader.outstanding == 0 {
      GoOn(loader);
    }
  }

  /** What is still to come ends in a failure of its own. */
  method GoOn(loader: Loader)
    requires loader.Valid() && loader.early && loader.reported == [] && loader.outstanding == 0
    modifies loader
    ensures loader.Valid() && |loader.results| == 2 && loader.results[0] == old(loader.results)[0]
    ensures loader.sent == old(loader.sent)
  {
    while |loader.results| < 2
      invariant loader.Valid() && loader.early && loader.outstanding == 0
      invariant loader.results != [] && loader.results[0] == old(loader.results)[0] && loader.sent == old(loader.sent)
      decreases loader.Left()
    {
      if loader.mailbox != [] {
        loader.OnMessage(CreateFails(1));
      } else {
        loader.OnInitDone(-1, CreateFails(1));
      }
    }
  }

  /** An empty file: a poll fails during the initialisation, which then succeeds. */
  method CalledTwice() returns (results: seq<int>)
    ensures results == [-5, 0]
  {
    var loader := new Loader([], false, true);
    loader.OnConnectPoll(true, false, Sends);
    loader.OnPollFailure(-5);
    loader.OnInitDone(0, Sends);
    results := loader.results;
  }
}
