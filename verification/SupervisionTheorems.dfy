/** What a caller may rely on at every await point of every run. */
module SupervisionTheorems {
  import opened Options
  import opened Backoff
  import opened Supervision
  import opened SupervisionSafety

  ghost predicate Reachable(cfg: Setup, s: Runtime)
    requires cfg.Valid()
  {
    exists now: real, es: seq<Event> :: ValidRun(cfg, Initial(cfg, now), es) && Final(cfg, Initial(cfg, now), es) == s
  }

  lemma {:induction false} ReachableInv(cfg: Setup, s: Runtime)
    requires cfg.Valid() && Reachable(cfg, s)
    ensures Inv(cfg, s)
  {
    var now: real, es: seq<Event> :| ValidRun(cfg, Initial(cfg, now), es) && Final(cfg, Initial(cfg, now), es) == s;
    InitialInv(cfg, now);
    RunsKeepInv(cfg, Initial(cfg, now), es);
  }

  /** However starts and stops interleave, a name never has two live
      supervisors, and so never two runner invocations. */
  lemma {:induction false} OneSupervisorPerName(cfg: Setup, s: Runtime, i: nat, j: nat)
    requires cfg.Valid() && Reachable(cfg, s)
    requires i < |s.pool| && j < |s.pool| && s.pool[i].name == s.pool[j].name
    requires s.pool[i].Live() && s.pool[j].Live()
    ensures i == j
  {
    ReachableInv(cfg, s);
    assert IsCurrent(s, i) && IsCurrent(s, j);
  }

  /** What the lock being free says about `_started`, `_tasks`, the statuses
      and the supervisors. */
  lemma {:induction false} FreeLockMeaning(cfg: Setup, s: Runtime)
    requires cfg.Valid() && Reachable(cfg, s) && s.lock.Free?
    ensures s.started ==> s.tasks.Keys == cfg.place.Keys
    ensures !s.started ==> forall i :: 0 <= i < |s.pool| ==> !s.pool[i].Live()
    ensures !s.started ==> (s.tasks == map[] <==> !s.dirty)
    ensures !s.started && !s.dirty ==> AllAtRest(s)
  {
    ReachableInv(cfg, s);
    assert cfg.names[0] in cfg.place.Keys;
  }

  lemma {:induction false} UnabortedRunsStayClean(cfg: Setup, s: Runtime, es: seq<Event>)
    requires cfg.Valid() && ValidRun(cfg, s, es) && NoAbort(es)
    requires !s.dirty && s.lock != Held(true)
    ensures !Final(cfg, s, es).dirty
    decreases |es|
  {
    if es != [] {
      UnabortedRunsStayClean(cfg, Next(cfg, s, es[0]), es[1..]);
    }
  }

  /** If no caller of `stop` is cancelled inside it, a free lock leaves only two
      pictures: everything registered, or nothing registered and all at rest. */
  lemma {:induction false} StartedOrAtRest(cfg: Setup, now: real, es: seq<Event>)
    requires cfg.Valid() && ValidRun(cfg, Initial(cfg, now), es) && NoAbort(es)
    ensures var s := Final(cfg, Initial(cfg, now), es);
            s.lock.Free? ==>
              && (s.started <==> s.tasks.Keys == cfg.place.Keys)
              && (!s.started ==> s.tasks == map[] && AllAtRest(s))
  {
    var s := Final(cfg, Initial(cfg, now), es);
    assert Reachable(cfg, s);
    UnabortedRunsStayClean(cfg, Initial(cfg, now), es);
    if s.lock.Free? {
      FreeLockMeaning(cfg, s);
      assert cfg.names[0] in cfg.place.Keys;
    }
  }

  lemma {:induction false} OneMoreEvent(cfg: Setup, s: Runtime, e: Event)
    requires cfg.Valid() && Reachable(cfg, s) && Enabled(s, e)
    ensures Reachable(cfg, Next(cfg, s, e))
  {
    var now: real, es: seq<Event> :| ValidRun(cfg, Initial(cfg, now), es) && Final(cfg, Initial(cfg, now), es) == s;
    RunsCompose(cfg, Initial(cfg, now), es, [e]);
    assert ValidRun(cfg, Initial(cfg, now), es + [e]);
  }

  const SOLO := Setup(["w"], map["w" := 0], Config(1.0, 1.0, 0))

  function SoloState(started: bool, t: Task, st: WorkerState, lock: Lock, granted: seq<Call>, dirty: bool): Runtime {
    Runtime(started, map["w" := 0], map["w" := Status(st, 0, None, None)], [t], lock, [], granted, dirty, 0.0)
  }

  /** The one worker, cancelled before its first step, under a `stop`. */
  function SoloStopping(lock: Lock): Runtime {
    SoloState(false, NewTask("w", 0.0).(cancelled := true), Stopping, lock, [StartCall, StopCall], false)
  }

  const SOLO_STARTED := SoloState(true, NewTask("w", 0.0), Starting, Free, [StartCall], false)

  lemma {:induction false} SoloBegins()
    ensures SOLO.Valid()
    ensures Reachable(SOLO, Initial(SOLO, 0.0).(queue := [StartCall]))
  {
    var s0 := Initial(SOLO, 0.0);
    assert Reachable(SOLO, s0) by {
      assert ValidRun(SOLO, s0, []) && Final(SOLO, s0, []) == s0;
    }
    OneMoreEvent(SOLO, s0, Arrive(StartCall));
  }

  lemma {:induction false} SoloStarts()
    ensures SOLO.Valid()
    ensures Reachable(SOLO, SOLO_STARTED)
  {
    SoloBegins();
    var s1 := Initial(SOLO, 0.0).(queue := [StartCall]);
    OneMoreEvent(SOLO, s1, Grant);
    var s2 := Next(SOLO, s1, Grant);
    assert s2.tasks == map["w" := 0];
    assert s2.statuses == map["w" := FRESH_STATUS];
    assert s2.pool == [NewTask("w", 0.0)];
  }

  lemma {:induction false} SoloStopQueues()
    ensures SOLO.Valid()
    ensures Reachable(SOLO, SOLO_STARTED.(queue := [StopCall]))
  {
    SoloStarts();
    OneMoreEvent(SOLO, SOLO_STARTED, Arrive(StopCall));
  }

  lemma {:induction false} SoloStopWaits()
    ensures SOLO.Valid()
    ensures Reachable(SOLO, SoloStopping(Held(false)))
  {
    SoloStopQueues();
    var s3 := SOLO_STARTED.(queue := [StopCall]);
    OneMoreEvent(SOLO, s3, Grant);
    var s4 := Next(SOLO, s3, Grant);
    assert IsCurrent(s3, 0);
    assert s4.pool == [NewTask("w", 0.0).(cancelled := true)];
    assert s4.statuses == map["w" := Status(Stopping, 0, None, None)];
  }

  lemma {:induction false} SoloStopIsAborted()
    ensures SOLO.Valid()
    ensures Reachable(SOLO, SoloStopping(Held(true)))
  {
    SoloStopWaits();
    var s4 := SoloStopping(Held(false));
    OneMoreEvent(SOLO, s4, AbortStop);
    assert Next(SOLO, s4, AbortStop).pool == s4.pool;
  }

  /** Without that assumption the second picture fails: a cancelled `stop`
      leaves its entries behind, with a status that still reads "stopping". */
  lemma {:induction false} AbortedStopLeavesEntries()
    ensures exists s: Runtime ::
              && SOLO.Valid() && Reachable(SOLO, s)
              && s.lock.Free? && !s.started && s.tasks != map[]
              && "w" in s.statuses && s.statuses["w"].state == Stopping
  {
    SoloStopIsAborted();
    var s5 := SoloStopping(Held(true));
    OneMoreEvent(SOLO, s5, Step(0, Cancel));
    var s6 := Next(SOLO, s5, Step(0, Cancel));
    assert AllDone(s6);
    OneMoreEvent(SOLO, s6, Gathered);
    assert "w" in s6.tasks;
  }

  // ----- an aborted stop, read off the events -----

  /** The lock goes to a `stop` that finds the runtime started. */
  predicate TakesStop(s: Runtime, e: Event) {
    e.Grant? && s.queue != [] && s.queue[0].StopCall? && s.started
  }

  /** After the last effective `stop` got the lock, its caller was cancelled; `was`
      says so of the time before `es`. */
  ghost predicate AbortedSince(cfg: Setup, s: Runtime, es: seq<Event>, was: bool)
    requires cfg.Valid() && ValidRun(cfg, s, es)
    decreases |es|
  {
    if es == [] then was
    else AbortedSince(cfg, Next(cfg, s, es[0]), es[1..], es[0].AbortStop? || (was && !TakesStop(s, es[0])))
  }

  /** Until the next effective `start` the state still shows it. */
  ghost predicate ShowsAbort(s: Runtime, was: bool) {
    && (s.lock.Held? ==> s.lock.aborted == was)
    && (s.lock.Free? && !s.started ==> s.dirty == was)
  }

  lemma {:induction false} OneEventShowsAbort(cfg: Setup, s: Runtime, e: Event, was: bool)
    requires cfg.Valid() && Inv(cfg, s) && ShowsAbort(s, was) && Enabled(s, e)
    ensures ShowsAbort(Next(cfg, s, e), e.AbortStop? || (was && !TakesStop(s, e)))
  {
  }

  lemma {:induction false} RunsShowAbort(cfg: Setup, s: Runtime, es: seq<Event>, was: bool)
    requires cfg.Valid() && Inv(cfg, s) && ShowsAbort(s, was) && ValidRun(cfg, s, es)
    ensures ShowsAbort(Final(cfg, s, es), AbortedSince(cfg, s, es, was))
    decreases |es|
  {
    if es != [] {
      NextInv(cfg, s, es[0]);
      OneEventShowsAbort(cfg, s, es[0], was);
      RunsShowAbort(cfg, Next(cfg, s, es[0]), es[1..], es[0].AbortStop? || (was && !TakesStop(s, es[0])));
    }
  }

  /** With the lock free and nothing started, `_tasks` is empty exactly when nobody
      cancelled the last effective `stop` inside it; only then need the statuses be
      at rest. */
  lemma {:induction false} RegistryIsEmptyIffStopWasNotAborted(cfg: Setup, now: real, es: seq<Event>)
    requires cfg.Valid() && ValidRun(cfg, Initial(cfg, now), es)
    ensures var s := Final(cfg, Initial(cfg, now), es);
            s.lock.Free? && !s.started ==>
              && (s.tasks == map[] <==> !AbortedSince(cfg, Initial(cfg, now), es, false))
              && (s.tasks == map[] ==> AllAtRest(s))
  {
    var s := Final(cfg, Initial(cfg, now), es);
    assert Reachable(cfg, s);
    InitialInv(cfg, now);
    RunsShowAbort(cfg, Initial(cfg, now), es, false);
    if s.lock.Free? && !s.started {
      FreeLockMeaning(cfg, s);
    }
  }

  // ----- what the statuses remember -----

  /** Where the latest supervisor of `n` stands in the pool. */
  function Latest(cfg: Setup, s: Runtime, n: string): int
    requires n in cfg.place
  {
    |s.pool| - |cfg.names| + cfg.place[n]
  }

  /** The counts in the status are those of the latest supervisor, registered or
      not. */
  ghost predicate Remembers(cfg: Setup, s: Runtime, n: string)
    requires n in cfg.place
  {
    && n in s.statuses && 0 <= Latest(cfg, s, n) < |s.pool|
    && (n in s.tasks ==> s.tasks[n] == Latest(cfg, s, n))
    && var t, st := s.pool[Latest(cfg, s, n)], s.statuses[n];
       && t.name == n && CyclePrefix(t.trace)
       && st.restarts == CountExits(t.trace)
       && st.lastExit == LatestExit(t.trace)
       && (st.lastExit.Some? <==> st.restarts > 0)
  }

  ghost predicate NeverStarted(cfg: Setup, s: Runtime) {
    s.pool == [] && s.tasks == map[] && s.statuses == Unstarted(cfg)
  }

  ghost predicate AllRemember(cfg: Setup, s: Runtime) {
    NeverStarted(cfg, s) || forall n :: n in cfg.place ==> Remembers(cfg, s, n)
  }

  lemma {:induction false} SameMemory(cfg: Setup, s: Runtime, s': Runtime)
    requires AllRemember(cfg, s) && s'.pool == s.pool && s'.tasks == s.tasks && s'.statuses == s.statuses
    ensures AllRemember(cfg, s')
  {
  }

  /** A registered supervisor's story is what is remembered. */
  lemma {:induction false} RegisteredRemembers(cfg: Setup, s: Runtime, n: string)
    requires cfg.Valid() && Inv(cfg, s) && n in s.tasks && n in cfg.place && s.tasks[n] == Latest(cfg, s, n)
    ensures Remembers(cfg, s, n)
  {
    StoryOfNamed(cfg, s, n);
  }

  lemma {:induction false} AllRegisteredRemember(cfg: Setup, s: Runtime, s': Runtime)
    requires cfg.Valid() && AllRemember(cfg, s) && Inv(cfg, s')
    requires s'.tasks == s.tasks && s.tasks.Keys == cfg.place.Keys && |s'.pool| == |s.pool|
    ensures AllRemember(cfg, s')
  {
    assert cfg.names[0] in cfg.place.Keys;
    forall n | n in cfg.place ensures Remembers(cfg, s', n) {
      assert Remembers(cfg, s, n) && n in s.tasks;
      RegisteredRemembers(cfg, s', n);
    }
  }

  lemma {:induction false} LaunchRemembers(cfg: Setup, s: Runtime)
    requires cfg.Valid() && Inv(cfg, s) && !s.started && s.lock.Free?
    ensures AllRemember(cfg, Launch(cfg, s))
  {
    LaunchInv(cfg, s);
    forall n | n in cfg.place ensures Remembers(cfg, Launch(cfg, s), n) {
      RegisteredRemembers(cfg, Launch(cfg, s), n);
    }
  }

  lemma {:induction false} RestRemembers(cfg: Setup, s: Runtime, n: string)
    requires n in cfg.place && Remembers(cfg, s, n)
    ensures Remembers(cfg, FinishStop(s), n)
  {
  }

  lemma {:induction false} FinishRemembers(cfg: Setup, s: Runtime)
    requires cfg.Valid() && AllRemember(cfg, s) && s.tasks.Keys == cfg.place.Keys
    ensures AllRemember(cfg, FinishStop(s))
  {
    assert cfg.names[0] in cfg.place.Keys;
    forall n | n in cfg.place ensures Remembers(cfg, FinishStop(s), n) {
      RestRemembers(cfg, s, n);
    }
  }

  lemma {:induction false} GrantRemembers(cfg: Setup, s: Runtime)
    requires cfg.Valid() && Inv(cfg, s) && AllRemember(cfg, s) && Enabled(s, Grant)
    ensures AllRemember(cfg, Next(cfg, s, Grant))
  {
    var s0 := s.(queue := s.queue[1..], granted := s.granted + [s.queue[0]]);
    QueueingKeepsInv(cfg, s, s0.queue, s0.granted);
    if s.queue[0].StartCall? && !s.started {
      LaunchRemembers(cfg, s0);
    } else if s.queue[0].StopCall? && s.started {
      RequestStopInv(cfg, s0);
      AllRegisteredRemember(cfg, s, RequestStop(s0));
    } else {
      SameMemory(cfg, s, s0);
    }
  }

  lemma {:induction false} NextRemembers(cfg: Setup, s: Runtime, e: Event)
    requires cfg.Valid() && Inv(cfg, s) && AllRemember(cfg, s) && Enabled(s, e)
    ensures AllRemember(cfg, Next(cfg, s, e))
  {
    NextInv(cfg, s, e);
    match e
    case Grant => GrantRemembers(cfg, s);
    case Step(i, a) =>
      StepPool(cfg, s, i, a);
      AllRegisteredRemember(cfg, s, Next(cfg, s, e));
    case AbortStop => AllRegisteredRemember(cfg, s, Next(cfg, s, e));
    case Gathered =>
      if s.lock.aborted {
        SameMemory(cfg, s, Next(cfg, s, e));
      } else {
        FinishRemembers(cfg, s);
      }
    case _ => SameMemory(cfg, s, Next(cfg, s, e));
  }

  lemma {:induction false} RunsRemember(cfg: Setup, s: Runtime, es: seq<Event>)
    requires cfg.Valid() && Inv(cfg, s) && AllRemember(cfg, s) && ValidRun(cfg, s, es)
    ensures AllRemember(cfg, Final(cfg, s, es))
    decreases |es|
  {
    if es != [] {
      NextInv(cfg, s, es[0]);
      NextRemembers(cfg, s, es[0]);
      RunsRemember(cfg, Next(cfg, s, es[0]), es[1..]);
    }
  }

  lemma {:induction false} ReachableRemembers(cfg: Setup, s: Runtime)
    requires cfg.Valid() && Reachable(cfg, s)
    ensures AllRemember(cfg, s)
  {
    var now: real, es: seq<Event> :| ValidRun(cfg, Initial(cfg, now), es) && Final(cfg, Initial(cfg, now), es) == s;
    InitialInv(cfg, now);
    RunsRemember(cfg, Initial(cfg, now), es);
  }

  lemma {:induction false} StoryOfReachable(cfg: Setup, s: Runtime, n: string)
    requires cfg.Valid() && Reachable(cfg, s) && n in s.tasks
    ensures s.tasks[n] < |s.pool| && n in s.statuses
    ensures TellsTheStory(cfg, WorkerOf(s, n), s.now, !s.started)
  {
    ReachableInv(cfg, s);
    StoryOfNamed(cfg, s, n);
  }

  /** A pending retry and a state are those of a registered supervisor. */
  ghost predicate ShowsItsWorker(cfg: Setup, s: Runtime, n: string)
    requires cfg.Valid() && n in s.statuses
  {
    var st := s.statuses[n];
    && (st.nextRetry.Some? <==> n in s.tasks && s.tasks[n] < |s.pool| && s.pool[s.tasks[n]].phase.Asleep?)
    && (st.nextRetry.Some? ==>
          && st.restarts > 0
          && st.nextRetry.value == Delay(cfg.backoff, st.restarts - 1)
          && (st.state == Waiting || st.state == Stopping))
    && (s.started ==> n in s.tasks && s.tasks[n] < |s.pool| && st.state == StateOf(s.pool[s.tasks[n]].phase))
  }

  lemma {:induction false} RegisteredShows(cfg: Setup, s: Runtime, n: string)
    requires cfg.Valid() && Reachable(cfg, s) && n in s.tasks
    ensures n in s.statuses && ShowsItsWorker(cfg, s, n)
  {
    StoryOfReachable(cfg, s, n);
  }

  lemma {:induction false} UnregisteredShows(cfg: Setup, s: Runtime, n: string)
    requires cfg.Valid() && Reachable(cfg, s) && n in cfg.place && n !in s.tasks
    ensures n in s.statuses && ShowsItsWorker(cfg, s, n)
  {
    ReachableInv(cfg, s);
  }

  /** The status of every runner at every await point, read off the history of its
      latest supervisor: also before the first `start`, and after a `stop`, when the
      registry is empty and the counts still show. */
  lemma {:induction false} HistoryOfEveryWorker(cfg: Setup, s: Runtime, n: string)
    requires cfg.Valid() && Reachable(cfg, s) && n in cfg.place
    ensures NeverStarted(cfg, s) || Remembers(cfg, s, n)
    ensures n in s.statuses && ShowsItsWorker(cfg, s, n)
    ensures s.statuses[n].lastExit.Some? <==> s.statuses[n].restarts > 0
  {
    ReachableRemembers(cfg, s);
    if n in s.tasks {
      RegisteredShows(cfg, s, n);
    } else {
      UnregisteredShows(cfg, s, n);
    }
  }

  lemma {:induction false} RateOfStory(cfg: Setup, w: Worker, now: real, stopping: bool)
    requires cfg.Valid() && TellsTheStory(cfg, w, now, stopping)
    ensures CountSlept(w.task.trace) as real <= cfg.backoff.exponent as real + (now - w.task.born) / cfg.backoff.max
  {
    var n := CountSlept(w.task.trace);
    WaitsWithin(cfg.backoff, n, now - w.task.born);
    TotalDelayIsNotNegative(cfg.backoff, n);
    RationAsQuotient(cfg.backoff, n, now - w.task.born);
  }

  /** Restarts are rationed by the time since `start`: the waits completed in it
      are no more than the exponent plus that time divided by the cap. */
  lemma {:induction false} BackoffRate(cfg: Setup, s: Runtime, n: string)
    requires cfg.Valid() && Reachable(cfg, s) && n in s.tasks
    ensures s.tasks[n] < |s.pool|
    ensures var t := s.pool[s.tasks[n]];
            CountSlept(t.trace) as real <= cfg.backoff.exponent as real + (s.now - t.born) / cfg.backoff.max
  {
    StoryOfReachable(cfg, s, n);
    RateOfStory(cfg, WorkerOf(s, n), s.now, !s.started);
  }
}
