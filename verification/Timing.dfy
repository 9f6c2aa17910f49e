/**
 How long supervisors sleep: exactly as long as their status announces, so that
 restarts come neither earlier nor later than the backoff says.
 */
module Timing {
  import opened Options
  import opened Backoff
  import opened Supervision
  import opened SupervisionSafety
  import opened SupervisionTheorems
  import opened Isolation

  // ----- one sleep -----

  /** The time that passes in these events. */
  function Elapsed(es: seq<Event>): real {
    if es == [] then 0.0 else (if es[0].Tick? then es[0].dt else 0.0) + Elapsed(es[1..])
  }

  ghost predicate WithoutStepsOf(i: nat, es: seq<Event>) {
    forall k :: 0 <= k < |es| ==> !(es[k].Step? && es[k].task == i)
  }

  /** The supervisor stands where it stood, but for a cancellation and the clock. */
  ghost predicate StandsStill(s: Runtime, s': Runtime, i: nat, elapsed: real) {
    && i < |s.pool| && i < |s'.pool|
    && s'.pool[i].phase == s.pool[i].phase && s'.pool[i].name == s.pool[i].name
    && s'.now == s.now + elapsed
  }

  lemma {:induction false} OthersLeaveItAlone(cfg: Setup, s: Runtime, i: nat, e: Event)
    requires cfg.Valid() && Enabled(s, e) && i < |s.pool| && !(e.Step? && e.task == i)
    ensures StandsStill(s, Next(cfg, s, e), i, if e.Tick? then e.dt else 0.0)
  {
  }

  lemma {:induction false} StillOverRuns(cfg: Setup, s: Runtime, i: nat, es: seq<Event>)
    requires cfg.Valid() && ValidRun(cfg, s, es) && i < |s.pool| && WithoutStepsOf(i, es)
    ensures StandsStill(s, Final(cfg, s, es), i, Elapsed(es))
    decreases |es|
  {
    if es != [] {
      OthersLeaveItAlone(cfg, s, i, es[0]);
      StillOverRuns(cfg, Next(cfg, s, es[0]), i, es[1..]);
    }
  }

  /** The supervisor `i` sleeps until `wake`, and `st` is its status. */
  ghost predicate Sleeps(s: Runtime, i: nat, wake: real, st: Status) {
    && i < |s.pool| && s.pool[i].phase == Asleep(wake)
    && s.pool[i].name in s.statuses && s.statuses[s.pool[i].name] == st
  }

  lemma {:induction false} ExitFallsAsleep(cfg: Setup, s: Runtime, i: nat, how: WorkerExit)
    requires cfg.Valid() && Enabled(s, Step(i, Exit(how)))
    ensures var s' := Next(cfg, s, Step(i, Exit(how)));
            var n := s.statuses[s.pool[i].name].restarts;
            var d := Delay(cfg.backoff, n);
            && Sleeps(s', i, s.now + d, Status(Waiting, n + 1, Some(how), Some(d)))
            && s'.pool[i].name == s.pool[i].name && s'.now == s.now
  {
  }

  lemma {:induction false} NamesOfTheLiving(cfg: Setup, s: Runtime, i: nat)
    requires cfg.Valid() && Control(cfg, s) && i < |s.pool| && s.pool[i].Live()
    ensures s.pool[i].name in s.statuses
  {
    assert IsCurrent(s, i);
  }

  /** A runner exits in a reachable state, and other things happen in `es`.  Its
      supervisor can then be woken exactly if it has not been cancelled and the time
      that has passed is at least the delay that the status announced at the exit:
      that of the restart count. */
  lemma {:induction false} SleepsAsAnnounced(cfg: Setup, s: Runtime, i: nat, how: WorkerExit, es: seq<Event>)
    requires cfg.Valid() && Reachable(cfg, s) && Enabled(s, Step(i, Exit(how)))
    requires ValidRun(cfg, Next(cfg, s, Step(i, Exit(how))), es) && WithoutStepsOf(i, es)
    ensures var name, s' := s.pool[i].name, Next(cfg, s, Step(i, Exit(how)));
            var t := Final(cfg, s', es);
            && name in s'.statuses && s'.statuses[name].nextRetry.Some? && i < |t.pool|
            && s'.statuses[name].nextRetry.value ==
               Min(Ldexp(cfg.backoff.base, s.statuses[name].restarts), cfg.backoff.max)
            && (Enabled(t, Step(i, Wake)) <==>
                  !t.pool[i].cancelled && Elapsed(es) >= s'.statuses[name].nextRetry.value)
  {
    var s', n := Next(cfg, s, Step(i, Exit(how))), s.statuses[s.pool[i].name].restarts;
    var t := Final(cfg, s', es);
    ExitFallsAsleep(cfg, s, i, how);
    ClampIsInvisible(cfg.backoff, n);
    StillOverRuns(cfg, s', i, es);
    assert t.pool[i].name in t.statuses by {
      ReachableInv(cfg, s);
      NextInv(cfg, s, Step(i, Exit(how)));
      RunsKeepInv(cfg, s', es);
      NamesOfTheLiving(cfg, t, i);
    }
  }

  /** What a supervisor in this phase may do next is up to its runner, its timer and
      `stop`: an invoked runner may exit either way or let go at any time, asked or
      not; an unstarted supervisor begins unless cancelled; and a cancelled one that
      is not in its runner can only take the cancellation. */
  predicate MayDo(t: Task, now: real, a: Act) {
    match t.phase
    case Created => a == if t.cancelled then Cancel else Begin
    case InRunner =>
      a.Exit? || a.Unwind? || (a.Swallow? && t.cancelled)
    case Asleep(wake) => if t.cancelled then a == Cancel else a == Wake && now >= wake
    case Done => false
  }

  lemma {:induction false} ActsByPhase(t: Task, now: real, a: Act)
    ensures CanAct(t, now, a) <==> MayDo(t, now, a)
  {
  }

  /** That, and nothing else, is possible in every reachable state. */
  lemma {:induction false} TheEnvironmentIsFree(cfg: Setup, s: Runtime, i: nat, a: Act)
    requires cfg.Valid() && Reachable(cfg, s) && i < |s.pool|
    ensures Enabled(s, Step(i, a)) <==> MayDo(s.pool[i], s.now, a)
  {
    ActsByPhase(s.pool[i], s.now, a);
    if s.pool[i].Live() {
      ReachableInv(cfg, s);
      NamesOfTheLiving(cfg, s, i);
    }
  }

  // ----- all sleeps of one supervisor -----

  /** How much of a life is spent asleep. */
  ghost function AsleepFor(cfg: Setup, l: Alone, ps: seq<Part>): real
    requires cfg.Valid() && CanLive(cfg, l, ps)
    decreases |ps|
  {
    if ps == [] then 0.0
    else
      (if ps[0].Passes? && l.task.phase.Asleep? then ps[0].dt else 0.0) + AsleepFor(cfg, Do(cfg, l, ps[0]), ps[1..])
  }

  /** How much of it is spent otherwise: waiting to begin, in the runner, or done. */
  ghost function AwakeFor(cfg: Setup, l: Alone, ps: seq<Part>): real
    requires cfg.Valid() && CanLive(cfg, l, ps)
    decreases |ps|
  {
    if ps == [] then 0.0
    else
      (if ps[0].Passes? && !l.task.phase.Asleep? then ps[0].dt else 0.0) + AwakeFor(cfg, Do(cfg, l, ps[0]), ps[1..])
  }

  /** Due timers fire at once: no time passes beyond a deadline. */
  ghost predicate Punctual(cfg: Setup, l: Alone, ps: seq<Part>)
    requires cfg.Valid() && CanLive(cfg, l, ps)
    decreases |ps|
  {
    ps != [] ==>
      && (ps[0].Passes? && l.task.phase.Asleep? ==> l.now + ps[0].dt <= l.task.phase.wake)
      && Punctual(cfg, Do(cfg, l, ps[0]), ps[1..])
  }

  ghost predicate Story(cfg: Setup, l: Alone)
    requires cfg.Valid()
  {
    TellsTheStory(cfg, Worker(l.task, l.status), l.now, true)
  }

  /** `slept` is what the waits so far take, or more; exactly that, if all timers
      were `punctual`.  Of a wait under way the part until the deadline is missing. */
  ghost predicate Accounted(cfg: Setup, l: Alone, slept: real, punctual: bool)
    requires cfg.Valid()
  {
    match l.task.phase
    case Created => slept == 0.0 && CountSlept(l.task.trace) == 0
    case InRunner =>
      var owed := TotalDelay(cfg.backoff, CountSlept(l.task.trace));
      slept >= owed && (punctual ==> slept == owed)
    case Asleep(wake) =>
      var owed := TotalDelay(cfg.backoff, CountSlept(l.task.trace) + 1);
      && slept + (wake - l.now) >= owed
      && (punctual ==> slept + (wake - l.now) == owed && l.now <= wake)
    case Done => true
  }

  lemma {:induction false} TimeIsAccounted(cfg: Setup, l: Alone, slept: real, punctual: bool, dt: real)
    requires cfg.Valid() && Story(cfg, l) && Accounted(cfg, l, slept, punctual) && dt >= 0.0
    requires punctual && l.task.phase.Asleep? ==> l.now + dt <= l.task.phase.wake
    ensures var l' := Do(cfg, l, Passes(dt));
            Story(cfg, l') && Accounted(cfg, l', slept + (if l.task.phase.Asleep? then dt else 0.0), punctual)
  {
  }

  lemma {:induction false} ExitIsAccounted(cfg: Setup, l: Alone, slept: real, punctual: bool, how: WorkerExit)
    requires cfg.Valid() && Story(cfg, l) && Accounted(cfg, l, slept, punctual) && CanDo(l, Acts(Exit(how)))
    ensures Accounted(cfg, Do(cfg, l, Acts(Exit(how))), slept, punctual)
  {
    Append(l.task.trace, Exited(how));
    DelayBounds(cfg.backoff, l.status.restarts);
  }

  lemma {:induction false} WakeIsAccounted(cfg: Setup, l: Alone, slept: real, punctual: bool)
    requires cfg.Valid() && Story(cfg, l) && Accounted(cfg, l, slept, punctual) && CanDo(l, Acts(Wake))
    ensures Accounted(cfg, Do(cfg, l, Acts(Wake)), slept, punctual)
  {
    TraceOfWake(l.task.trace);
  }

  lemma {:induction false} ActIsAccounted(cfg: Setup, l: Alone, slept: real, punctual: bool, a: Act)
    requires cfg.Valid() && Story(cfg, l) && Accounted(cfg, l, slept, punctual) && CanDo(l, Acts(a))
    ensures Accounted(cfg, Do(cfg, l, Acts(a)), slept, punctual)
  {
    match a
    case Exit(how) => ExitIsAccounted(cfg, l, slept, punctual, how);
    case Wake => WakeIsAccounted(cfg, l, slept, punctual);
    case Begin => Append(l.task.trace, Ran);
    case _ =>
  }

  lemma {:induction false} LivesAreAccounted(cfg: Setup, l: Alone, ps: seq<Part>, slept: real, punctual: bool)
    requires cfg.Valid() && CanLive(cfg, l, ps) && Story(cfg, l) && Accounted(cfg, l, slept, punctual)
    requires punctual ==> Punctual(cfg, l, ps)
    ensures Story(cfg, Lived(cfg, l, ps))
    ensures Accounted(cfg, Lived(cfg, l, ps), slept + AsleepFor(cfg, l, ps), punctual)
    decreases |ps|
  {
    if ps != [] {
      var l' := Do(cfg, l, ps[0]);
      match ps[0] {
        case Passes(dt) =>
          TimeIsAccounted(cfg, l, slept, punctual, dt);
          LivesAreAccounted(cfg, l', ps[1..], slept + (if l.task.phase.Asleep? then dt else 0.0), punctual);
        case Acts(a) =>
          ActIsAccounted(cfg, l, slept, punctual, a);
          ActsKeepTheStory(cfg, Worker(l.task, l.status), l.now, true, a);
          LivesAreAccounted(cfg, l', ps[1..], slept, punctual);
      }
    }
  }

  lemma {:induction false} TimeIsSleepOrNot(cfg: Setup, l: Alone, ps: seq<Part>)
    requires cfg.Valid() && CanLive(cfg, l, ps)
    ensures Lived(cfg, l, ps).now == l.now + AsleepFor(cfg, l, ps) + AwakeFor(cfg, l, ps)
    decreases |ps|
  {
    if ps != [] {
      TimeIsSleepOrNot(cfg, Do(cfg, l, ps[0]), ps[1..]);
    }
  }

  /** The `n`-th restart of a new supervisor comes at least the first `n` delays
      later than the time that it spent awake; and exactly so, if due timers fire at
      once. */
  lemma {:induction false} RestartsOfOneLife(cfg: Setup, name: string, born: real, ps: seq<Part>)
    requires cfg.Valid() && CanLive(cfg, Alone(NewTask(name, born), FRESH_STATUS, born), ps)
    ensures var l := Alone(NewTask(name, born), FRESH_STATUS, born);
            var e := Lived(cfg, l, ps);
            var waited, owed := e.now - born - AwakeFor(cfg, l, ps), TotalDelay(cfg.backoff, CountSlept(e.task.trace));
            e.task.phase.InRunner? ==> waited >= owed && (Punctual(cfg, l, ps) ==> waited == owed)
  {
    var l := Alone(NewTask(name, born), FRESH_STATUS, born);
    TimeIsSleepOrNot(cfg, l, ps);
    LivesAreAccounted(cfg, l, ps, 0.0, Punctual(cfg, l, ps));
  }

  /** The same inside a run: after the effective `start` of the reachable state `s`
      and before any `stop` gets the lock. */
  lemma {:induction false} RestartsComeOnTime(cfg: Setup, s: Runtime, n: string, es: seq<Event>)
    requires cfg.Valid() && Reachable(cfg, s) && n in cfg.place
    requires Enabled(s, Grant) && s.queue[0].StartCall? && !s.started
    requires ValidRun(cfg, Next(cfg, s, Grant), es) && NoStopGranted(cfg, Next(cfg, s, Grant), es)
    ensures var s1, t := Next(cfg, s, Grant), Final(cfg, Next(cfg, s, Grant), es);
            n in s1.tasks &&
            var i := s1.tasks[n];
            i < |s1.pool| && s1.pool[i].name in s1.statuses && i < |t.pool| &&
            CanLive(cfg, View(s1, i), Project(es, i)) &&
            var waited := t.now - s1.now - AwakeFor(cfg, View(s1, i), Project(es, i));
            var owed := TotalDelay(cfg.backoff, CountSlept(t.pool[i].trace));
            t.pool[i].phase.InRunner? ==>
              waited >= owed && (Punctual(cfg, View(s1, i), Project(es, i)) ==> waited == owed)
  {
    var s0 := s.(queue := s.queue[1..], granted := s.granted + [s.queue[0]]);
    ReachableInv(cfg, s);
    QueueingKeepsInv(cfg, s, s0.queue, s0.granted);
    LaunchInv(cfg, s0);
    LaunchShape(cfg, s0);
    var s1 := Next(cfg, s, Grant);
    assert WorkerOf(s1, n) == Worker(NewTask(n, s.now), FRESH_STATUS);
    RunsProject(cfg, s1, es, s1.tasks[n]);
    RestartsOfOneLife(cfg, n, s.now, Project(es, s1.tasks[n]));
  }
}
