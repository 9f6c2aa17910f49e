/**
 What holds at every await point of every run: one supervisor per name, the
 meaning of `_started` and `_tasks`, and the agreement of each status with the
 history of its worker.
 */
module SupervisionSafety {
  import opened Options
  import opened Backoff
  import opened Supervision

  // ----- the history of one worker -----

  /** Traces are prefixes of run, exit, sleep, run, exit, sleep, ... */
  ghost predicate Fits(k: nat, m: Mark) {
    match m
    case Ran => k % 3 == 0
    case Exited(_) => k % 3 == 1
    case Slept => k % 3 == 2
  }

  ghost predicate CyclePrefix(trace: seq<Mark>) {
    forall k :: 0 <= k < |trace| ==> Fits(k, trace[k])
  }

  function CountExits(trace: seq<Mark>): nat {
    if trace == [] then 0
    else CountExits(trace[..|trace| - 1]) + if trace[|trace| - 1].Exited? then 1 else 0
  }

  function CountSlept(trace: seq<Mark>): nat {
    if trace == [] then 0
    else CountSlept(trace[..|trace| - 1]) + if trace[|trace| - 1].Slept? then 1 else 0
  }

  function LatestExit(trace: seq<Mark>): Option<WorkerExit> {
    if trace == [] then None
    else if trace[|trace| - 1].Exited? then Some(trace[|trace| - 1].how)
    else LatestExit(trace[..|trace| - 1])
  }

  lemma {:induction false} Append(trace: seq<Mark>, m: Mark)
    ensures CountExits(trace + [m]) == CountExits(trace) + if m.Exited? then 1 else 0
    ensures CountSlept(trace + [m]) == CountSlept(trace) + if m.Slept? then 1 else 0
    ensures LatestExit(trace + [m]) == if m.Exited? then Some(m.how) else LatestExit(trace)
    ensures CyclePrefix(trace) && Fits(|trace|, m) ==> CyclePrefix(trace + [m])
  {
    assert (trace + [m])[..|trace|] == trace;
  }

  function StateOf(p: Phase): WorkerState {
    match p
    case Created => Starting
    case InRunner => Running
    case Asleep(_) => Waiting
    case Done => Stopped
  }

  /** The status of a worker tells the story of its current supervisor. */
  ghost predicate TellsTheStory(cfg: Setup, w: Worker, now: real, stopping: bool)
    requires cfg.Valid()
  {
    var t, st := w.task, w.status;
    && CyclePrefix(t.trace)
    && st.restarts == CountExits(t.trace)
    && st.lastExit == LatestExit(t.trace)
    && (st.lastExit.Some? <==> st.restarts > 0)
    && (st.state == StateOf(t.phase) || (stopping && st.state == Stopping))
    && (t.phase.Created? && t.cancelled ==> st.state == Stopping)
    && (st.nextRetry.Some? <==> t.phase.Asleep?)
    && t.born + TotalDelay(cfg.backoff, CountSlept(t.trace)) <= now
    && match t.phase
       case Created => t.trace == []
       case InRunner => |t.trace| % 3 == 1 && CountSlept(t.trace) == st.restarts
       case Asleep(wake) =>
         && |t.trace| % 3 == 2
         && CountSlept(t.trace) + 1 == st.restarts
         && st.nextRetry == Some(Delay(cfg.backoff, st.restarts - 1))
         && t.born + TotalDelay(cfg.backoff, st.restarts) <= wake
       case Done => true
  }

  lemma {:induction false} TraceOfWake(trace: seq<Mark>)
    requires CyclePrefix(trace) && |trace| % 3 == 2
    ensures var t := trace + [Slept, Ran];
            && CyclePrefix(t) && |t| % 3 == 1
            && CountExits(t) == CountExits(trace)
            && CountSlept(t) == CountSlept(trace) + 1
            && LatestExit(t) == LatestExit(trace)
  {
    Append(trace, Slept);
    Append(trace + [Slept], Ran);
    assert trace + [Slept, Ran] == trace + [Slept] + [Ran];
  }

  lemma {:induction false} WakeKeepsTheStory(cfg: Setup, w: Worker, now: real, stopping: bool)
    requires cfg.Valid() && TellsTheStory(cfg, w, now, stopping) && CanAct(w.task, now, Wake)
    ensures TellsTheStory(cfg, Doing(cfg, w, now, Wake), now, stopping)
  {
    TraceOfWake(w.task.trace);
  }

  lemma {:induction false} ExitKeepsTheStory(cfg: Setup, w: Worker, now: real, stopping: bool, how: WorkerExit)
    requires cfg.Valid() && TellsTheStory(cfg, w, now, stopping) && CanAct(w.task, now, Exit(how))
    ensures TellsTheStory(cfg, Doing(cfg, w, now, Exit(how)), now, stopping)
  {
    Append(w.task.trace, Exited(how));
  }

  lemma {:induction false} BeginKeepsTheStory(cfg: Setup, w: Worker, now: real, stopping: bool)
    requires cfg.Valid() && TellsTheStory(cfg, w, now, stopping) && CanAct(w.task, now, Begin)
    ensures TellsTheStory(cfg, Doing(cfg, w, now, Begin), now, stopping)
  {
    Append(w.task.trace, Ran);
  }

  lemma {:induction false} ActsKeepTheStory(cfg: Setup, w: Worker, now: real, stopping: bool, a: Act)
    requires cfg.Valid() && TellsTheStory(cfg, w, now, stopping) && CanAct(w.task, now, a)
    ensures TellsTheStory(cfg, Doing(cfg, w, now, a), now, stopping)
  {
    match a
    case Begin => BeginKeepsTheStory(cfg, w, now, stopping);
    case Exit(how) => ExitKeepsTheStory(cfg, w, now, stopping, how);
    case Wake => WakeKeepsTheStory(cfg, w, now, stopping);
    case Swallow =>
    case Unwind =>
    case Cancel =>
  }

  // ----- the whole runtime -----

  ghost predicate Shape(cfg: Setup, s: Runtime) {
    && s.statuses.Keys == cfg.place.Keys
    && s.tasks.Keys <= cfg.place.Keys
    && (forall n :: n in s.tasks ==> s.tasks[n] < |s.pool| && s.pool[s.tasks[n]].name == n)
  }

  /** No supervisor outlives its entry in `_tasks`. */
  ghost predicate LiveIsCurrent(s: Runtime) {
    forall i :: 0 <= i < |s.pool| && s.pool[i].Live() ==> IsCurrent(s, i)
  }

  ghost predicate Modes(cfg: Setup, s: Runtime)
    requires Shape(cfg, s)
  {
    && (s.started ==>
          && s.lock.Free?
          && !s.dirty
          && s.tasks.Keys == cfg.place.Keys
          && (forall n :: n in s.tasks ==> !s.pool[s.tasks[n]].cancelled))
    && (s.lock.Held? ==>
          && !s.started
          && !s.dirty
          && s.tasks.Keys == cfg.place.Keys
          && (forall n :: n in s.tasks && s.pool[s.tasks[n]].phase.Created? ==> s.pool[s.tasks[n]].cancelled))
    && (!s.started && s.lock.Free? ==>
          && (forall i :: 0 <= i < |s.pool| ==> !s.pool[i].Live())
          && (if s.dirty then s.tasks.Keys == cfg.place.Keys else s.tasks == map[] && AllAtRest(s)))
  }

  ghost predicate AllAtRest(s: Runtime) {
    forall n :: n in s.statuses ==> s.statuses[n].state == Stopped && s.statuses[n].nextRetry == None
  }

  function WorkerOf(s: Runtime, n: string): Worker
    requires n in s.tasks && s.tasks[n] < |s.pool| && n in s.statuses
  {
    Worker(s.pool[s.tasks[n]], s.statuses[n])
  }

  ghost predicate Stories(cfg: Setup, s: Runtime)
    requires cfg.Valid() && Shape(cfg, s)
  {
    forall n :: n in s.tasks ==> TellsTheStory(cfg, WorkerOf(s, n), s.now, !s.started)
  }

  ghost predicate Control(cfg: Setup, s: Runtime) {
    Shape(cfg, s) && LiveIsCurrent(s) && Modes(cfg, s)
  }

  ghost predicate Inv(cfg: Setup, s: Runtime)
    requires cfg.Valid()
  {
    Control(cfg, s) && Stories(cfg, s)
  }

  lemma {:induction false} InitialInv(cfg: Setup, now: real)
    requires cfg.Valid()
    ensures Inv(cfg, Initial(cfg, now))
  {
  }

  lemma {:induction false} ActFrame(cfg: Setup, w: Worker, now: real, a: Act)
    requires cfg.Valid() && CanAct(w.task, now, a)
    ensures var t := Doing(cfg, w, now, a).task;
            t.name == w.task.name && !t.phase.Created? && (t.cancelled ==> w.task.cancelled)
  {
  }

  /** A step rewrites one place of the pool, and leaves its name there. */
  lemma {:induction false} StepPool(cfg: Setup, s: Runtime, i: nat, a: Act)
    requires cfg.Valid() && Enabled(s, Step(i, a))
    ensures var s' := Next(cfg, s, Step(i, a));
            && s' == s.(pool := s'.pool, statuses := s'.statuses)
            && s'.statuses.Keys == s.statuses.Keys
            && |s'.pool| == |s.pool|
            && (forall k :: 0 <= k < |s.pool| && k != i ==> s'.pool[k] == s.pool[k])
            && s.pool[i].Live()
            && s'.pool[i].name == s.pool[i].name
            && !s'.pool[i].phase.Created?
            && (s'.pool[i].cancelled ==> s.pool[i].cancelled)
  {
    ActFrame(cfg, Worker(s.pool[i], s.statuses[s.pool[i].name]), s.now, a);
  }

  lemma {:induction false} StepControl(cfg: Setup, s: Runtime, i: nat, a: Act)
    requires cfg.Valid() && Control(cfg, s) && Enabled(s, Step(i, a))
    ensures Control(cfg, Next(cfg, s, Step(i, a)))
  {
    var s' := Next(cfg, s, Step(i, a));
    StepPool(cfg, s, i, a);
    assert IsCurrent(s, i);
    forall k | 0 <= k < |s'.pool| && s'.pool[k].Live() ensures IsCurrent(s', k) {
      assert IsCurrent(s, k);
    }
  }

  /** A step changes one worker, and that one as `Doing` says. */
  lemma {:induction false} StepWorkers(cfg: Setup, s: Runtime, i: nat, a: Act)
    requires cfg.Valid() && Shape(cfg, s) && IsCurrent(s, i) && Enabled(s, Step(i, a))
    ensures var s' := Next(cfg, s, Step(i, a));
            var name := s.pool[i].name;
            && Shape(cfg, s')
            && name in s.tasks && s.tasks[name] == i
            && CanAct(WorkerOf(s, name).task, s.now, a)
            && WorkerOf(s', name) == Doing(cfg, WorkerOf(s, name), s.now, a)
            && forall n :: n in s.tasks && n != name ==> WorkerOf(s', n) == WorkerOf(s, n)
  {
    StepPool(cfg, s, i, a);
  }

  /** Only one worker's story needs to be told again after its step. */
  lemma {:induction false} StoryOfOne(cfg: Setup, s: Runtime, s': Runtime, name: string, w: Worker)
    requires cfg.Valid() && Shape(cfg, s) && Stories(cfg, s) && Shape(cfg, s')
    requires s'.tasks == s.tasks && s'.now == s.now && s'.started == s.started
    requires name in s.tasks && WorkerOf(s', name) == w
    requires forall n :: n in s.tasks && n != name ==> WorkerOf(s', n) == WorkerOf(s, n)
    requires TellsTheStory(cfg, w, s.now, !s.started)
    ensures Stories(cfg, s')
  {
  }

  lemma {:induction false} StepInv(cfg: Setup, s: Runtime, i: nat, a: Act)
    requires cfg.Valid() && Inv(cfg, s) && Enabled(s, Step(i, a))
    ensures Inv(cfg, Next(cfg, s, Step(i, a)))
  {
    var s' := Next(cfg, s, Step(i, a));
    var name := s.pool[i].name;
    StepControl(cfg, s, i, a);
    StepWorkers(cfg, s, i, a);
    assert Stories(cfg, s') by {
      StoryOfNamed(cfg, s, name);
      ActsKeepTheStory(cfg, WorkerOf(s, name), s.now, !s.started, a);
      StoryOfOne(cfg, s, s', name, Doing(cfg, WorkerOf(s, name), s.now, a));
    }
  }

  lemma {:induction false} StoryOfNamed(cfg: Setup, s: Runtime, name: string)
    requires cfg.Valid() && Shape(cfg, s) && Stories(cfg, s) && name in s.tasks
    ensures TellsTheStory(cfg, WorkerOf(s, name), s.now, !s.started)
  {
  }

  lemma {:induction false} LaunchShape(cfg: Setup, s: Runtime)
    requires cfg.Valid()
    ensures Shape(cfg, Launch(cfg, s))
    ensures forall n :: n in cfg.place ==> WorkerOf(Launch(cfg, s), n) == Worker(NewTask(n, s.now), FRESH_STATUS)
  {
    var s' := Launch(cfg, s);
    forall n | n in cfg.place ensures s'.pool[s'.tasks[n]] == NewTask(n, s.now) {
      assert s'.pool[|s.pool| + cfg.place[n]] == NewTasks(cfg, s.now)[cfg.place[n]];
    }
  }

  lemma {:induction false} LaunchedIsCurrent(cfg: Setup, s: Runtime, i: nat)
    requires cfg.Valid() && |s.pool| <= i < |s.pool| + |cfg.names|
    ensures IsCurrent(Launch(cfg, s), i)
  {
    assert Launch(cfg, s).pool[i] == NewTasks(cfg, s.now)[i - |s.pool|];
  }

  lemma {:induction false} LaunchControl(cfg: Setup, s: Runtime)
    requires cfg.Valid() && Control(cfg, s) && !s.started && s.lock.Free?
    ensures Control(cfg, Launch(cfg, s))
  {
    LaunchShape(cfg, s);
    var s' := Launch(cfg, s);
    forall i | 0 <= i < |s'.pool| && s'.pool[i].Live() ensures IsCurrent(s', i) {
      LaunchedIsCurrent(cfg, s, i);
    }
    forall n | n in s'.tasks ensures !s'.pool[s'.tasks[n]].cancelled {
      assert WorkerOf(s', n).task == NewTask(n, s.now);
    }
  }

  lemma {:induction false} LaunchInv(cfg: Setup, s: Runtime)
    requires cfg.Valid() && Inv(cfg, s) && !s.started && s.lock.Free?
    ensures Inv(cfg, Launch(cfg, s))
  {
    LaunchControl(cfg, s);
    LaunchShape(cfg, s);
    var s' := Launch(cfg, s);
    forall n | n in s'.tasks ensures TellsTheStory(cfg, WorkerOf(s', n), s'.now, !s'.started) {
      assert WorkerOf(s', n) == Worker(NewTask(n, s.now), FRESH_STATUS);
    }
  }

  /** Cancelling a task only marks it. */
  lemma {:induction false} CancelTasksFrame(cfg: Setup, s: Runtime, s': Runtime)
    requires Shape(cfg, s) && LiveIsCurrent(s)
    requires s'.pool == CancelTasks(s) && s'.tasks == s.tasks && s'.statuses.Keys == s.statuses.Keys
    ensures Shape(cfg, s') && LiveIsCurrent(s')
    ensures forall n :: n in s.tasks ==> s'.pool[s.tasks[n]] == Cancelled(s.pool[s.tasks[n]])
  {
    forall n | n in s.tasks ensures s'.pool[s.tasks[n]] == Cancelled(s.pool[s.tasks[n]]) {
      assert IsCurrent(s, s.tasks[n]);
    }
    forall i | 0 <= i < |s'.pool| && s'.pool[i].Live() ensures IsCurrent(s', i) {
      assert IsCurrent(s, i);
    }
  }

  lemma {:induction false} CancelKeepsTheStory(cfg: Setup, w: Worker, now: real, st: WorkerState)
    requires cfg.Valid() && TellsTheStory(cfg, w, now, true)
    requires st == Stopping || (st == w.status.state && !w.task.phase.Created?)
    ensures TellsTheStory(cfg, Worker(Cancelled(w.task), w.status.(state := st)), now, true)
  {
  }

  lemma {:induction false} StoryWhenStopping(cfg: Setup, w: Worker, now: real, stopping: bool)
    requires cfg.Valid() && TellsTheStory(cfg, w, now, stopping)
    ensures TellsTheStory(cfg, w, now, true)
    ensures w.task.phase.Created? && w.task.cancelled ==> w.status.state == Stopping
  {
  }

  lemma {:induction false} RequestStopControl(cfg: Setup, s: Runtime)
    requires cfg.Valid() && Control(cfg, s) && s.started
    ensures Control(cfg, RequestStop(s))
  {
    CancelTasksFrame(cfg, s, RequestStop(s));
  }

  lemma {:induction false} AbortStopControl(cfg: Setup, s: Runtime)
    requires cfg.Valid() && Control(cfg, s) && s.lock.Held?
    ensures Control(cfg, Next(cfg, s, AbortStop))
  {
    CancelTasksFrame(cfg, s, Next(cfg, s, AbortStop));
  }

  /** The worker `n` after a cancellation that set its state to `st`. */
  lemma {:induction false} CancelledStory(cfg: Setup, s: Runtime, s': Runtime, n: string, st: WorkerState)
    requires cfg.Valid() && Shape(cfg, s) && Stories(cfg, s) && Shape(cfg, s') && n in s.tasks
    requires s'.tasks == s.tasks && s'.now == s.now
    requires WorkerOf(s', n) == Worker(Cancelled(WorkerOf(s, n).task), s.statuses[n].(state := st))
    requires st == Stopping || (st == s.statuses[n].state && !WorkerOf(s, n).task.phase.Created?)
    ensures TellsTheStory(cfg, WorkerOf(s', n), s'.now, true)
  {
    StoryOfNamed(cfg, s, n);
    StoryWhenStopping(cfg, WorkerOf(s, n), s.now, !s.started);
    CancelKeepsTheStory(cfg, WorkerOf(s, n), s.now, st);
  }

  lemma {:induction false} RequestStopInv(cfg: Setup, s: Runtime)
    requires cfg.Valid() && Inv(cfg, s) && s.started
    ensures Inv(cfg, RequestStop(s))
  {
    var s' := RequestStop(s);
    RequestStopControl(cfg, s);
    CancelTasksFrame(cfg, s, s');
    forall n | n in s'.tasks ensures TellsTheStory(cfg, WorkerOf(s', n), s'.now, true) {
      CancelledStory(cfg, s, s', n, Stopping);
    }
  }

  lemma {:induction false} UnstartedIsMarked(cfg: Setup, s: Runtime, n: string)
    requires cfg.Valid() && Inv(cfg, s) && s.lock.Held? && n in s.tasks
    ensures WorkerOf(s, n).task.phase.Created? ==> s.statuses[n].state == Stopping
  {
    StoryOfNamed(cfg, s, n);
    StoryWhenStopping(cfg, WorkerOf(s, n), s.now, true);
  }

  lemma {:induction false} AbortStopInv(cfg: Setup, s: Runtime)
    requires cfg.Valid() && Inv(cfg, s) && s.lock.Held?
    ensures Inv(cfg, Next(cfg, s, AbortStop))
  {
    var s' := Next(cfg, s, AbortStop);
    AbortStopControl(cfg, s);
    CancelTasksFrame(cfg, s, s');
    forall n | n in s'.tasks ensures TellsTheStory(cfg, WorkerOf(s', n), s'.now, true) {
      UnstartedIsMarked(cfg, s, n);
      CancelledStory(cfg, s, s', n, s.statuses[n].state);
    }
  }

  lemma {:induction false} GatheredInv(cfg: Setup, s: Runtime)
    requires cfg.Valid() && Inv(cfg, s) && Enabled(s, Gathered)
    ensures Inv(cfg, Next(cfg, s, Gathered))
  {
    var s' := Next(cfg, s, Gathered);
    assert forall i :: 0 <= i < |s.pool| && s.pool[i].Live() ==> IsCurrent(s, i);
    if s.lock.aborted {
      forall n | n in s'.tasks ensures TellsTheStory(cfg, WorkerOf(s', n), s'.now, true) {
        assert WorkerOf(s', n) == WorkerOf(s, n);
      }
    }
  }

  lemma {:induction false} TickInv(cfg: Setup, s: Runtime, dt: real)
    requires cfg.Valid() && Inv(cfg, s) && dt >= 0.0
    ensures Inv(cfg, Next(cfg, s, Tick(dt)))
  {
    var s' := Next(cfg, s, Tick(dt));
    forall n | n in s'.tasks ensures TellsTheStory(cfg, WorkerOf(s', n), s'.now, !s'.started) {
      assert WorkerOf(s', n) == WorkerOf(s, n);
    }
  }

  lemma {:induction false} QueueingKeepsInv(cfg: Setup, s: Runtime, queue: seq<Call>, granted: seq<Call>)
    requires cfg.Valid() && Inv(cfg, s)
    ensures Inv(cfg, s.(queue := queue, granted := granted))
  {
    var s' := s.(queue := queue, granted := granted);
    forall n | n in s'.tasks ensures TellsTheStory(cfg, WorkerOf(s', n), s'.now, !s'.started) {
      assert WorkerOf(s', n) == WorkerOf(s, n);
    }
  }

  lemma {:induction false} NextInv(cfg: Setup, s: Runtime, e: Event)
    requires cfg.Valid() && Inv(cfg, s) && Enabled(s, e)
    ensures Inv(cfg, Next(cfg, s, e))
  {
    match e
    case Arrive(call) => QueueingKeepsInv(cfg, s, s.queue + [call], s.granted);
    case Grant =>
      var s0 := s.(queue := s.queue[1..], granted := s.granted + [s.queue[0]]);
      QueueingKeepsInv(cfg, s, s0.queue, s0.granted);
      if s.queue[0].StartCall? && !s.started {
        LaunchInv(cfg, s0);
      } else if s.queue[0].StopCall? && s.started {
        RequestStopInv(cfg, s0);
      }
    case Step(i, a) => StepInv(cfg, s, i, a);
    case Tick(dt) => TickInv(cfg, s, dt);
    case Gathered => GatheredInv(cfg, s);
    case AbortStop => AbortStopInv(cfg, s);
  }

  /** Everything below holds at every await point because of this. */
  lemma {:induction false} RunsKeepInv(cfg: Setup, s: Runtime, es: seq<Event>)
    requires cfg.Valid() && Inv(cfg, s) && ValidRun(cfg, s, es)
    ensures Inv(cfg, Final(cfg, s, es))
    decreases |es|
  {
    if es != [] {
      NextInv(cfg, s, es[0]);
      RunsKeepInv(cfg, Next(cfg, s, es[0]), es[1..]);
    }
  }
}
