/**
 The embedded worker runtime as a step machine over its await points.  The code
 between two awaits is one event.

 What the environment may do: any number of callers ask to `start` or `stop`;
 a runner returns, raises, lets a cancellation through, swallows one, or raises
 `CancelledError` unasked; timers fire at or after their deadline; the caller
 of `stop` may be cancelled while it waits in `gather`.  Nobody but `stop`
 cancels a supervisor.
 */
module Supervision {
  import opened Options
  import opened Backoff

  /** "starting", "running", "backoff", "stopping", "stopped". */
  datatype WorkerState = Starting | Running | Waiting | Stopping | Stopped
  datatype WorkerExit = ByException | ByReturn
  datatype Status = Status(state: WorkerState, restarts: nat, lastExit: Option<WorkerExit>, nextRetry: Option<real>)

  /** Where a supervisor task is suspended. */
  datatype Phase = Created | InRunner | Asleep(wake: real) | Done

  /** What a supervisor has lived through, oldest first. */
  datatype Mark = Ran | Exited(how: WorkerExit) | Slept

  /** A supervisor task.  `cancelled` is a cancellation not yet taken by the
      code it was sent to. */
  datatype Task = Task(name: string, phase: Phase, cancelled: bool, born: real, trace: seq<Mark>) {
    predicate Live() { !phase.Done? }
  }

  /** The runners, in the order of their dictionary, and where each name stands
      in that order. */
  datatype Setup = Setup(names: seq<string>, place: map<string, nat>, backoff: Config) {
    ghost predicate Valid() {
      && names != []
      && (forall i :: 0 <= i < |names| ==> names[i] in place && place[names[i]] == i)
      && (forall n :: n in place ==> place[n] < |names| && names[place[n]] == n)
      && backoff.Valid()
    }
  }

  datatype Call = StartCall | StopCall

  /** `Held` while a `stop` waits in `gather`; `aborted` once its caller has
      been cancelled there. */
  datatype Lock = Free | Held(aborted: bool)

  /** `pool` holds every supervisor task ever created, `tasks` the entries of
      `_tasks`.  `granted` is the history of lock acquisitions and `dirty` says
      that the last stop was aborted. */
  datatype Runtime = Runtime(
    started: bool, tasks: map<string, nat>, statuses: map<string, Status>,
    pool: seq<Task>, lock: Lock, queue: seq<Call>, granted: seq<Call>, dirty: bool, now: real)

  // ----- one supervisor -----

  /** What a supervisor does between two awaits. */
  datatype Act =
    | Begin                  // the first step of a task
    | Exit(how: WorkerExit)  // the runner returns or raises an Exception
    | Swallow                // the runner absorbs a cancellation and goes on
    | Unwind                 // CancelledError leaves the runner
    | Wake                   // the backoff timer fires
    | Cancel                 // CancelledError is thrown at an unstarted or sleeping task

  datatype Worker = Worker(task: Task, status: Status)

  predicate CanAct(t: Task, now: real, a: Act) {
    match a
    case Begin => t.phase.Created? && !t.cancelled
    case Exit(_) => t.phase.InRunner?
    case Swallow => t.phase.InRunner? && t.cancelled
    case Unwind => t.phase.InRunner?
    case Wake => t.phase.Asleep? && !t.cancelled && t.phase.wake <= now
    case Cancel => t.cancelled && (t.phase.Created? || t.phase.Asleep?)
  }

  const FRESH_STATUS := Status(Starting, 0, None, None)

  function AtRest(st: Status): Status {
    st.(state := Stopped, nextRetry := None)
  }

  function Doing(cfg: Setup, w: Worker, now: real, a: Act): Worker
    requires cfg.Valid()
  {
    match a
    case Begin =>
      Worker(w.task.(phase := InRunner, trace := w.task.trace + [Ran]), w.status.(state := Running, nextRetry := None))
    case Wake =>
      Worker(w.task.(phase := InRunner, trace := w.task.trace + [Slept, Ran]),
             w.status.(state := Running, nextRetry := None))
    case Exit(how) =>
      var d := Delay(cfg.backoff, w.status.restarts);
      Worker(w.task.(phase := Asleep(now + d), cancelled := false, trace := w.task.trace + [Exited(how)]),
             Status(Waiting, w.status.restarts + 1, Some(how), Some(d)))
    case Swallow =>
      Worker(w.task.(cancelled := false), w.status)
    case Unwind =>
      Worker(w.task.(phase := Done), AtRest(w.status))
    case Cancel =>
      // a task cancelled before its first step never enters the try block
      Worker(w.task.(phase := Done), if w.task.phase.Created? then w.status else AtRest(w.status))
  }

  // ----- the whole runtime -----

  datatype Event =
    | Arrive(call: Call)
    | Grant
    | Step(task: nat, act: Act)
    | Tick(dt: real)
    | Gathered
    | AbortStop

  function NewTask(n: string, now: real): Task {
    Task(n, Created, false, now, [])
  }

  /** A fresh task per runner, in their order. */
  function NewTasks(cfg: Setup, now: real): (p: seq<Task>)
    ensures |p| == |cfg.names|
    ensures forall i :: 0 <= i < |p| ==> p[i] == NewTask(cfg.names[i], now)
  {
    seq(|cfg.names|, i requires 0 <= i < |cfg.names| => NewTask(cfg.names[i], now))
  }

  /** Where the new tasks stand in the pool. */
  function Places(cfg: Setup, first: nat): (m: map<string, nat>)
    ensures m.Keys == cfg.place.Keys
    ensures forall n :: n in m ==> m[n] == first + cfg.place[n]
  {
    map n | n in cfg.place :: first + cfg.place[n]
  }

  function AllFresh(cfg: Setup): (m: map<string, Status>)
    ensures m.Keys == cfg.place.Keys
    ensures forall n :: n in m ==> m[n] == FRESH_STATUS
  {
    map n | n in cfg.place :: FRESH_STATUS
  }

  /** `start` after the lock: one new supervisor and a reset status per runner. */
  function Launch(cfg: Setup, s: Runtime): Runtime {
    s.(started := true,
       dirty := false,
       tasks := Places(cfg, |s.pool|),
       statuses := AllFresh(cfg),
       pool := s.pool + NewTasks(cfg, s.now))
  }

  predicate IsCurrent(s: Runtime, i: nat) {
    i < |s.pool| && s.pool[i].name in s.tasks && s.tasks[s.pool[i].name] == i
  }

  /** `task.cancel()`: a no-op on a finished task. */
  function Cancelled(t: Task): Task {
    if t.Live() then t.(cancelled := true) else t
  }

  /** `task.cancel()` on every entry of `_tasks`. */
  function CancelTasks(s: Runtime): (p: seq<Task>)
    ensures |p| == |s.pool|
    ensures forall i :: 0 <= i < |p| ==> p[i] == if IsCurrent(s, i) then Cancelled(s.pool[i]) else s.pool[i]
  {
    seq(|s.pool|, i requires 0 <= i < |s.pool| => if IsCurrent(s, i) then Cancelled(s.pool[i]) else s.pool[i])
  }

  function MarkStopping(tasks: map<string, nat>, m: map<string, Status>): (r: map<string, Status>)
    ensures r.Keys == m.Keys
    ensures forall n :: n in m ==> r[n] == if n in tasks then m[n].(state := Stopping) else m[n]
  {
    map n | n in m :: if n in tasks then m[n].(state := Stopping) else m[n]
  }

  function RestAll(m: map<string, Status>): (r: map<string, Status>)
    ensures r.Keys == m.Keys
    ensures forall n :: n in m ==> r[n] == AtRest(m[n])
  {
    map n | n in m :: AtRest(m[n])
  }

  /** `stop` after the lock, up to `gather`. */
  function RequestStop(s: Runtime): Runtime {
    s.(started := false, lock := Held(false), statuses := MarkStopping(s.tasks, s.statuses), pool := CancelTasks(s))
  }

  /** `stop` after `gather`. */
  function FinishStop(s: Runtime): Runtime {
    s.(lock := Free, tasks := map[], statuses := RestAll(s.statuses))
  }

  function Run(cfg: Setup, s: Runtime, call: Call): Runtime {
    match call
    case StartCall => if s.started then s else Launch(cfg, s)
    case StopCall => if s.started then RequestStop(s) else s
  }

  predicate AllDone(s: Runtime) {
    forall n :: n in s.tasks ==> s.tasks[n] < |s.pool| && !s.pool[s.tasks[n]].Live()
  }

  predicate Enabled(s: Runtime, e: Event) {
    match e
    case Arrive(_) => true
    case Grant => s.lock.Free? && s.queue != []
    case Step(i, a) => i < |s.pool| && s.pool[i].name in s.statuses && CanAct(s.pool[i], s.now, a)
    case Tick(dt) => dt >= 0.0
    case Gathered => s.lock.Held? && AllDone(s)
    case AbortStop => s.lock.Held?
  }

  function Next(cfg: Setup, s: Runtime, e: Event): Runtime
    requires cfg.Valid() && Enabled(s, e)
  {
    match e
    case Arrive(call) => s.(queue := s.queue + [call])
    case Grant =>
      Run(cfg, s.(queue := s.queue[1..], granted := s.granted + [s.queue[0]]), s.queue[0])
    case Step(i, a) =>
      var name := s.pool[i].name;
      var w := Doing(cfg, Worker(s.pool[i], s.statuses[name]), s.now, a);
      s.(pool := s.pool[i := w.task], statuses := s.statuses[name := w.status])
    case Tick(dt) => s.(now := s.now + dt)
    case Gathered =>
      // a cancelled gather still waits for every child, then raises out of stop
      if s.lock.aborted then s.(lock := Free, dirty := true) else FinishStop(s)
    case AbortStop =>
      s.(lock := Held(true), pool := CancelTasks(s))
  }

  function Unstarted(cfg: Setup): (m: map<string, Status>)
    ensures m.Keys == cfg.place.Keys
    ensures forall n :: n in m ==> m[n] == Status(Stopped, 0, None, None)
  {
    map n | n in cfg.place :: Status(Stopped, 0, None, None)
  }

  function Initial(cfg: Setup, now: real): Runtime {
    Runtime(false, map[], Unstarted(cfg), [], Free, [], [], false, now)
  }

  /** `gather` has not returned yet. */
  ghost predicate NotGathered(es: seq<Event>) {
    forall k :: 0 <= k < |es| ==> !es[k].Gathered?
  }

  /** Nobody who calls `stop` is cancelled while it waits. */
  ghost predicate NoAbort(es: seq<Event>) {
    forall k :: 0 <= k < |es| ==> !es[k].AbortStop?
  }

  ghost predicate ValidRun(cfg: Setup, s: Runtime, es: seq<Event>)
    requires cfg.Valid()
    decreases |es|
  {
    es == [] || (Enabled(s, es[0]) && ValidRun(cfg, Next(cfg, s, es[0]), es[1..]))
  }

  ghost function Final(cfg: Setup, s: Runtime, es: seq<Event>): Runtime
    requires cfg.Valid() && ValidRun(cfg, s, es)
    decreases |es|
  {
    if es == [] then s else Final(cfg, Next(cfg, s, es[0]), es[1..])
  }

  lemma {:induction false} RunsCompose(cfg: Setup, s: Runtime, a: seq<Event>, b: seq<Event>)
    requires cfg.Valid() && ValidRun(cfg, s, a)
    ensures ValidRun(cfg, s, a + b) <==> ValidRun(cfg, Final(cfg, s, a), b)
    ensures ValidRun(cfg, s, a + b) ==> Final(cfg, s, a + b) == Final(cfg, Final(cfg, s, a), b)
    decreases |a|
  {
    if a == [] {
      assert a + b == b;
    } else {
      assert (a + b)[1..] == a[1..] + b;
      RunsCompose(cfg, Next(cfg, s, a[0]), a[1..], b);
    }
  }
}
