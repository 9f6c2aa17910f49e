/**
 The application's lifespan around the worker runtime: a startup that may fail
 anywhere, the serving phase, and a shutdown of nested `finally` clauses.  While
 it runs, the supervisors of the runtime run too.  Nobody else calls `start` or
 `stop`: only the lifespan holds the runtime.
 */
module Lifespan {
  import opened Options
  import opened Supervision
  import opened SupervisionSafety

  datatype Action =
    | PingDatabase | PingRedis | ConnectBroker | BuildRuntime | StartRuntime | Serve
    | StopRuntime | CloseBroker | CloseRedis | DisposeEngine

  /** How an awaited action ends: with a value, with an `Exception`, or with
      something else such as `CancelledError`. */
  datatype Outcome = Fine | Fails | Dies

  datatype Point = At(action: Action) | Finished

  /** `log` lists the actions begun, `error` names the one whose exception is
      on its way out, `published` says that `app.state` shows the runtime. */
  datatype Life = Life(point: Point, runtime: Option<Runtime>, published: bool, log: seq<Action>, error: Option<Action>)

  /** `embedded` is the setting RUN_EMBEDDED_WORKERS; `registered` says that the
      default runtime has runners, described by `workers`. */
  datatype App = App(embedded: bool, registered: bool, workers: Setup, clock: real) {
    ghost predicate Valid() { workers.Valid() }
  }

  datatype Happening =
    | Ends(outcome: Outcome)  // the current action ends
    | Inside(event: Event)    // a supervisor moves, time passes, or `stop` is cancelled in gather

  const BIRTH := Life(At(PingDatabase), None, false, [PingDatabase], None)

  function Begin(l: Life, a: Action): Life {
    l.(point := At(a), log := l.log + [a])
  }

  /** Into the outer `finally`. */
  function ShutDown(app: App, l: Life, error: Option<Action>): Life
    requires app.Valid()
  {
    var l' := l.(error := error);
    match l.runtime
    case None => Begin(l'.(published := false), CloseBroker)
    case Some(r) => Begin(l'.(runtime := Some(Request(app, r, StopCall))), StopRuntime)
  }

  /** The lifespan's own call, which never finds the lock taken. */
  function Request(app: App, r: Runtime, call: Call): Runtime
    requires app.Valid()
  {
    Run(app.workers, r.(granted := r.granted + [call]), call)
  }

  predicate CanHappen(l: Life, h: Happening) {
    && l.point.At?
    && match h
    case Ends(o) =>
      && (l.point.action == StartRuntime ==> l.runtime.Some?)
      && (l.point.action == StopRuntime ==>
            && l.runtime.Some?
            && (l.runtime.value.lock.Held? ==> AllDone(l.runtime.value))
            && o == if l.runtime.value.lock == Held(true) then Dies else Fine)
    case Inside(e) =>
      && l.runtime.Some? && Enabled(l.runtime.value, e)
      && (e.Step? || e.Tick? || (e.AbortStop? && l.point == At(StopRuntime)))
  }

  /** The life after one happening. */
  function Happen(app: App, l: Life, h: Happening): Life
    requires app.Valid() && CanHappen(l, h)
  {
    match h
    case Inside(e) => l.(runtime := Some(Next(app.workers, l.runtime.value, e)))
    case Ends(o) =>
      var a := l.point.action;
      match a
      case PingDatabase => if o.Fine? then Begin(l, PingRedis) else ShutDown(app, l, Some(a))
      case PingRedis => if o.Fine? then Begin(l, ConnectBroker) else ShutDown(app, l, Some(a))
      case ConnectBroker =>
        // a broker outage at startup is only logged
        if o.Dies? then ShutDown(app, l, Some(a))
        else Begin(l, if app.embedded then BuildRuntime else Serve)
      case BuildRuntime =>
        if !o.Fine? then ShutDown(app, l, Some(a))
        else if app.registered then Begin(l.(runtime := Some(Initial(app.workers, app.clock))), StartRuntime)
        else Begin(l, Serve)
      case StartRuntime =>
        if !o.Fine? then ShutDown(app, l, Some(a))
        else Begin(l.(runtime := Some(Request(app, l.runtime.value, StartCall)), published := true), Serve)
      case Serve => ShutDown(app, l, if o.Fine? then None else Some(a))
      case StopRuntime =>
        var r := l.runtime.value;
        var l' := l.(published := false,
                     error := if o.Fine? then l.error else Some(a),
                     runtime := Some(if r.lock.Held? then Next(app.workers, r, Gathered) else r));
        Begin(l', CloseBroker)
      case CloseBroker =>
        Begin(l.(error := if o.Fine? then l.error else Some(a)), CloseRedis)
      case CloseRedis =>
        Begin(l.(error := if o.Fine? then l.error else Some(a)), DisposeEngine)
      case DisposeEngine =>
        l.(point := Finished, error := if o.Fine? then l.error else Some(a))
  }

  ghost predicate CanRun(app: App, l: Life, hs: seq<Happening>)
    requires app.Valid()
    decreases |hs|
  {
    hs == [] || (CanHappen(l, hs[0]) && CanRun(app, Happen(app, l, hs[0]), hs[1..]))
  }

  ghost function After(app: App, l: Life, hs: seq<Happening>): Life
    requires app.Valid() && CanRun(app, l, hs)
    decreases |hs|
  {
    if hs == [] then l else After(app, Happen(app, l, hs[0]), hs[1..])
  }

  // ----- invariants -----

  predicate InShutdown(a: Action) {
    a.StopRuntime? || a.CloseBroker? || a.CloseRedis? || a.DisposeEngine?
  }

  /** The shutdown actions that have been begun when `p` is reached. */
  function DownTo(p: Point): seq<Action> {
    match p
    case Finished => [CloseBroker, CloseRedis, DisposeEngine]
    case At(CloseBroker) => [CloseBroker]
    case At(CloseRedis) => [CloseBroker, CloseRedis]
    case At(DisposeEngine) => [CloseBroker, CloseRedis, DisposeEngine]
    case At(_) => []
  }

  function StopLog(l: Life): seq<Action> {
    if l.runtime.Some? && (l.point == At(StopRuntime) || DownTo(l.point) != []) then [StopRuntime] else []
  }

  /** The way to serving. */
  function Way(app: App): seq<Action> {
    [PingDatabase, PingRedis, ConnectBroker]
    + (if app.embedded then [BuildRuntime] + (if app.registered then [StartRuntime] else []) else [])
    + [Serve]
  }

  predicate StartingUp(p: Point) {
    p.At? && !InShutdown(p.action)
  }

  /** The first `n` actions on the way, then the stop if there is a runtime, then
      the closings so far: nothing skipped, nothing twice. */
  predicate LogIs(app: App, l: Life, n: nat) {
    && 0 < n <= |Way(app)|
    && l.log == Way(app)[..n] + Down(l)
    && (StartingUp(l.point) ==> Way(app)[n - 1] == l.point.action)
  }

  ghost predicate Logged(app: App, l: Life) {
    exists n: nat :: LogIs(app, l, n)
  }

  predicate Closing(p: Point) {
    p.Finished? || p.action.CloseBroker? || p.action.CloseRedis? || p.action.DisposeEngine?
  }

  ghost predicate Sound(app: App, l: Life)
    requires app.Valid()
  {
    && (l.runtime.Some? ==> Inv(app.workers, l.runtime.value))
    && (l.runtime.Some? && l.point != At(StopRuntime) ==> l.runtime.value.lock.Free?)
    && (l.runtime.Some? && (l.point == At(StopRuntime) || Closing(l.point)) ==> !l.runtime.value.started)
    && (l.point == At(StopRuntime) ==> l.runtime.Some?)
    && (l.published ==> l.runtime.Some? && !Closing(l.point))
  }

  lemma {:induction false} RequestSound(app: App, r: Runtime, call: Call)
    requires app.Valid() && Inv(app.workers, r) && r.lock.Free?
    ensures Inv(app.workers, Request(app, r, call))
    ensures call.StartCall? ==> Request(app, r, call).lock.Free?
    ensures call.StopCall? ==> !Request(app, r, call).started
  {
    var r0 := r.(granted := r.granted + [call]);
    QueueingKeepsInv(app.workers, r, r.queue, r0.granted);
    if call.StartCall? && !r.started {
      LaunchInv(app.workers, r0);
    } else if call.StopCall? && r.started {
      RequestStopInv(app.workers, r0);
    }
  }

  lemma {:induction false} ShutDownSound(app: App, l: Life, error: Option<Action>)
    requires app.Valid() && Sound(app, l) && l.point != At(StopRuntime)
    ensures Sound(app, ShutDown(app, l, error))
  {
    if l.runtime.Some? {
      RequestSound(app, l.runtime.value, StopCall);
    }
  }

  lemma {:induction false} InsideSound(app: App, l: Life, e: Event)
    requires app.Valid() && Sound(app, l) && CanHappen(l, Inside(e))
    ensures Sound(app, Happen(app, l, Inside(e)))
  {
    NextInv(app.workers, l.runtime.value, e);
  }

  lemma {:induction false} StartupEndsSound(app: App, l: Life, o: Outcome)
    requires app.Valid() && Sound(app, l) && CanHappen(l, Ends(o)) && !InShutdown(l.point.action)
    ensures Sound(app, Happen(app, l, Ends(o)))
  {
    var a := l.point.action;
    if Happen(app, l, Ends(o)) == ShutDown(app, l, Some(a)) {
      ShutDownSound(app, l, Some(a));
    } else if a.Serve? {
      ShutDownSound(app, l, None);
    } else if a.BuildRuntime? {
      InitialInv(app.workers, app.clock);
    } else if a.StartRuntime? {
      RequestSound(app, l.runtime.value, StartCall);
    }
  }

  lemma {:induction false} ShutdownEndsSound(app: App, l: Life, o: Outcome)
    requires app.Valid() && Sound(app, l) && CanHappen(l, Ends(o)) && InShutdown(l.point.action)
    ensures Sound(app, Happen(app, l, Ends(o)))
  {
    if l.point.action.StopRuntime? && l.runtime.value.lock.Held? {
      GatheredInv(app.workers, l.runtime.value);
    }
  }

  lemma {:induction false} HappensSound(app: App, l: Life, h: Happening)
    requires app.Valid() && Sound(app, l) && CanHappen(l, h)
    ensures Sound(app, Happen(app, l, h))
  {
    match h
    case Inside(e) => InsideSound(app, l, e);
    case Ends(o) =>
      if InShutdown(l.point.action) {
        ShutdownEndsSound(app, l, o);
      } else {
        StartupEndsSound(app, l, o);
      }
  }

  /** The shutdown part of a well-formed log. */
  function Down(l: Life): seq<Action> {
    StopLog(l) + DownTo(l.point)
  }

  function Begun(l: Life, l': Life): seq<Action> {
    if l'.point.At? && l'.point != l.point then [l'.point.action] else []
  }

  /** Beginning an action logs it, as part of the startup or of the shutdown. */
  ghost predicate LogsWhatBegins(l: Life, l': Life) {
    && l'.log == l.log + Begun(l, l')
    && if Begun(l, l') != [] && !InShutdown(l'.point.action) then Down(l) == [] == Down(l')
       else Down(l') == Down(l) + Begun(l, l')
  }

  lemma {:induction false} InsideLogsNothing(app: App, l: Life, e: Event)
    requires app.Valid() && CanHappen(l, Inside(e))
    ensures LogsWhatBegins(l, Happen(app, l, Inside(e)))
  {
  }

  lemma {:induction false} EnteringShutdownLogs(app: App, l: Life, error: Option<Action>)
    requires app.Valid() && l.point.At? && !InShutdown(l.point.action)
    ensures LogsWhatBegins(l, ShutDown(app, l, error))
  {
  }

  lemma {:induction false} GoingOnLogs(l: Life, a: Action)
    requires l.point.At? && !InShutdown(l.point.action) && !InShutdown(a) && l.point.action != a
    ensures forall runtime, published :: LogsWhatBegins(l, Begin(l.(runtime := runtime, published := published), a))
  {
  }

  lemma {:induction false} StartupLogs(app: App, l: Life, o: Outcome)
    requires app.Valid() && CanHappen(l, Ends(o)) && !InShutdown(l.point.action)
    ensures LogsWhatBegins(l, Happen(app, l, Ends(o)))
  {
    var l' := Happen(app, l, Ends(o));
    if l' == ShutDown(app, l, Some(l.point.action)) {
      EnteringShutdownLogs(app, l, Some(l.point.action));
    } else if l' == ShutDown(app, l, None) {
      EnteringShutdownLogs(app, l, None);
    } else {
      GoingOnLogs(l, l'.point.action);
      assert l' == Begin(l.(runtime := l'.runtime, published := l'.published), l'.point.action);
    }
  }

  lemma {:induction false} StopEndsLogs(app: App, l: Life, o: Outcome)
    requires app.Valid() && CanHappen(l, Ends(o)) && l.point == At(StopRuntime)
    ensures LogsWhatBegins(l, Happen(app, l, Ends(o)))
  {
    var l' := Happen(app, l, Ends(o));
    assert l'.point == At(CloseBroker) && l'.log == l.log + [CloseBroker];
    assert Down(l) == [StopRuntime] && Down(l') == [StopRuntime] + [CloseBroker];
  }

  lemma {:induction false} ClosingLogs(app: App, l: Life, o: Outcome)
    requires app.Valid() && CanHappen(l, Ends(o)) && l.point.At? && Closing(l.point)
    ensures LogsWhatBegins(l, Happen(app, l, Ends(o)))
  {
    var l' := Happen(app, l, Ends(o));
    assert StopLog(l') == StopLog(l);
    assert DownTo(l'.point) == DownTo(l.point) + Begun(l, l');
    Appended(StopLog(l), DownTo(l.point), Begun(l, l'));
  }

  lemma {:induction false} ShutdownLogs(app: App, l: Life, o: Outcome)
    requires app.Valid() && CanHappen(l, Ends(o)) && InShutdown(l.point.action)
    ensures LogsWhatBegins(l, Happen(app, l, Ends(o)))
  {
    if l.point == At(StopRuntime) {
      StopEndsLogs(app, l, o);
    } else {
      ClosingLogs(app, l, o);
    }
  }

  /** Startup goes on with the next action on the way. */
  lemma {:induction false} GoesOnAlongTheWay(app: App, l: Life, o: Outcome, n: nat)
    requires app.Valid() && CanHappen(l, Ends(o)) && StartingUp(l.point) && LogIs(app, l, n)
    ensures var l' := Happen(app, l, Ends(o));
            StartingUp(l'.point) ==> n < |Way(app)| && Way(app)[n] == l'.point.action
  {
    WayInOrder(app, n);
  }

  lemma {:induction false} WayInOrder(app: App, n: nat)
    requires 0 < n <= |Way(app)|
    ensures match Way(app)[n - 1]
            case PingDatabase => n < |Way(app)| && Way(app)[n] == PingRedis
            case PingRedis => n < |Way(app)| && Way(app)[n] == ConnectBroker
            case ConnectBroker =>
              n < |Way(app)| && Way(app)[n] == if app.embedded then BuildRuntime else Serve
            case BuildRuntime =>
              app.embedded && n < |Way(app)| && Way(app)[n] == if app.registered then StartRuntime else Serve
            case StartRuntime => app.embedded && app.registered && n < |Way(app)| && Way(app)[n] == Serve
            case Serve => n == |Way(app)|
            case _ => false
  {
  }

  lemma {:induction false} HappensLogged(app: App, l: Life, h: Happening)
    requires app.Valid() && Sound(app, l) && Logged(app, l) && CanHappen(l, h)
    ensures Logged(app, Happen(app, l, h))
  {
    var n: nat :| LogIs(app, l, n);
    match h {
      case Inside(e) => InsideLogsNothing(app, l, e);
      case Ends(o) =>
        if InShutdown(l.point.action) {
          ShutdownLogs(app, l, o);
        } else {
          StartupLogs(app, l, o);
          GoesOnAlongTheWay(app, l, o, n);
        }
    }
    LogGrows(app, l, Happen(app, l, h), n);
  }

  lemma {:induction false} Appended(up: seq<Action>, down: seq<Action>, more: seq<Action>)
    ensures (up + down) + more == up + (down + more)
    ensures down == [] ==> (up + down) + more == (up + more) + down
  {
  }

  lemma {:induction false} LogGrows(app: App, l: Life, l': Life, n: nat)
    requires LogIs(app, l, n) && LogsWhatBegins(l, l')
    requires StartingUp(l'.point) ==> StartingUp(l.point)
    requires StartingUp(l'.point) && l'.point != l.point ==> n < |Way(app)| && Way(app)[n] == l'.point.action
    ensures Logged(app, l')
  {
    var way := Way(app);
    Appended(way[..n], Down(l), Begun(l, l'));
    if Begun(l, l') != [] && StartingUp(l'.point) {
      assert way[..n + 1] == way[..n] + Begun(l, l');
      assert LogIs(app, l', n + 1);
    } else {
      assert LogIs(app, l', n);
    }
  }

  lemma {:induction false} LivesSoundAndLogged(app: App, l: Life, hs: seq<Happening>)
    requires app.Valid() && Sound(app, l) && Logged(app, l) && CanRun(app, l, hs)
    ensures Sound(app, After(app, l, hs)) && Logged(app, After(app, l, hs))
    decreases |hs|
  {
    if hs != [] {
      HappensSound(app, l, hs[0]);
      HappensLogged(app, l, hs[0]);
      LivesSoundAndLogged(app, Happen(app, l, hs[0]), hs[1..]);
    }
  }

  lemma {:induction false} BirthSound(app: App)
    requires app.Valid()
    ensures Sound(app, BIRTH) && Logged(app, BIRTH)
  {
    assert Way(app)[..1] == [PingDatabase];
    assert LogIs(app, BIRTH, 1);
  }

  // ----- theorems -----

  /** However startup, serving and shutdown go, a finished lifespan has gone some
      part of the way to serving; it has then stopped the runtime if it had built
      one, closed the broker, closed Redis and disposed of the engine: each
      attempted, once, in this order. */
  lemma {:induction false} EveryShutdownStepIsAttempted(app: App, hs: seq<Happening>)
    requires app.Valid() && CanRun(app, BIRTH, hs) && After(app, BIRTH, hs).point == Finished
    ensures var l := After(app, BIRTH, hs);
            var way := [PingDatabase, PingRedis, ConnectBroker]
                       + (if app.embedded then [BuildRuntime] + (if app.registered then [StartRuntime] else []) else [])
                       + [Serve];
            && !l.published
            && exists n: nat ::
                 && 0 < n <= |way|
                 && l.log == way[..n] + ((if l.runtime.Some? then [StopRuntime] else [])
                                         + [CloseBroker, CloseRedis, DisposeEngine])
  {
    BirthSound(app);
    LivesSoundAndLogged(app, BIRTH, hs);
    var l := After(app, BIRTH, hs);
    var n: nat :| LogIs(app, l, n);
    var way := [PingDatabase, PingRedis, ConnectBroker]
               + (if app.embedded then [BuildRuntime] + (if app.registered then [StartRuntime] else []) else [])
               + [Serve];
    assert way == Way(app) && 0 < n <= |way|;
    assert l.log == way[..n] + ((if l.runtime.Some? then [StopRuntime] else [])
                                + [CloseBroker, CloseRedis, DisposeEngine]);
  }

  /** From the moment the broker begins to close no supervisor is alive: even
      when `stop` was itself cancelled, `gather` let it go only after the last. */
  lemma {:induction false} NobodyWorksOnAClosingBroker(app: App, hs: seq<Happening>)
    requires app.Valid() && CanRun(app, BIRTH, hs) && Closing(After(app, BIRTH, hs).point)
    ensures var r := After(app, BIRTH, hs).runtime;
            r.Some? ==> forall i :: 0 <= i < |r.value.pool| ==> !r.value.pool[i].Live()
  {
    BirthSound(app);
    LivesSoundAndLogged(app, BIRTH, hs);
  }

  /** The action that ends here raises out of it: all that end badly do, but for the
      broker's `Exception` at startup, which is logged. */
  predicate Raises(l: Life, h: Happening) {
    h.Ends? && l.point.At? && !h.outcome.Fine? && !(l.point == At(ConnectBroker) && h.outcome.Fails?)
  }

  /** The last action in `hs` that raised, or `was` if none did. */
  ghost function LastRaised(app: App, l: Life, hs: seq<Happening>, was: Option<Action>): Option<Action>
    requires app.Valid() && CanRun(app, l, hs)
    decreases |hs|
  {
    if hs == [] then was
    else LastRaised(app, Happen(app, l, hs[0]), hs[1..], if Raises(l, hs[0]) then Some(l.point.action) else was)
  }

  /** Nothing is on its way out during startup and serving. */
  predicate NoErrorYet(l: Life) {
    l.point.At? && !InShutdown(l.point.action) ==> l.error == None
  }

  lemma {:induction false} ShuttingDown(app: App, l: Life, error: Option<Action>)
    requires app.Valid()
    ensures ShutDown(app, l, error).error == error && NoErrorYet(ShutDown(app, l, error))
  {
  }

  lemma {:induction false} OneHappeningRaises(app: App, l: Life, h: Happening)
    requires app.Valid() && CanHappen(l, h) && NoErrorYet(l)
    ensures var l' := Happen(app, l, h);
            l'.error == (if Raises(l, h) then Some(l.point.action) else l.error) && NoErrorYet(l')
  {
    if h.Ends? {
      ShuttingDown(app, l, Some(l.point.action));
      ShuttingDown(app, l, None);
    }
  }

  lemma {:induction false} ErrorsAreTheLastRaised(app: App, l: Life, hs: seq<Happening>)
    requires app.Valid() && CanRun(app, l, hs) && NoErrorYet(l)
    ensures After(app, l, hs).error == LastRaised(app, l, hs, l.error)
    decreases |hs|
  {
    if hs != [] {
      OneHappeningRaises(app, l, hs[0]);
      ErrorsAreTheLastRaised(app, Happen(app, l, hs[0]), hs[1..]);
    }
  }

  ghost predicate SomethingRaised(app: App, l: Life, hs: seq<Happening>)
    requires app.Valid() && CanRun(app, l, hs)
    decreases |hs|
  {
    hs != [] && (Raises(l, hs[0]) || SomethingRaised(app, Happen(app, l, hs[0]), hs[1..]))
  }

  lemma {:induction false} LastRaisedExists(app: App, l: Life, hs: seq<Happening>, was: Option<Action>)
    requires app.Valid() && CanRun(app, l, hs)
    ensures LastRaised(app, l, hs, was).Some? <==> was.Some? || SomethingRaised(app, l, hs)
    decreases |hs|
  {
    if hs != [] {
      var now := if Raises(l, hs[0]) then Some(l.point.action) else was;
      LastRaisedExists(app, Happen(app, l, hs[0]), hs[1..], now);
    }
  }

  /** At every moment of a lifespan an error is on its way out, or has come out,
      exactly when some action has raised; and it is that of the last one that did. */
  lemma {:induction false} ErrorsReachTheEnd(app: App, hs: seq<Happening>)
    requires app.Valid() && CanRun(app, BIRTH, hs)
    ensures After(app, BIRTH, hs).error == LastRaised(app, BIRTH, hs, None)
    ensures After(app, BIRTH, hs).error.Some? <==> SomethingRaised(app, BIRTH, hs)
  {
    ErrorsAreTheLastRaised(app, BIRTH, hs);
    LastRaisedExists(app, BIRTH, hs, None);
  }
}
