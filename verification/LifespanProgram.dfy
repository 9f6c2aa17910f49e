/**
 `lifespan` itself, with its variables and its nested `finally` clauses, run
 against a script of what happens at its awaits.  Whatever the script, it ends
 as the step machine of `Lifespan` ends.
 */
module LifespanProgram {
  import opened Options
  import opened Supervision
  import opened Lifespan

  class Application {
    var workerRuntime: Option<Runtime>
    /** `app.state.worker_runtime` is the runtime, not None. */
    var published: bool
    var log: seq<Action>
    /** What is still to happen at the awaits. */
    var script: seq<Happening>

    constructor (script: seq<Happening>)
      ensures this.script == script && log == [] && workerRuntime == None && !published
    {
      this.script := script;
      log, workerRuntime, published := [], None, false;
    }

    ghost function Now(p: Point, log: seq<Action>, error: Option<Action>): Life
      reads this
    {
      Life(p, workerRuntime, published, log, error)
    }

    /** The script takes the machine from `l` to `end`, where the lifespan is over. */
    ghost predicate LeadsTo(app: App, l: Life, end: Life)
      requires app.Valid()
      reads this
    {
      CanRun(app, l, script) && After(app, l, script) == end && end.point == Finished
    }

    /** The action is awaited: the supervisors run until it ends. */
    method Await(app: App, a: Action, ghost error: Option<Action>, ghost end: Life) returns (o: Outcome)
      requires app.Valid() && LeadsTo(app, Now(At(a), log + [a], error), end)
      modifies this
      ensures log == old(log) + [a] && published == old(published)
      ensures workerRuntime.Some? == old(workerRuntime.Some?)
      ensures CanHappen(Now(At(a), log, error), Ends(o))
      ensures LeadsTo(app, Happen(app, Now(At(a), log, error), Ends(o)), end)
    {
      log := log + [a];
      while script[0].Inside?
        invariant script != []
        invariant log == old(log) + [a] && published == old(published)
        invariant workerRuntime.Some? == old(workerRuntime.Some?)
        invariant LeadsTo(app, Now(At(a), log, error), end)
        decreases |script|
      {
        workerRuntime := Some(Next(app.workers, workerRuntime.value, script[0].event));
        script := script[1..];
        assert script == [] ==> After(app, Now(At(a), log, error), script).point == At(a);
      }
      o := script[0].outcome;
      script := script[1..];
    }

    /** The connections that the `try` opens first; `up` says that it goes on. */
    method ConnectClients(app: App, ghost end: Life) returns (up: bool, error: Option<Action>)
      requires app.Valid() && log == [] && workerRuntime == None && !published
      requires LeadsTo(app, BIRTH, end)
      modifies this
      ensures workerRuntime == None && !published
      ensures var next := if app.embedded then BuildRuntime else Serve;
              var l := if up then Now(At(next), log + [next], None) else ShutDown(app, Now(Finished, log, None), error);
              LeadsTo(app, l, end)
    {
      assert Now(At(PingDatabase), log + [PingDatabase], None) == BIRTH;
      var o := Await(app, PingDatabase, None, end);
      if !o.Fine? {
        return false, Some(PingDatabase);
      }
      o := Await(app, PingRedis, None, end);
      if !o.Fine? {
        return false, Some(PingRedis);
      }
      // a broker outage at startup is only logged
      o := Await(app, ConnectBroker, None, end);
      return !o.Dies?, if o.Dies? then Some(ConnectBroker) else None;
    }

    /** The embedded workers, if the setting asks for them. */
    method StartWorkers(app: App, ghost end: Life) returns (up: bool, error: Option<Action>)
      requires app.Valid() && workerRuntime == None && !published
      requires var next := if app.embedded then BuildRuntime else Serve;
               LeadsTo(app, Now(At(next), log + [next], None), end)
      modifies this
      ensures var l :=
                if up then Now(At(Serve), log + [Serve], None) else ShutDown(app, Now(Finished, log, None), error);
              LeadsTo(app, l, end)
    {
      if app.embedded {
        var o := Await(app, BuildRuntime, None, end);
        if !o.Fine? {
          return false, Some(BuildRuntime);
        }
        if app.registered {
          workerRuntime := Some(Initial(app.workers, app.clock));
          o := Await(app, StartRuntime, None, end);
          if !o.Fine? {
            return false, Some(StartRuntime);
          }
          workerRuntime := Some(Request(app, workerRuntime.value, StartCall));
          published := true;
        }
      }
      return true, None;
    }

    /** The body of the `try`; the result is the action whose error leaves it. */
    method StartAndServe(app: App, ghost end: Life) returns (error: Option<Action>)
      requires app.Valid() && log == [] && workerRuntime == None && !published
      requires LeadsTo(app, BIRTH, end)
      modifies this
      ensures LeadsTo(app, ShutDown(app, Now(Finished, log, None), error), end)
    {
      var up;
      up, error := ConnectClients(app, end);
      if up {
        up, error := StartWorkers(app, end);
      }
      if up {
        var o := Await(app, Serve, None, end);
        error := if o.Fine? then None else Some(Serve);
      }
    }

    /** The outer `finally`, up to its own `finally`. */
    method StopTheRuntime(app: App, error0: Option<Action>, ghost end: Life) returns (error: Option<Action>)
      requires app.Valid() && LeadsTo(app, ShutDown(app, Now(Finished, log, None), error0), end)
      modifies this
      ensures !published
      ensures LeadsTo(app, Now(At(CloseBroker), log + [CloseBroker], error), end)
    {
      error := error0;
      if workerRuntime.Some? {
        workerRuntime := Some(Request(app, workerRuntime.value, StopCall));
        var o := Await(app, StopRuntime, error, end);
        if workerRuntime.value.lock.Held? {
          workerRuntime := Some(Next(app.workers, workerRuntime.value, Gathered));
        }
        error := if o.Fine? then error else Some(StopRuntime);
      }
      published := false;
    }

    /** The inner `finally` clauses. */
    method CloseTheClients(app: App, error0: Option<Action>, ghost end: Life) returns (error: Option<Action>)
      requires app.Valid() && LeadsTo(app, Now(At(CloseBroker), log + [CloseBroker], error0), end)
      modifies this
      ensures Now(Finished, log, error) == end
    {
      error := error0;
      var o := Await(app, CloseBroker, error, end);
      error := if o.Fine? then error else Some(CloseBroker);
      o := Await(app, CloseRedis, error, end);
      error := if o.Fine? then error else Some(CloseRedis);
      o := Await(app, DisposeEngine, error, end);
      error := if o.Fine? then error else Some(DisposeEngine);
      FinishedStays(app, Now(Finished, log, error), script);
    }

    /** The whole lifespan ends in the machine's last state: the same actions in
        the same order, the same error, the same runtime. */
    method Lifespan(app: App) returns (error: Option<Action>)
      requires app.Valid() && log == [] && workerRuntime == None && !published
      requires CanRun(app, BIRTH, script) && After(app, BIRTH, script).point == Finished
      modifies this
      ensures Life(Finished, workerRuntime, published, log, error) == old(After(app, BIRTH, script))
    {
      ghost var end := After(app, BIRTH, script);
      error := StartAndServe(app, end);
      error := StopTheRuntime(app, error, end);
      error := CloseTheClients(app, error, end);
    }
  }

  lemma {:induction false} FinishedStays(app: App, l: Life, hs: seq<Happening>)
    requires app.Valid() && l.point == Finished && CanRun(app, l, hs)
    ensures After(app, l, hs) == l
  {
  }
}
