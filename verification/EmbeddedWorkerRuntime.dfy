/**
 The runtime object itself: its fields, the two sections of `stop` on either
 side of `gather`, and the coroutine `_supervise`.  Each method is proved against
 the step machine of `Supervision`, about which the theorems are stated.
 */
module EmbeddedWorkerRuntimes {
  import opened Options
  import opened Backoff
  import opened Supervision
  import opened SupervisionSafety
  import opened Isolation

  datatype ConfigError = NoRunners | BlankName | BadBase | MaxNotFinite | MaxBelowBase

  /** A float: a number, or an infinity or NaN. */
  datatype Float = Finite(value: real) | NotFinite

  predicate IsSpace(c: char) {
    || '\t' <= c <= '\r' || '\U{1C}' <= c <= ' ' || c == '\U{85}' || c == '\U{A0}'
    || c == '\U{1680}' || '\U{2000}' <= c <= '\U{200A}' || '\U{2028}' <= c <= '\U{2029}'
    || c == '\U{202F}' || c == '\U{205F}' || c == '\U{3000}'
  }

  /** `not name or not name.strip()`. */
  predicate Blank(name: string) {
    forall i :: 0 <= i < |name| ==> IsSpace(name[i])
  }

  /** There are names, and none is blank. */
  predicate NamesInOrder(names: seq<string>) {
    names != [] && forall n :: n in names ==> !Blank(n)
  }

  /** The characters that `strip` removes. */
  lemma {:induction false} SpacesAre(c: char)
    ensures IsSpace(c) <==>
            || c as int in {0x09, 0x0A, 0x0B, 0x0C, 0x0D, 0x1C, 0x1D, 0x1E, 0x1F, 0x20, 0x85, 0xA0, 0x1680}
            || c as int in {0x2000, 0x2001, 0x2002, 0x2003, 0x2004, 0x2005, 0x2006, 0x2007, 0x2008, 0x2009, 0x200A}
            || c as int in {0x2028, 0x2029, 0x202F, 0x205F, 0x3000}
  {
  }

  function BackoffOf(base: real, max: real): Config
    requires 0.0 < base <= max
  {
    Config(base, max, MaxExponent(base, max))
  }

  // ----- how far a script of answers has come -----

  /** Living `ps` on from `i0` at `l0` is living it on from `i` at `l`. */
  ghost predicate Continues(cfg: Setup, l0: Alone, ps: seq<Part>, i0: nat, l: Alone, i: nat)
    requires cfg.Valid()
  {
    && i0 <= i <= |ps|
    && CanLive(cfg, l0, ps[i0..])
    && CanLive(cfg, l, ps[i..])
    && Lived(cfg, l, ps[i..]) == Lived(cfg, l0, ps[i0..])
  }

  lemma {:induction false} Continue(cfg: Setup, l: Alone, ps: seq<Part>, i: nat)
    requires cfg.Valid() && i <= |ps| && CanLive(cfg, l, ps[i..])
    ensures Continues(cfg, l, ps, i, l, i)
  {
  }

  lemma {:induction false} OnePart(cfg: Setup, l0: Alone, ps: seq<Part>, i0: nat, l: Alone, i: nat)
    requires cfg.Valid() && i < |ps| && Continues(cfg, l0, ps, i0, l, i)
    ensures CanDo(l, ps[i]) && Continues(cfg, l0, ps, i0, Do(cfg, l, ps[i]), i + 1)
  {
    assert ps[i..][0] == ps[i] && ps[i..][1..] == ps[i + 1..];
  }

  // ----- how far the loops have come -----

  ghost predicate MarkedUpTo(
    cfg: Setup, tasks: map<string, nat>, m0: map<string, Status>, m: map<string, Status>, i: nat)
  {
    && m0.Keys == cfg.place.Keys == m.Keys
    && forall n :: n in m ==> m[n] == if n in tasks && cfg.place[n] < i then m0[n].(state := Stopping) else m0[n]
  }

  lemma {:induction false} MarkTurn(
    cfg: Setup, tasks: map<string, nat>, m0: map<string, Status>, m: map<string, Status>, i: nat)
    requires cfg.Valid() && i < |cfg.names| && MarkedUpTo(cfg, tasks, m0, m, i)
    ensures var n := cfg.names[i];
            MarkedUpTo(cfg, tasks, m0, if n in tasks then m[n := m[n].(state := Stopping)] else m, i + 1)
  {
  }

  ghost predicate CancelledUpTo(cfg: Setup, tasks: map<string, nat>, p0: seq<Task>, p: seq<Task>, i: nat) {
    && |p| == |p0|
    && forall j {:trigger p[j]} :: 0 <= j < |p| ==>
         p[j] == if p0[j].name in tasks && tasks[p0[j].name] == j
                    && p0[j].name in cfg.place && cfg.place[p0[j].name] < i
                 then Cancelled(p0[j]) else p0[j]
  }

  lemma {:induction false} CancelTurn(cfg: Setup, tasks: map<string, nat>, p0: seq<Task>, p: seq<Task>, i: nat)
    requires cfg.Valid() && i < |cfg.names| && CancelledUpTo(cfg, tasks, p0, p, i)
    requires forall n :: n in tasks ==> tasks[n] < |p0| && p0[tasks[n]].name == n
    ensures var n := cfg.names[i];
            CancelledUpTo(cfg, tasks, p0, if n in tasks then p[tasks[n] := Cancelled(p[tasks[n]])] else p, i + 1)
  {
  }

  ghost predicate RegisteredUpTo(cfg: Setup, first: nat, m: map<string, nat>, i: nat) {
    && m.Keys <= cfg.place.Keys
    && forall n :: n in cfg.place && cfg.place[n] < i ==> n in m && m[n] == first + cfg.place[n]
  }

  lemma {:induction false} RegisterTurn(cfg: Setup, first: nat, m: map<string, nat>, i: nat)
    requires cfg.Valid() && i < |cfg.names| && RegisteredUpTo(cfg, first, m, i)
    ensures RegisteredUpTo(cfg, first, m[cfg.names[i] := first + i], i + 1)
  {
  }

  ghost predicate FreshUpTo(cfg: Setup, m: map<string, Status>, i: nat) {
    && m.Keys == cfg.place.Keys
    && forall n :: n in m && cfg.place[n] < i ==> m[n] == FRESH_STATUS
  }

  lemma {:induction false} FreshTurn(cfg: Setup, m: map<string, Status>, i: nat)
    requires cfg.Valid() && i < |cfg.names| && FreshUpTo(cfg, m, i)
    ensures FreshUpTo(cfg, m[cfg.names[i] := FRESH_STATUS], i + 1)
  {
  }

  ghost predicate SpawnedUpTo(cfg: Setup, p0: seq<Task>, p: seq<Task>, now: real, i: nat) {
    i <= |cfg.names| && p == p0 + NewTasks(cfg, now)[..i]
  }

  lemma {:induction false} SpawnTurn(cfg: Setup, p0: seq<Task>, p: seq<Task>, now: real, i: nat)
    requires i < |cfg.names| && SpawnedUpTo(cfg, p0, p, now, i)
    ensures SpawnedUpTo(cfg, p0, p + [NewTask(cfg.names[i], now)], now, i + 1)
    ensures |p| == |p0| + i
  {
    assert NewTasks(cfg, now)[..i + 1] == NewTasks(cfg, now)[..i] + [NewTask(cfg.names[i], now)];
  }

  lemma {:induction false} LaunchDone(cfg: Setup, first: nat, tasks: map<string, nat>, statuses: map<string, Status>)
    requires cfg.Valid() && RegisteredUpTo(cfg, first, tasks, |cfg.names|) && FreshUpTo(cfg, statuses, |cfg.names|)
    ensures tasks == Places(cfg, first) && statuses == AllFresh(cfg)
  {
  }

  /** What the object does not own: the callers in line, and the loop's clock. */
  datatype Loop = Loop(queue: seq<Call>, granted: seq<Call>, now: real)

  class EmbeddedWorkerRuntime {
    const cfg: Setup
    var statuses: map<string, Status>
    var tasks: map<string, nat>
    var started: bool
    var lock: Lock
    // the tasks of the event loop, to which the entries of `tasks` refer
    var pool: seq<Task>
    ghost var dirty: bool

    ghost predicate Valid()
      reads this
    {
      && cfg.Valid()
      && statuses.Keys == cfg.place.Keys
      && tasks.Keys <= cfg.place.Keys
      && (forall n :: n in tasks ==> tasks[n] < |pool| && pool[tasks[n]].name == n)
    }

    /** The state of the step machine that this object is in. */
    ghost function State(loop: Loop): Runtime
      reads this
    {
      Runtime(started, tasks, statuses, pool, lock, loop.queue, loop.granted, dirty, loop.now)
    }

    constructor (cfg: Setup)
      requires cfg.Valid()
      ensures Valid() && this.cfg == cfg
      ensures forall now :: State(Loop([], [], now)) == Initial(cfg, now)
    {
      this.cfg := cfg;
      statuses, tasks, started, lock, pool, dirty := Unstarted(cfg), map[], false, Free, [], false;
    }

    /** `__init__`: the keys of a dictionary are distinct. */
    static method Create(names: seq<string>, base: Float, max: Float)
      returns (r: Result<EmbeddedWorkerRuntime, ConfigError>)
      requires forall i, j :: 0 <= i < j < |names| ==> names[i] != names[j]
      ensures r.Ok? <==>
              && names != [] && (forall n :: n in names ==> !Blank(n))
              && base.Finite? && max.Finite? && 0.0 < base.value <= max.value
      ensures match r
              case Ok(runtime) =>
                && runtime.Valid() && fresh(runtime) && runtime.cfg.names == names
                && runtime.cfg.backoff.base == base.value && runtime.cfg.backoff.max == max.value
                && forall now :: runtime.State(Loop([], [], now)) == Initial(runtime.cfg, now)
              case Err(NoRunners) => names == []
              case Err(BlankName) => exists n :: n in names && Blank(n)
              case Err(BadBase) => NamesInOrder(names) && (base.NotFinite? || base.value <= 0.0)
              case Err(MaxNotFinite) => NamesInOrder(names) && base.Finite? && base.value > 0.0 && max.NotFinite?
              case Err(MaxBelowBase) =>
                NamesInOrder(names) && base.Finite? && base.value > 0.0 && max.Finite? && max.value < base.value
    {
      if names == [] {
        return Err(NoRunners);
      }
      if exists n :: n in names && Blank(n) {
        return Err(BlankName);
      }
      if base.NotFinite? || base.value <= 0.0 {
        return Err(BadBase);
      }
      if max.NotFinite? {
        return Err(MaxNotFinite);
      }
      if max.value < base.value {
        return Err(MaxBelowBase);
      }
      var place: map<string, nat> := map[];
      for i := 0 to |names|
        invariant forall k :: 0 <= k < i ==> names[k] in place && place[names[k]] == k
        invariant forall n :: n in place ==> place[n] < i && names[place[n]] == n
      {
        place := place[names[i] := i];
      }
      var runtime := new EmbeddedWorkerRuntime(Setup(names, place, BackoffOf(base.value, max.value)));
      r := Ok(runtime);
    }

    /** One turn of `start`'s loop. */
    method StartOne(name: string, now: real)
      requires name in statuses
      modifies this`tasks, this`pool, this`statuses
      ensures statuses == old(statuses)[name := FRESH_STATUS]
      ensures tasks == old(tasks)[name := |old(pool)|]
      ensures pool == old(pool) + [NewTask(name, now)]
    {
      var status := statuses[name];
      status := status.(state := Starting);
      status := status.(restarts := 0);
      status := status.(lastExit := None);
      status := status.(nextRetry := None);
      statuses := statuses[name := status];
      tasks := tasks[name := |pool|];
      pool := pool + [NewTask(name, now)];
    }

    /** The loop of `start`. */
    method StartAll(now: real)
      requires Valid()
      modifies this`tasks, this`pool, this`statuses
      ensures statuses == AllFresh(cfg)
      ensures tasks == Places(cfg, |old(pool)|)
      ensures pool == old(pool) + NewTasks(cfg, now)
    {
      ghost var first := |pool|;
      for i := 0 to |cfg.names|
        invariant FreshUpTo(cfg, statuses, i)
        invariant RegisteredUpTo(cfg, first, tasks, i)
        invariant SpawnedUpTo(cfg, old(pool), pool, now, i)
      {
        FreshTurn(cfg, statuses, i);
        RegisterTurn(cfg, first, tasks, i);
        SpawnTurn(cfg, old(pool), pool, now, i);
        StartOne(cfg.names[i], now);
      }
      LaunchDone(cfg, first, tasks, statuses);
    }

    /** `start`, once the lock is held. */
    method Start(loop: Loop)
      requires Valid()
      modifies this
      ensures Valid()
      ensures State(loop) == Run(cfg, old(State(loop)), StartCall)
    {
      if started {
        return;
      }
      started := true;
      dirty := false;
      StartAll(loop.now);
      LaunchShape(cfg, old(State(loop)));
    }

    /** One turn of `stop`'s cancelling loop. */
    method CancelOne(name: string)
      requires name in tasks ==> name in statuses && tasks[name] < |pool|
      modifies this`pool, this`statuses
      ensures statuses == if name in tasks then old(statuses)[name := old(statuses)[name].(state := Stopping)]
                          else old(statuses)
      ensures pool == if name in tasks then old(pool)[tasks[name] := Cancelled(old(pool)[tasks[name]])] else old(pool)
    {
      if name in tasks {
        statuses := statuses[name := statuses[name].(state := Stopping)];
        pool := pool[tasks[name] := Cancelled(pool[tasks[name]])];
      }
    }

    /** The cancelling loop of `stop`. */
    method CancelAll()
      requires Valid()
      modifies this`pool, this`statuses
      ensures statuses == MarkStopping(tasks, old(statuses))
      ensures CancelledUpTo(cfg, tasks, old(pool), pool, |cfg.names|)
    {
      for i := 0 to |cfg.names|
        invariant MarkedUpTo(cfg, tasks, old(statuses), statuses, i)
        invariant CancelledUpTo(cfg, tasks, old(pool), pool, i)
      {
        MarkTurn(cfg, tasks, old(statuses), statuses, i);
        CancelTurn(cfg, tasks, old(pool), pool, i);
        CancelOne(cfg.names[i]);
      }
      assert statuses == MarkStopping(tasks, old(statuses));
    }

    /** `stop`, from the lock to `gather`; `waits` when it gets that far. */
    method BeginStop(loop: Loop) returns (waits: bool)
      requires Valid() && lock.Free?
      modifies this
      ensures Valid()
      ensures waits == old(started)
      ensures State(loop) == Run(cfg, old(State(loop)), StopCall)
    {
      waits := started;
      if !started {
        return;
      }
      started := false;
      CancelAll();
      lock := Held(false);
      assert pool == CancelTasks(old(State(loop)));
    }

    /** The last loop of `stop`. */
    method RestEveryStatus()
      requires Valid()
      modifies this`statuses
      ensures statuses == RestAll(old(statuses))
    {
      for i := 0 to |cfg.names|
        invariant statuses.Keys == cfg.place.Keys
        invariant forall n :: n in statuses ==>
                    statuses[n] == if cfg.place[n] < i then AtRest(old(statuses)[n]) else old(statuses)[n]
      {
        var name := cfg.names[i];
        var status := statuses[name];
        status := status.(state := Stopped);
        status := status.(nextRetry := None);
        statuses := statuses[name := status];
      }
      assert statuses == RestAll(old(statuses));
    }

    /** `stop`, when `gather` has returned. */
    method FinishStop(loop: Loop)
      requires Valid() && lock == Held(false) && AllDone(State(loop))
      modifies this
      ensures Valid()
      ensures State(loop) == Next(cfg, old(State(loop)), Gathered)
    {
      tasks := map[];
      RestEveryStatus();
      lock := Free;
    }

    /** The object shows the supervisor's own status. */
    ghost predicate Shows(name: string, l: Alone)
      reads this
    {
      name in statuses && statuses[name] == l.status
    }

    /** Suspended in an await: the clock and swallowed cancellations go by until
        there is an answer, or the script ends.  Meanwhile the object has to show
        the status that the machine has. */
    method Await(name: string, l0: Alone, ps: seq<Part>, i0: nat) returns (l: Alone, i: nat)
      requires cfg.Valid() && i0 <= |ps| && CanLive(cfg, l0, ps[i0..]) && Shows(name, l0)
      ensures Continues(cfg, l0, ps, i0, l, i) && Shows(name, l)
      ensures l.task.phase == l0.task.phase && l.status == l0.status
      ensures i < |ps| ==> ps[i].Acts? && !ps[i].a.Swallow? && CanAct(l.task, l.now, ps[i].a)
    {
      l, i := l0, i0;
      while i < |ps| && (ps[i].Passes? || ps[i].a.Swallow?)
        invariant Continues(cfg, l0, ps, i0, l, i)
        invariant l.task.phase == l0.task.phase && l.status == l0.status
      {
        OnePart(cfg, l0, ps, i0, l, i);
        l := Do(cfg, l, ps[i]);
        i := i + 1;
      }
      if i < |ps| {
        OnePart(cfg, l0, ps, i0, l, i);
      }
    }

    /** The top of the loop. */
    method MarkRunning(name: string)
      requires name in statuses
      modifies this`statuses
      ensures statuses == old(statuses)[name := old(statuses)[name].(state := Running, nextRetry := None)]
    {
      var status := statuses[name];
      status := status.(state := Running);
      status := status.(nextRetry := None);
      statuses := statuses[name := status];
    }

    /** From the runner's exit to the sleep. */
    method MarkBackoff(name: string, how: WorkerExit) returns (retrySeconds: real)
      requires cfg.Valid() && name in statuses
      modifies this`statuses
      ensures retrySeconds == Delay(cfg.backoff, old(statuses)[name].restarts)
      ensures statuses == old(statuses)[name :=
                Status(Waiting, old(statuses)[name].restarts + 1, Some(how), Some(retrySeconds))]
    {
      var status := statuses[name];
      status := status.(lastExit := Some(how));
      retrySeconds :=
        Min(Ldexp(cfg.backoff.base, MinNat(status.restarts, cfg.backoff.exponent)), cfg.backoff.max);
      status := status.(restarts := status.restarts + 1);
      status := status.(state := Waiting);
      status := status.(nextRetry := Some(retrySeconds));
      statuses := statuses[name := status];
    }

    /** The `finally` clause. */
    method MarkStopped(name: string)
      requires name in statuses
      modifies this`statuses
      ensures statuses == old(statuses)[name := AtRest(old(statuses)[name])]
    {
      var status := statuses[name];
      status := status.(state := Stopped);
      status := status.(nextRetry := None);
      statuses := statuses[name := status];
    }

    /** Up to the runner: the first half of a turn. */
    method InvokeRunner(name: string, l0: Alone, ps: seq<Part>, i0: nat) returns (l: Alone, i: nat)
      requires cfg.Valid() && i0 < |ps| && CanLive(cfg, l0, ps[i0..]) && Shows(name, l0)
      requires (ps[i0] == Acts(Begin) || ps[i0] == Acts(Wake)) && CanAct(l0.task, l0.now, ps[i0].a)
      modifies this`statuses
      ensures Continues(cfg, l0, ps, i0, l, i) && i0 < i
      ensures Shows(name, l) && statuses == old(statuses)[name := l.status]
      ensures l.task.phase == InRunner
      ensures i < |ps| ==> ps[i].Acts? && !ps[i].a.Swallow? && CanAct(l.task, l.now, ps[i].a)
    {
      Continue(cfg, l0, ps, i0);
      OnePart(cfg, l0, ps, i0, l0, i0);
      MarkRunning(name);
      var trace := l0.task.trace + if ps[i0].a.Wake? then [Slept, Ran] else [Ran];
      var invoked := Alone(l0.task.(phase := InRunner, trace := trace), statuses[name], l0.now);
      l, i := Await(name, invoked, ps, i0 + 1);  // await runner_factory()
    }

    /** From the runner's exit to the end of the sleep: the second half. */
    method SleepAfter(name: string, l0: Alone, ps: seq<Part>, i0: nat) returns (l: Alone, i: nat)
      requires cfg.Valid() && i0 < |ps| && CanLive(cfg, l0, ps[i0..]) && Shows(name, l0)
      requires ps[i0].Acts? && ps[i0].a.Exit? && CanAct(l0.task, l0.now, ps[i0].a)
      modifies this`statuses
      ensures Continues(cfg, l0, ps, i0, l, i) && i0 < i
      ensures Shows(name, l) && statuses == old(statuses)[name := l.status]
      ensures l.task.phase.Asleep?
      ensures i < |ps| ==> ps[i].Acts? && !ps[i].a.Swallow? && CanAct(l.task, l.now, ps[i].a)
    {
      Continue(cfg, l0, ps, i0);
      OnePart(cfg, l0, ps, i0, l0, i0);
      var how := ps[i0].a.how;
      var retrySeconds := MarkBackoff(name, how);
      var asleep := Alone(
        l0.task.(phase := Asleep(l0.now + retrySeconds), cancelled := false, trace := l0.task.trace + [Exited(how)]),
        statuses[name], l0.now);
      l, i := Await(name, asleep, ps, i0 + 1);  // await asyncio.sleep(retry_seconds)
    }

    /** One turn of the `while True` of `_supervise`: the runner, and the sleep
        if it comes to that. */
    method Turn(name: string, l0: Alone, ps: seq<Part>, i0: nat) returns (l: Alone, i: nat)
      requires cfg.Valid() && i0 < |ps| && CanLive(cfg, l0, ps[i0..]) && Shows(name, l0)
      requires (ps[i0] == Acts(Begin) || ps[i0] == Acts(Wake)) && CanAct(l0.task, l0.now, ps[i0].a)
      modifies this`statuses
      ensures Continues(cfg, l0, ps, i0, l, i) && i0 < i
      ensures Shows(name, l) && statuses == old(statuses)[name := l.status]
      ensures i < |ps| ==> ps[i] == Acts(Wake) && CanAct(l.task, l.now, Wake)
    {
      l, i := InvokeRunner(name, l0, ps, i0);
      if i < |ps| && ps[i].a.Exit? {
        l, i := SleepAfter(name, l, ps, i);
      }
      if i < |ps| && !ps[i].a.Wake? {
        l, i := Finally(name, l, ps, i);
      }
      assert old(statuses)[name := l.status] == statuses;
    }

    /** `CancelledError` passes through the `finally` clause and ends the task. */
    method Finally(name: string, l0: Alone, ps: seq<Part>, i0: nat) returns (l: Alone, i: nat)
      requires cfg.Valid() && i0 < |ps| && CanLive(cfg, l0, ps[i0..]) && Shows(name, l0)
      requires ps[i0] == Acts(Unwind) || (ps[i0] == Acts(Cancel) && l0.task.phase.Asleep?)
      modifies this`statuses
      ensures Continues(cfg, l0, ps, i0, l, i) && i == |ps|
      ensures Shows(name, l) && statuses == old(statuses)[name := l.status]
    {
      Continue(cfg, l0, ps, i0);
      OnePart(cfg, l0, ps, i0, l0, i0);
      MarkStopped(name);
      l, i := Await(name, Alone(l0.task.(phase := Done), statuses[name], l0.now), ps, i0 + 1);
    }

    /** `_supervise`, from its creation to wherever the script of answers leaves
        it: suspended in an await, or finished.  At every await in between the
        object shows the machine's status. */
    method Supervise(name: string, born: Alone, ps: seq<Part>) returns (l: Alone)
      requires Valid() && Shows(name, born)
      requires born.task.phase.Created? && CanLive(cfg, born, ps)
      modifies this`statuses
      ensures l == Lived(cfg, born, ps)
      ensures statuses == old(statuses)[name := l.status]
    {
      var i := 0;
      assert ps[0..] == ps;
      l, i := Await(name, born, ps, 0);
      if i < |ps| && ps[i].a.Cancel? {
        // thrown at before its first line: the try block is never entered
        OnePart(cfg, born, ps, 0, l, i);
        l, i := Await(name, l.(task := l.task.(phase := Done)), ps, i + 1);
      }
      while i < |ps|
        invariant Shows(name, l) && statuses == old(statuses)[name := l.status]
        invariant Continues(cfg, born, ps, 0, l, i)
        invariant i < |ps| ==> (ps[i] == Acts(Begin) || ps[i] == Acts(Wake)) && CanAct(l.task, l.now, ps[i].a)
      {
        l, i := Turn(name, l, ps, i);
        assert statuses == old(statuses)[name := l.status];
      }
    }
  }
}
