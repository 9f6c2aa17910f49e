/**
 Concurrent calls of `start` and `stop` behave as if made one after another in
 the order in which they got the lock, which is the order in which they came.
 */
module Linearization {
  import opened Supervision
  import opened SupervisionSafety
  import opened SupervisionTheorems

  /** What a sequential caller would see: `_started`, `_tasks`, and how many
      supervisors have ever been created. */
  datatype Lifecycle = Lifecycle(started: bool, tasks: map<string, nat>, spawned: nat)

  function Call1(cfg: Setup, l: Lifecycle, call: Call): Lifecycle {
    match call
    case StartCall =>
      if l.started then l
      else Lifecycle(true, Places(cfg, l.spawned), l.spawned + |cfg.names|)
    case StopCall =>
      if l.started then Lifecycle(false, map[], l.spawned) else l
  }

  /** The calls made one after another. */
  function Sequential(cfg: Setup, calls: seq<Call>): (l: Lifecycle)
    ensures !l.started ==> l.tasks == map[]
  {
    if calls == [] then Lifecycle(false, map[], 0)
    else Call1(cfg, Sequential(cfg, calls[..|calls| - 1]), calls[|calls| - 1])
  }

  ghost predicate Agrees(cfg: Setup, s: Runtime) {
    var l := Sequential(cfg, s.granted);
    && s.started == l.started
    && |s.pool| == l.spawned
    && (s.lock.Free? && !s.dirty ==> s.tasks == l.tasks)
  }

  lemma {:induction false} OneMoreCall(cfg: Setup, calls: seq<Call>, call: Call)
    ensures Sequential(cfg, calls + [call]) == Call1(cfg, Sequential(cfg, calls), call)
  {
    assert (calls + [call])[..|calls|] == calls;
  }

  lemma {:induction false} GrantAgrees(cfg: Setup, s: Runtime)
    requires cfg.Valid() && Agrees(cfg, s) && Enabled(s, Grant)
    ensures Agrees(cfg, Next(cfg, s, Grant))
  {
    OneMoreCall(cfg, s.granted, s.queue[0]);
  }

  lemma {:induction false} OneEventAgrees(cfg: Setup, s: Runtime, e: Event)
    requires cfg.Valid() && Inv(cfg, s) && Agrees(cfg, s) && Enabled(s, e)
    ensures Agrees(cfg, Next(cfg, s, e))
  {
    match e
    case Grant => GrantAgrees(cfg, s);
    case _ =>
  }

  lemma {:induction false} RunsAgree(cfg: Setup, s: Runtime, es: seq<Event>)
    requires cfg.Valid() && Inv(cfg, s) && Agrees(cfg, s) && ValidRun(cfg, s, es)
    ensures Agrees(cfg, Final(cfg, s, es))
    decreases |es|
  {
    if es != [] {
      OneEventAgrees(cfg, s, es[0]);
      NextInv(cfg, s, es[0]);
      RunsAgree(cfg, Next(cfg, s, es[0]), es[1..]);
    }
  }

  /** The entries that the latest effective `start` made, when `spawned`
      supervisors have been created in all. */
  function LatestEntries(cfg: Setup, spawned: nat): map<string, nat> {
    if spawned < |cfg.names| then map[] else Places(cfg, spawned - |cfg.names|)
  }

  ghost predicate KeepsEntries(s: Runtime) {
    s.started || s.lock.Held? || s.dirty
  }

  lemma {:induction false} WhoIsRegistered(cfg: Setup, s: Runtime)
    requires cfg.Valid() && Inv(cfg, s)
    ensures if KeepsEntries(s) then s.tasks.Keys == cfg.place.Keys else s.tasks == map[]
  {
  }

  lemma {:induction false} RememberedEntries(cfg: Setup, s: Runtime)
    requires cfg.Valid() && AllRemember(cfg, s) && s.tasks.Keys == cfg.place.Keys
    ensures s.tasks == LatestEntries(cfg, |s.pool|)
  {
    assert cfg.names[0] in s.tasks && Remembers(cfg, s, cfg.names[0]);
    forall n | n in cfg.place ensures s.tasks[n] == LatestEntries(cfg, |s.pool|)[n] {
      assert Remembers(cfg, s, n);
    }
  }

  lemma {:induction false} RegistryOfReachable(cfg: Setup, s: Runtime)
    requires cfg.Valid() && Reachable(cfg, s)
    ensures s.tasks == if KeepsEntries(s) then LatestEntries(cfg, |s.pool|) else map[]
  {
    ReachableInv(cfg, s);
    WhoIsRegistered(cfg, s);
    if KeepsEntries(s) {
      ReachableRemembers(cfg, s);
      RememberedEntries(cfg, s);
    }
  }

  /** Whatever the interleaving, the lifecycle is the one the granted calls
      would have produced sequentially; while a `stop` waits, and after one that was
      aborted, the entries of the latest effective `start` are still there. */
  lemma {:induction false} LinearizesInLockOrder(cfg: Setup, s: Runtime)
    requires cfg.Valid() && Reachable(cfg, s)
    ensures s.started == Sequential(cfg, s.granted).started
    ensures |s.pool| == Sequential(cfg, s.granted).spawned
    ensures s.lock.Free? && !s.dirty ==>
              Lifecycle(s.started, s.tasks, |s.pool|) == Sequential(cfg, s.granted)
    ensures s.lock.Held? || s.dirty ==> s.tasks == LatestEntries(cfg, Sequential(cfg, s.granted).spawned)
  {
    var now: real, es: seq<Event> :| ValidRun(cfg, Initial(cfg, now), es) && Final(cfg, Initial(cfg, now), es) == s;
    InitialInv(cfg, now);
    RunsAgree(cfg, Initial(cfg, now), es);
    RegistryOfReachable(cfg, s);
  }

  function Arrival(e: Event): seq<Call> {
    if e.Arrive? then [e.call] else []
  }

  function Arrivals(es: seq<Event>): seq<Call> {
    if es == [] then [] else Arrival(es[0]) + Arrivals(es[1..])
  }

  function Line(s: Runtime): seq<Call> {
    s.granted + s.queue
  }

  lemma {:induction false} OneEventInLine(cfg: Setup, s: Runtime, e: Event)
    requires cfg.Valid() && Enabled(s, e)
    ensures Line(Next(cfg, s, e)) == Line(s) + Arrival(e)
  {
  }

  lemma {:induction false} Joined(line: seq<Call>, first: seq<Call>, rest: seq<Call>)
    ensures (line + first) + rest == line + (first + rest)
  {
  }

  /** The lock is granted in order of arrival, and nobody is forgotten. */
  lemma {:induction false} FirstComeFirstServed(cfg: Setup, s: Runtime, es: seq<Event>)
    requires cfg.Valid() && ValidRun(cfg, s, es)
    ensures Line(Final(cfg, s, es)) == Line(s) + Arrivals(es)
    decreases |es|
  {
    if es == [] {
      assert Arrivals(es) == [] && Line(s) + [] == Line(s);
    } else {
      var s1 := Next(cfg, s, es[0]);
      OneEventInLine(cfg, s, es[0]);
      FirstComeFirstServed(cfg, s1, es[1..]);
      Joined(Line(s), Arrival(es[0]), Arrivals(es[1..]));
      assert Final(cfg, s, es) == Final(cfg, s1, es[1..]);
    }
  }
}
