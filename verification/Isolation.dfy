/**
 Supervisors do not see each other.  Between a `start` and the next `stop` the
 runtime is exactly the product of its workers: a run is possible if and only if
 every worker, alone with the clock, could live its own part of it.
 */
module Isolation {
  import opened Options
  import opened Supervision
  import opened SupervisionSafety

  // ----- one worker alone with the clock -----

  datatype Alone = Alone(task: Task, status: Status, now: real)
  datatype Part = Acts(a: Act) | Passes(dt: real)

  predicate CanDo(l: Alone, p: Part) {
    match p
    case Acts(a) => CanAct(l.task, l.now, a)
    case Passes(dt) => dt >= 0.0
  }

  function Do(cfg: Setup, l: Alone, p: Part): Alone
    requires cfg.Valid()
  {
    match p
    case Acts(a) => var w := Doing(cfg, Worker(l.task, l.status), l.now, a); Alone(w.task, w.status, l.now)
    case Passes(dt) => l.(now := l.now + dt)
  }

  ghost predicate CanLive(cfg: Setup, l: Alone, ps: seq<Part>)
    requires cfg.Valid()
    decreases |ps|
  {
    ps == [] || (CanDo(l, ps[0]) && CanLive(cfg, Do(cfg, l, ps[0]), ps[1..]))
  }

  ghost function Lived(cfg: Setup, l: Alone, ps: seq<Part>): Alone
    requires cfg.Valid() && CanLive(cfg, l, ps)
    decreases |ps|
  {
    if ps == [] then l else Lived(cfg, Do(cfg, l, ps[0]), ps[1..])
  }

  // ----- projection -----

  function PartOf(e: Event, i: nat): Option<Part> {
    match e
    case Step(j, a) => if i == j then Some(Acts(a)) else None
    case Tick(dt) => Some(Passes(dt))
    case _ => None
  }

  /** What supervisor `i` notices of a run. */
  function Project(es: seq<Event>, i: nat): seq<Part> {
    if es == [] then []
    else match PartOf(es[0], i)
         case None => Project(es[1..], i)
         case Some(p) => [p] + Project(es[1..], i)
  }

  function View(s: Runtime, i: nat): Alone
    requires i < |s.pool| && s.pool[i].name in s.statuses
  {
    Alone(s.pool[i], s.statuses[s.pool[i].name], s.now)
  }

  /** Every registered supervisor, by its place in the pool. */
  ghost predicate Registered(s: Runtime, i: nat) {
    IsCurrent(s, i) && s.pool[i].name in s.statuses
  }

  /** Between a `start` and the next `stop`: calls may queue and further starts
      may get the lock, but no `stop` does. */
  ghost predicate NoStopGranted(cfg: Setup, s: Runtime, es: seq<Event>)
    requires cfg.Valid() && ValidRun(cfg, s, es)
    decreases |es|
  {
    es == [] || ((es[0].Grant? ==> s.queue[0].StartCall?) && NoStopGranted(cfg, Next(cfg, s, es[0]), es[1..]))
  }

  lemma {:induction false} OneStepProjects(cfg: Setup, s: Runtime, j: nat, a: Act, i: nat)
    requires cfg.Valid() && Control(cfg, s) && s.started && Enabled(s, Step(j, a)) && Registered(s, i)
    ensures var s' := Next(cfg, s, Step(j, a));
            && Registered(s', i)
            && (if i == j then CanDo(View(s, i), Acts(a)) && View(s', i) == Do(cfg, View(s, i), Acts(a))
                else View(s', i) == View(s, i))
  {
    StepPool(cfg, s, j, a);
    assert IsCurrent(s, j);
  }

  /** One event, seen by one worker. */
  lemma {:induction false} OneEventProjects(cfg: Setup, s: Runtime, e: Event, i: nat)
    requires cfg.Valid() && Control(cfg, s) && s.started && Enabled(s, e) && Registered(s, i)
    requires e.Grant? ==> s.queue[0].StartCall?
    ensures var s' := Next(cfg, s, e);
            && Control(cfg, s') && s'.started && Registered(s', i) && s'.tasks == s.tasks
            && match PartOf(e, i)
               case None => View(s', i) == View(s, i)
               case Some(p) => CanDo(View(s, i), p) && View(s', i) == Do(cfg, View(s, i), p)
  {
    match e
    case Step(j, a) =>
      StepControl(cfg, s, j, a);
      OneStepProjects(cfg, s, j, a, i);
    case _ =>
  }

  /** Erasing everything but its own steps and the clock leaves each worker a
      life it could have led alone, with the same task and the same status. */
  lemma {:induction false} RunsProject(cfg: Setup, s: Runtime, es: seq<Event>, i: nat)
    requires cfg.Valid() && Control(cfg, s) && s.started && Registered(s, i)
    requires ValidRun(cfg, s, es) && NoStopGranted(cfg, s, es)
    ensures CanLive(cfg, View(s, i), Project(es, i))
    ensures Registered(Final(cfg, s, es), i)
    ensures Lived(cfg, View(s, i), Project(es, i)) == View(Final(cfg, s, es), i)
    decreases |es|
  {
    if es != [] {
      OneEventProjects(cfg, s, es[0], i);
      RunsProject(cfg, Next(cfg, s, es[0]), es[1..], i);
      assert PartOf(es[0], i).Some? ==> Project(es, i)[1..] == Project(es[1..], i);
    }
  }

  /** Events of supervisors and the clock only. */
  ghost predicate WorkOnly(s: Runtime, es: seq<Event>) {
    forall k :: 0 <= k < |es| ==> (es[k].Step? && Registered(s, es[k].task)) || es[k].Tick?
  }

  ghost predicate EveryoneCan(cfg: Setup, s: Runtime, es: seq<Event>)
    requires cfg.Valid()
  {
    forall i: nat :: Registered(s, i) ==> CanLive(cfg, View(s, i), Project(es, i))
  }

  /** The converse: any interleaving of lives the workers could lead alone is a
      run of the runtime.  No pattern of failures in one worker rules out, or
      brings about, anything in another. */
  lemma {:induction false} LivesInterleave(cfg: Setup, s: Runtime, es: seq<Event>)
    requires cfg.Valid() && Control(cfg, s) && s.started && WorkOnly(s, es)
    ensures ValidRun(cfg, s, es) <==> EveryoneCan(cfg, s, es)
    decreases |es|
  {
    if es == [] {
    } else {
      if EveryoneCan(cfg, s, es) {
        FirstEventEnabled(cfg, s, es);
      }
      if Enabled(s, es[0]) {
        var s' := Next(cfg, s, es[0]);
        RestOfLives(cfg, s, es);
        LivesInterleave(cfg, s', es[1..]);
      }
    }
  }

  lemma {:induction false} FirstEventEnabled(cfg: Setup, s: Runtime, es: seq<Event>)
    requires cfg.Valid() && Control(cfg, s) && s.started && WorkOnly(s, es) && es != [] && EveryoneCan(cfg, s, es)
    ensures Enabled(s, es[0])
  {
    match es[0]
    case Step(j, a) =>
      assert Registered(s, j);
      assert Project(es, j)[0] == Acts(a);
    case Tick(dt) =>
      assert cfg.names[0] in s.tasks;
      var i := s.tasks[cfg.names[0]];
      assert Registered(s, i);
      assert Project(es, i)[0] == Passes(dt);
    case _ =>
  }

  /** The first event takes the first part, if any, off a worker's life. */
  lemma {:induction false} RestOfOneLife(cfg: Setup, s: Runtime, es: seq<Event>, i: nat)
    requires cfg.Valid() && Control(cfg, s) && s.started && es != [] && Enabled(s, es[0]) && Registered(s, i)
    requires es[0].Step? || es[0].Tick?
    ensures var s' := Next(cfg, s, es[0]);
            && Registered(s', i)
            && (CanLive(cfg, View(s, i), Project(es, i)) <==> CanLive(cfg, View(s', i), Project(es[1..], i)))
  {
    OneEventProjects(cfg, s, es[0], i);
    var l := View(s, i);
    match PartOf(es[0], i)
    case None =>
    case Some(p) => LifeUnfolds(cfg, l, p, Project(es[1..], i));
  }

  lemma {:induction false} LifeUnfolds(cfg: Setup, l: Alone, p: Part, ps: seq<Part>)
    requires cfg.Valid() && CanDo(l, p)
    ensures CanLive(cfg, l, [p] + ps) <==> CanLive(cfg, Do(cfg, l, p), ps)
  {
    assert ([p] + ps)[1..] == ps;
  }

  lemma {:induction false} SameRegistered(cfg: Setup, s: Runtime, e: Event)
    requires cfg.Valid() && Control(cfg, s) && s.started && Enabled(s, e) && (e.Step? || e.Tick?)
    ensures var s' := Next(cfg, s, e);
            && Control(cfg, s') && s'.started
            && forall i: nat :: Registered(s', i) <==> Registered(s, i)
  {
    match e
    case Step(j, a) =>
      StepControl(cfg, s, j, a);
      StepPool(cfg, s, j, a);
    case _ =>
  }

  lemma {:induction false} RestOfLives(cfg: Setup, s: Runtime, es: seq<Event>)
    requires cfg.Valid() && Control(cfg, s) && s.started && WorkOnly(s, es) && es != [] && Enabled(s, es[0])
    ensures var s' := Next(cfg, s, es[0]);
            && Control(cfg, s') && s'.started && WorkOnly(s', es[1..])
            && (EveryoneCan(cfg, s, es) <==> EveryoneCan(cfg, s', es[1..]))
  {
    SameRegistered(cfg, s, es[0]);
    forall i: nat | Registered(s, i)
      ensures CanLive(cfg, View(s, i), Project(es, i)) <==>
              CanLive(cfg, View(Next(cfg, s, es[0]), i), Project(es[1..], i))
    {
      RestOfOneLife(cfg, s, es, i);
    }
  }

  /** Steps of different workers commute. */
  lemma {:induction false} StepsCommute(cfg: Setup, s: Runtime, i: nat, a: Act, j: nat, b: Act)
    requires cfg.Valid() && Control(cfg, s) && i != j
    requires Enabled(s, Step(i, a)) && Enabled(s, Step(j, b))
    ensures Enabled(Next(cfg, s, Step(i, a)), Step(j, b))
    ensures Enabled(Next(cfg, s, Step(j, b)), Step(i, a))
    ensures Next(cfg, Next(cfg, s, Step(i, a)), Step(j, b)) == Next(cfg, Next(cfg, s, Step(j, b)), Step(i, a))
  {
    assert IsCurrent(s, i) && IsCurrent(s, j);
    StepsOfTwoNamesCommute(cfg, s, i, a, j, b);
  }

  lemma {:induction false} StepsOfTwoNamesCommute(cfg: Setup, s: Runtime, i: nat, a: Act, j: nat, b: Act)
    requires cfg.Valid() && i != j && Enabled(s, Step(i, a)) && Enabled(s, Step(j, b))
    requires s.pool[i].name != s.pool[j].name
    ensures Enabled(Next(cfg, s, Step(i, a)), Step(j, b))
    ensures Enabled(Next(cfg, s, Step(j, b)), Step(i, a))
    ensures Next(cfg, Next(cfg, s, Step(i, a)), Step(j, b)) == Next(cfg, Next(cfg, s, Step(j, b)), Step(i, a))
  {
    var wi := Doing(cfg, Worker(s.pool[i], s.statuses[s.pool[i].name]), s.now, a);
    var wj := Doing(cfg, Worker(s.pool[j], s.statuses[s.pool[j].name]), s.now, b);
    assert s.pool[i := wi.task][j := wj.task] == s.pool[j := wj.task][i := wi.task];
    assert s.statuses[s.pool[i].name := wi.status][s.pool[j].name := wj.status]
        == s.statuses[s.pool[j].name := wj.status][s.pool[i].name := wi.status];
  }
}
