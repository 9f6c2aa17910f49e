/** How a lifespan comes to serve, and what `app.state` shows of the runtime. */
module Startup {
  import opened Supervision
  import opened SupervisionSafety
  import opened Lifespan

  // ----- when it serves -----

  /** In the course of `hs` the action `a` ended with `o`. */
  ghost predicate Ended(app: App, l: Life, hs: seq<Happening>, a: Action, o: Outcome)
    requires app.Valid() && CanRun(app, l, hs)
    decreases |hs|
  {
    && hs != []
    && ((l.point == At(a) && hs[0] == Ends(o)) || Ended(app, Happen(app, l, hs[0]), hs[1..], a, o))
  }

  function Rank(p: Point): nat {
    if p.Finished? then 10 else
    match p.action
    case PingDatabase => 0
    case PingRedis => 1
    case ConnectBroker => 2
    case BuildRuntime => 3
    case StartRuntime => 4
    case Serve => 5
    case StopRuntime => 6
    case CloseBroker => 7
    case CloseRedis => 8
    case DisposeEngine => 9
  }

  /** Onward, and logging what begins. */
  predicate Onward(l: Life, l': Life) {
    && Rank(l'.point) > Rank(l.point)
    && l'.log == l.log + (if l'.point.At? then [l'.point.action] else [])
  }

  lemma {:induction false} StartupEndsOnward(app: App, l: Life, o: Outcome)
    requires app.Valid() && CanHappen(l, Ends(o)) && StartingUp(l.point)
    ensures Onward(l, Happen(app, l, Ends(o)))
  {
  }

  lemma {:induction false} ShutdownEndsOnward(app: App, l: Life, o: Outcome)
    requires app.Valid() && CanHappen(l, Ends(o)) && InShutdown(l.point.action)
    ensures Onward(l, Happen(app, l, Ends(o)))
  {
  }

  lemma {:induction false} RankGrows(app: App, l: Life, h: Happening)
    requires app.Valid() && CanHappen(l, h)
    ensures var l' := Happen(app, l, h);
            if h.Ends? then Onward(l, l') else l'.point == l.point && l'.log == l.log
  {
    if h.Ends? {
      if InShutdown(l.point.action) {
        ShutdownEndsOnward(app, l, h.outcome);
      } else {
        StartupEndsOnward(app, l, h.outcome);
      }
    }
  }

  /** What is behind does not end again. */
  lemma {:induction false} Behind(app: App, l: Life, hs: seq<Happening>, a: Action, o: Outcome)
    requires app.Valid() && CanRun(app, l, hs) && Rank(At(a)) < Rank(l.point)
    ensures !Ended(app, l, hs, a, o)
    decreases |hs|
  {
    if hs != [] {
      RankGrows(app, l, hs[0]);
      Behind(app, Happen(app, l, hs[0]), hs[1..], a, o);
    }
  }

  /** Past the beginning of Serve, nothing more decides whether it was begun. */
  lemma {:induction false} Settled(app: App, l: Life, hs: seq<Happening>)
    requires app.Valid() && CanRun(app, l, hs) && Rank(l.point) >= 5
    ensures Serve in After(app, l, hs).log <==> Serve in l.log
    decreases |hs|
  {
    if hs != [] {
      RankGrows(app, l, hs[0]);
      Settled(app, Happen(app, l, hs[0]), hs[1..]);
    }
  }

  /** The action let the startup go on. */
  ghost predicate Passed(app: App, l: Life, hs: seq<Happening>, a: Action)
    requires app.Valid() && CanRun(app, l, hs)
  {
    Ended(app, l, hs, a, Fine) || (a == ConnectBroker && Ended(app, l, hs, a, Fails))
  }

  lemma {:induction false} OneOn(app: App, l: Life, hs: seq<Happening>, a: Action)
    requires app.Valid() && CanRun(app, l, hs) && hs != []
    ensures Passed(app, l, hs, a) <==>
            || (l.point == At(a) && (hs[0] == Ends(Fine) || (a == ConnectBroker && hs[0] == Ends(Fails))))
            || Passed(app, Happen(app, l, hs[0]), hs[1..], a)
  {
  }

  predicate OnTheWay(app: App, a: Action) {
    match a
    case BuildRuntime => app.embedded
    case StartRuntime => app.embedded && app.registered
    case PingDatabase | PingRedis | ConnectBroker => true
    case _ => false
  }

  /** Everything from here to serving let the startup go on. */
  ghost predicate AllPassed(app: App, l: Life, hs: seq<Happening>)
    requires app.Valid() && CanRun(app, l, hs)
  {
    forall a :: OnTheWay(app, a) && Rank(At(a)) >= Rank(l.point) ==> Passed(app, l, hs, a)
  }

  lemma {:induction false} InsideNothingPasses(app: App, l: Life, hs: seq<Happening>)
    requires app.Valid() && CanRun(app, l, hs) && hs != [] && hs[0].Inside?
    ensures AllPassed(app, l, hs) <==> AllPassed(app, Happen(app, l, hs[0]), hs[1..])
  {
    RankGrows(app, l, hs[0]);
    forall a ensures Passed(app, l, hs, a) <==> Passed(app, Happen(app, l, hs[0]), hs[1..], a) {
      OneOn(app, l, hs, a);
    }
  }

  /** Where the action at hand leads when it ends. */
  lemma {:induction false} WhereItLeads(app: App, l: Life, o: Outcome)
    requires app.Valid() && CanHappen(l, Ends(o)) && OnTheWay(app, l.point.action)
    ensures var l' := Happen(app, l, Ends(o));
            && Rank(l'.point) > Rank(l.point)
            && (Rank(l'.point) <= 5 <==> o.Fine? || (l.point.action == ConnectBroker && o.Fails?))
            && (Rank(l'.point) < 5 ==> OnTheWay(app, l'.point.action))
            && (Rank(l'.point) <= 5 ==>
                  forall a :: OnTheWay(app, a) && Rank(At(a)) > Rank(l.point) ==> Rank(At(a)) >= Rank(l'.point))
  {
  }

  lemma {:induction false} OnePasses(app: App, l: Life, hs: seq<Happening>)
    requires app.Valid() && CanRun(app, l, hs) && hs != [] && hs[0].Ends? && OnTheWay(app, l.point.action)
    ensures var l' := Happen(app, l, hs[0]);
            AllPassed(app, l, hs) <==> Rank(l'.point) <= 5 && AllPassed(app, l', hs[1..])
  {
    var l' := Happen(app, l, hs[0]);
    var here := l.point.action;
    WhereItLeads(app, l, hs[0].outcome);
    OneOn(app, l, hs, here);
    Behind(app, l', hs[1..], here, Fine);
    Behind(app, l', hs[1..], here, Fails);
    forall a | a != here ensures Passed(app, l, hs, a) <==> Passed(app, l', hs[1..], a) {
      OneOn(app, l, hs, a);
    }
    if Rank(l'.point) <= 5 {
      forall a | OnTheWay(app, a) && Rank(At(a)) >= Rank(l.point) && a != here
        ensures Rank(At(a)) >= Rank(l'.point)
      {
      }
    }
  }

  lemma {:induction false} ServesIffAllPassed(app: App, l: Life, hs: seq<Happening>)
    requires app.Valid() && CanRun(app, l, hs) && Serve !in l.log
    requires l.point.At? && OnTheWay(app, l.point.action)
    ensures Serve in After(app, l, hs).log <==> AllPassed(app, l, hs)
    decreases |hs|
  {
    if hs != [] {
      var l' := Happen(app, l, hs[0]);
      RankGrows(app, l, hs[0]);
      if hs[0].Inside? {
        InsideNothingPasses(app, l, hs);
        ServesIffAllPassed(app, l', hs[1..]);
      } else {
        OnePasses(app, l, hs);
        WhereItLeads(app, l, hs[0].outcome);
        if Rank(l'.point) >= 5 {
          NothingLeft(app, l', hs[1..]);
          Settled(app, l', hs[1..]);
        } else {
          ServesIffAllPassed(app, l', hs[1..]);
        }
      }
    }
  }

  lemma {:induction false} NothingLeft(app: App, l: Life, hs: seq<Happening>)
    requires app.Valid() && CanRun(app, l, hs) && Rank(l.point) >= 5
    ensures AllPassed(app, l, hs)
  {
  }

  /** An application begins to serve exactly when the database and Redis answered,
      the attempt to connect to the broker ended, well or with a logged failure, and
      the embedded workers, if asked for, were built and started. */
  lemma {:induction false} ServesExactlyWhen(app: App, hs: seq<Happening>)
    requires app.Valid() && CanRun(app, BIRTH, hs)
    ensures Serve in After(app, BIRTH, hs).log <==>
            && Ended(app, BIRTH, hs, PingDatabase, Fine)
            && Ended(app, BIRTH, hs, PingRedis, Fine)
            && (Ended(app, BIRTH, hs, ConnectBroker, Fine) || Ended(app, BIRTH, hs, ConnectBroker, Fails))
            && (app.embedded ==> Ended(app, BIRTH, hs, BuildRuntime, Fine))
            && (app.embedded && app.registered ==> Ended(app, BIRTH, hs, StartRuntime, Fine))
  {
    ServesIffAllPassed(app, BIRTH, hs);
    assert Passed(app, BIRTH, hs, ConnectBroker) <==>
           Ended(app, BIRTH, hs, ConnectBroker, Fine) || Ended(app, BIRTH, hs, ConnectBroker, Fails);
    forall a | a != ConnectBroker ensures Passed(app, BIRTH, hs, a) <==> Ended(app, BIRTH, hs, a, Fine) {
    }
  }

  // ----- what is published -----

  predicate Showing(l: Life) {
    && (l.point.At? ==> l.point.action in l.log)
    && (Serve in l.log ==> Rank(l.point) >= 5)
    && (StartRuntime in l.log ==> Rank(l.point) >= 4)
    && (l.runtime.Some? <==> StartRuntime in l.log)
    && (l.published <==>
        l.runtime.Some? && Serve in l.log && (l.point == At(Serve) || l.point == At(StopRuntime)))
    && (l.point == At(Serve) && l.runtime.Some? ==> l.runtime.value.started)
    && (l.point == At(StopRuntime) ==> l.runtime.Some?)
  }

  lemma {:induction false} HappensShowing(app: App, l: Life, h: Happening)
    requires app.Valid() && CanHappen(l, h) && Showing(l)
    ensures Showing(Happen(app, l, h))
  {
    if h.Inside? {
      assert Happen(app, l, h).log == l.log;
    } else if InShutdown(l.point.action) {
      ShutdownEndsShowing(app, l, h.outcome);
    } else {
      StartupEndsShowing(app, l, h.outcome);
    }
  }

  lemma {:induction false} ShutdownEndsShowing(app: App, l: Life, o: Outcome)
    requires app.Valid() && CanHappen(l, Ends(o)) && Showing(l) && InShutdown(l.point.action)
    ensures Showing(Happen(app, l, Ends(o)))
  {
    RankGrows(app, l, Ends(o));
  }

  lemma {:induction false} StartupEndsShowing(app: App, l: Life, o: Outcome)
    requires app.Valid() && CanHappen(l, Ends(o)) && Showing(l) && StartingUp(l.point)
    ensures Showing(Happen(app, l, Ends(o)))
  {
    RankGrows(app, l, Ends(o));
  }

  lemma {:induction false} LivesShowing(app: App, l: Life, hs: seq<Happening>)
    requires app.Valid() && CanRun(app, l, hs) && Showing(l)
    ensures Showing(After(app, l, hs))
    decreases |hs|
  {
    if hs != [] {
      HappensShowing(app, l, hs[0]);
      LivesShowing(app, Happen(app, l, hs[0]), hs[1..]);
    }
  }

  lemma {:induction false} ServingLog(app: App, l: Life)
    requires Logged(app, l) && l.point == At(Serve)
    ensures StartRuntime in l.log <==> app.embedded && app.registered
  {
    var n: nat :| LogIs(app, l, n);
    WayInOrder(app, n);
    assert Way(app)[..n] == Way(app) && Down(l) == [] && l.log == Way(app);
    if app.embedded && app.registered {
      assert Way(app)[4] == StartRuntime;
    }
  }

  /** The runtime is built exactly when its start is begun.  While the application
      serves it is published and started if it was built; afterwards it stays
      published until `stop` has ended; at no other time does `app.state` show it. */
  lemma {:induction false} PublishedExactlyWhen(app: App, hs: seq<Happening>)
    requires app.Valid() && CanRun(app, BIRTH, hs)
    ensures var l := After(app, BIRTH, hs);
            && (l.runtime.Some? <==> StartRuntime in l.log)
            && (l.published <==>
                StartRuntime in l.log && Serve in l.log && (l.point == At(Serve) || l.point == At(StopRuntime)))
            && (l.point == At(Serve) && l.published ==> l.runtime.value.started)
            && (l.point == At(Serve) ==> (l.published <==> app.embedded && app.registered))
  {
    LivesShowing(app, BIRTH, hs);
    BirthSound(app);
    LivesSoundAndLogged(app, BIRTH, hs);
    if After(app, BIRTH, hs).point == At(Serve) {
      ServingLog(app, After(app, BIRTH, hs));
    }
  }

  /** Every action but `stop` may end in every way whenever it has been begun; `stop`
      ends once every supervisor of the runtime has, and well unless cancelled. */
  lemma {:induction false} EndsInEveryWay(app: App, hs: seq<Happening>, o: Outcome)
    requires app.Valid() && CanRun(app, BIRTH, hs) && After(app, BIRTH, hs).point.At?
    ensures var l := After(app, BIRTH, hs);
            CanHappen(l, Ends(o)) <==>
              (l.point == At(StopRuntime) ==>
                 && l.runtime.Some?
                 && (forall i :: 0 <= i < |l.runtime.value.pool| ==> !l.runtime.value.pool[i].Live())
                 && o == if l.runtime.value.lock == Held(true) then Dies else Fine)
  {
    LivesShowing(app, BIRTH, hs);
    BirthSound(app);
    LivesSoundAndLogged(app, BIRTH, hs);
    var l := After(app, BIRTH, hs);
    if l.point == At(StopRuntime) {
      StopEndsWhenAllHave(app, l, o);
    }
  }

  lemma {:induction false} StopEndsWhenAllHave(app: App, l: Life, o: Outcome)
    requires app.Valid() && Sound(app, l) && l.point == At(StopRuntime)
    ensures CanHappen(l, Ends(o)) <==>
            && (forall i :: 0 <= i < |l.runtime.value.pool| ==> !l.runtime.value.pool[i].Live())
            && o == if l.runtime.value.lock == Held(true) then Dies else Fine
  {
    var r := l.runtime.value;
    assert Inv(app.workers, r) && !r.started;
    if r.lock.Held? {
      DoneMeansAll(app.workers, r);
    }
  }

  lemma {:induction false} DoneMeansAll(cfg: Setup, r: Runtime)
    requires cfg.Valid() && Inv(cfg, r)
    ensures AllDone(r) <==> forall i :: 0 <= i < |r.pool| ==> !r.pool[i].Live()
  {
  }
}
