/**
 When `stop` comes back.  While it waits, every event other than a step of a
 supervisor leaves the supervisors alive, so the work left is the number of live
 ones, and one step more for each cancellation that a runner may first swallow.
 */
module StopTermination {
  import opened Backoff
  import opened Supervision
  import opened SupervisionSafety

  function Count(pool: seq<Task>, p: Task -> bool): nat {
    if pool == [] then 0
    else Count(pool[..|pool| - 1], p) + if p(pool[|pool| - 1]) then 1 else 0
  }

  const LIVE := (t: Task) => t.Live()

  const PENDING := (t: Task) => t.Live() && t.cancelled

  /** How many supervisors are alive. */
  function LiveCount(pool: seq<Task>): nat {
    Count(pool, LIVE)
  }

  /** How many of them have a cancellation coming. */
  function PendingCount(pool: seq<Task>): nat {
    Count(pool, PENDING)
  }

  function StepCount(es: seq<Event>): nat {
    if es == [] then 0 else (if es[0].Step? then 1 else 0) + StepCount(es[1..])
  }

  predicate IsSwallow(e: Event) {
    e.Step? && e.act.Swallow?
  }

  function SwallowCount(es: seq<Event>): nat {
    if es == [] then 0 else (if IsSwallow(es[0]) then 1 else 0) + SwallowCount(es[1..])
  }

  /** `stop` is in `gather`, and every supervisor it waits for has a cancellation
      coming or is in a runner that has swallowed it. */
  ghost predicate Stopping(s: Runtime) {
    && s.lock.Held?
    && forall i :: 0 <= i < |s.pool| && s.pool[i].Live() ==> s.pool[i].cancelled || s.pool[i].phase.InRunner?
  }

  /** The runner does not answer with a return or an Exception: it may absorb a
      cancellation, to clean up, but then ends with CancelledError. */
  predicate Propagates(e: Event) {
    e.Step? ==> !e.act.Exit?
  }

  ghost predicate AllPropagate(es: seq<Event>) {
    forall k :: 0 <= k < |es| ==> Propagates(es[k])
  }

  /** How many cancellations the cancelled callers of `stop` send again. */
  ghost function Resent(cfg: Setup, s: Runtime, es: seq<Event>): nat
    requires cfg.Valid() && ValidRun(cfg, s, es)
    decreases |es|
  {
    if es == [] then 0
    else (if es[0].AbortStop? then LiveCount(s.pool) else 0) + Resent(cfg, Next(cfg, s, es[0]), es[1..])
  }

  lemma {:induction false} CountUpdate(pool: seq<Task>, i: nat, t: Task, p: Task -> bool)
    requires i < |pool|
    ensures Count(pool[i := t], p) == Count(pool, p) - (if p(pool[i]) then 1 else 0) + (if p(t) then 1 else 0)
  {
    var n := |pool| - 1;
    if i == n {
      assert pool[i := t][..n] == pool[..n];
    } else {
      assert pool[i := t][..n] == pool[..n][i := t];
      CountUpdate(pool[..n], i, t, p);
    }
  }

  lemma {:induction false} CountMonotone(pool: seq<Task>, pool': seq<Task>, p: Task -> bool, p': Task -> bool)
    requires |pool| == |pool'| && forall i :: 0 <= i < |pool| && p(pool[i]) ==> p'(pool'[i])
    ensures Count(pool, p) <= Count(pool', p')
  {
    if pool != [] {
      var n := |pool| - 1;
      CountMonotone(pool[..n], pool'[..n], p, p');
    }
  }

  lemma {:induction false} LiveCountZero(p: seq<Task>)
    ensures LiveCount(p) == 0 <==> forall i :: 0 <= i < |p| ==> !p[i].Live()
  {
    if p != [] {
      var n := |p| - 1;
      LiveCountZero(p[..n]);
      assert forall i :: 0 <= i < |p| ==> i == n || p[i] == p[..n][i];
      assert forall i :: 0 <= i < n ==> p[..n][i] == p[i];
    }
  }

  lemma {:induction false} PendingAreLive(pool: seq<Task>)
    ensures PendingCount(pool) <= LiveCount(pool)
  {
    CountMonotone(pool, pool, PENDING, LIVE);
  }

  lemma {:induction false} SameLives(p: seq<Task>, q: seq<Task>)
    requires |p| == |q| && forall i :: 0 <= i < |p| ==> p[i].Live() == q[i].Live()
    ensures LiveCount(p) == LiveCount(q)
  {
    CountMonotone(p, q, LIVE, LIVE);
    CountMonotone(q, p, LIVE, LIVE);
  }

  /** Once `stop` holds the lock, a step of a propagating runner's supervisor ends
      it, or takes one cancellation away. */
  lemma {:induction false} OneStepOfStopping(cfg: Setup, s: Runtime, i: nat, a: Act)
    requires cfg.Valid() && Stopping(s) && Enabled(s, Step(i, a)) && !a.Exit?
    ensures var s' := Next(cfg, s, Step(i, a));
            && Stopping(s')
            && LiveCount(s'.pool) + (if a.Swallow? then 0 else 1) == LiveCount(s.pool)
            && PendingCount(s'.pool) + (if a.Swallow? then 1 else 0) <= PendingCount(s.pool)
  {
    var s' := Next(cfg, s, Step(i, a));
    CountUpdate(s.pool, i, s'.pool[i], LIVE);
    CountUpdate(s.pool, i, s'.pool[i], PENDING);
  }

  lemma {:induction false} OneEventOfStopping(cfg: Setup, s: Runtime, e: Event)
    requires cfg.Valid() && Stopping(s) && Enabled(s, e) && Propagates(e) && !e.Gathered?
    ensures var s' := Next(cfg, s, e);
            && Stopping(s')
            && LiveCount(s'.pool) + (if e.Step? && !IsSwallow(e) then 1 else 0) == LiveCount(s.pool)
            && PendingCount(s'.pool) + (if IsSwallow(e) then 1 else 0) <=
               PendingCount(s.pool) + (if e.AbortStop? then LiveCount(s.pool) else 0)
  {
    match e
    case Step(i, a) => OneStepOfStopping(cfg, s, i, a);
    case AbortStop =>
      var s' := Next(cfg, s, e);
      SameLives(s.pool, s'.pool);
      PendingAreLive(s'.pool);
    case _ =>
  }

  /** What ends `stop`: the steps that are not swallowings are exactly the
      supervisors that have died, and no more cancellations are swallowed than were
      under way or sent again. */
  lemma {:induction false} StepsLeftUnderStop(cfg: Setup, s: Runtime, es: seq<Event>)
    requires cfg.Valid() && Stopping(s) && ValidRun(cfg, s, es) && AllPropagate(es) && NotGathered(es)
    ensures Stopping(Final(cfg, s, es))
    ensures StepCount(es) - SwallowCount(es) + LiveCount(Final(cfg, s, es).pool) == LiveCount(s.pool)
    ensures SwallowCount(es) + PendingCount(Final(cfg, s, es).pool) <= PendingCount(s.pool) + Resent(cfg, s, es)
    decreases |es|
  {
    if es != [] {
      assert Propagates(es[0]);
      OneEventOfStopping(cfg, s, es[0]);
      StepsLeftUnderStop(cfg, Next(cfg, s, es[0]), es[1..]);
    }
  }

  lemma {:induction false} NothingResent(cfg: Setup, s: Runtime, es: seq<Event>)
    requires cfg.Valid() && ValidRun(cfg, s, es) && NoAbort(es)
    ensures Resent(cfg, s, es) == 0
    decreases |es|
  {
    if es != [] {
      NothingResent(cfg, Next(cfg, s, es[0]), es[1..]);
    }
  }

  /** If nobody cancels `stop` itself, it takes at most two steps per supervisor,
      and one if no cancellation is swallowed on the way. */
  lemma {:induction false} StopTakesTwoStepsEach(cfg: Setup, s: Runtime, es: seq<Event>)
    requires cfg.Valid() && Stopping(s) && ValidRun(cfg, s, es) && AllPropagate(es) && NotGathered(es) && NoAbort(es)
    ensures StepCount(es) + LiveCount(Final(cfg, s, es).pool) <= 2 * LiveCount(s.pool)
    ensures SwallowCount(es) == 0 ==> StepCount(es) + LiveCount(Final(cfg, s, es).pool) == LiveCount(s.pool)
  {
    StepsLeftUnderStop(cfg, s, es);
    NothingResent(cfg, s, es);
    PendingAreLive(s.pool);
  }

  /** And `stop` never gets stuck: some supervisor can end, or `gather` can
      return. */
  lemma {:induction false} StopCanAdvance(cfg: Setup, s: Runtime)
    requires cfg.Valid() && Inv(cfg, s) && Stopping(s)
    ensures LiveCount(s.pool) == 0 <==> Enabled(s, Gathered)
    ensures LiveCount(s.pool) > 0 ==>
              exists i: nat, a :: Enabled(s, Step(i, a)) && (a.Unwind? || a.Cancel?)
  {
    LiveCountZero(s.pool);
    if Enabled(s, Gathered) {
      forall i | 0 <= i < |s.pool| ensures !s.pool[i].Live() {
        assert s.pool[i].Live() ==> IsCurrent(s, i);
      }
    } else if LiveCount(s.pool) > 0 {
      var i :| 0 <= i < |s.pool| && s.pool[i].Live();
      assert IsCurrent(s, i);
      var a := if s.pool[i].phase.InRunner? then Unwind else Cancel;
      assert Enabled(s, Step(i, a)) && (a.Unwind? || a.Cancel?);
    }
  }

  lemma {:induction false} CancelTasksMarksTheLiving(s: Runtime)
    requires LiveIsCurrent(s)
    ensures var p := CancelTasks(s);
            && LiveCount(p) == LiveCount(s.pool)
            && forall i :: 0 <= i < |p| && p[i].Live() ==> p[i].cancelled
  {
    var p := CancelTasks(s);
    SameLives(s.pool, p);
    forall i | 0 <= i < |p| && p[i].Live() ensures p[i].cancelled {
      assert s.pool[i].Live() ==> IsCurrent(s, i);
    }
  }

  /** Taking the lock for an effective `stop` begins exactly this phase, with a
      cancellation on its way to every live supervisor, and with every status reading
      "stopping" and otherwise as it was. */
  lemma {:induction false} StopBegins(cfg: Setup, s: Runtime)
    requires cfg.Valid() && Inv(cfg, s) && s.started && Enabled(s, Grant) && s.queue[0].StopCall?
    ensures var s' := Next(cfg, s, Grant);
            && Stopping(s')
            && LiveCount(s'.pool) == LiveCount(s.pool)
            && (forall i :: 0 <= i < |s'.pool| && s'.pool[i].Live() ==> s'.pool[i].cancelled)
            && s'.statuses.Keys == s.statuses.Keys
            && (forall n :: n in s.statuses ==> s'.statuses[n] == s.statuses[n].(state := WorkerState.Stopping))
  {
    var s0 := s.(queue := s.queue[1..], granted := s.granted + [s.queue[0]]);
    assert LiveIsCurrent(s0);
    CancelTasksMarksTheLiving(s0);
  }

  // ----- after stop -----

  ghost predicate NoStartGranted(cfg: Setup, s: Runtime, es: seq<Event>)
    requires cfg.Valid() && ValidRun(cfg, s, es)
    decreases |es|
  {
    es == [] || ((es[0].Grant? ==> s.queue[0].StopCall?) && NoStartGranted(cfg, Next(cfg, s, es[0]), es[1..]))
  }

  /** After `stop` and until some `start` gets the lock, no runner is invoked
      and no status changes, whatever else happens. */
  lemma {:induction false} QuietAfterStop(cfg: Setup, s: Runtime, es: seq<Event>)
    requires cfg.Valid() && Inv(cfg, s) && !s.started && s.lock.Free?
    requires ValidRun(cfg, s, es) && NoStartGranted(cfg, s, es)
    ensures var s' := Final(cfg, s, es);
            s'.statuses == s.statuses && s'.pool == s.pool && s'.tasks == s.tasks && !s'.started
    ensures StepCount(es) == 0
    decreases |es|
  {
    if es != [] {
      NextInv(cfg, s, es[0]);
      QuietAfterStop(cfg, Next(cfg, s, es[0]), es[1..]);
    }
  }

  // ----- runners that do not let the cancellation through -----

  /** No runner is left to swallow anything. */
  ghost predicate NobodyInRunner(s: Runtime) {
    forall i :: 0 <= i < |s.pool| ==> !s.pool[i].phase.InRunner?
  }

  lemma {:induction false} StillNobodyInRunner(cfg: Setup, s: Runtime, e: Event)
    requires cfg.Valid() && Stopping(s) && NobodyInRunner(s) && Enabled(s, e) && !e.Gathered?
    ensures NobodyInRunner(Next(cfg, s, e)) && Propagates(e) && !IsSwallow(e)
  {
  }

  lemma {:induction false} UnstartedAndSleepingOnlyDie(cfg: Setup, s: Runtime, es: seq<Event>)
    requires cfg.Valid() && Stopping(s) && NobodyInRunner(s) && ValidRun(cfg, s, es) && NotGathered(es)
    ensures StepCount(es) <= LiveCount(s.pool)
    decreases |es|
  {
    if es != [] {
      StillNobodyInRunner(cfg, s, es[0]);
      OneEventOfStopping(cfg, s, es[0]);
      UnstartedAndSleepingOnlyDie(cfg, Next(cfg, s, es[0]), es[1..]);
    }
  }

  /** A runner that returns on cancellation, a timer, and the runner again. */
  function StallEvent(cfg: Setup, i: nat, k: nat): Event {
    if k % 3 == 0 then Step(i, Exit(ByReturn))
    else if k % 3 == 1 then Tick(cfg.backoff.max)
    else Step(i, Wake)
  }

  ghost predicate Stalled(cfg: Setup, s: Runtime, i: nat, k: nat) {
    && s.lock.Held?
    && i < |s.pool| && s.pool[i].name in s.statuses
    && (if k % 3 == 0 then s.pool[i].phase.InRunner?
        else && s.pool[i].phase.Asleep? && !s.pool[i].cancelled
             && s.pool[i].phase.wake <= s.now + if k % 3 == 1 then cfg.backoff.max else 0.0)
  }

  lemma {:induction false} StallAdvances(cfg: Setup, s: Runtime, i: nat, k: nat)
    requires cfg.Valid() && Stalled(cfg, s, i, k)
    ensures Enabled(s, StallEvent(cfg, i, k))
    ensures var s' := Next(cfg, s, StallEvent(cfg, i, k));
            && Stalled(cfg, s', i, k + 1)
            && s'.tasks == s.tasks && s'.pool[i].name == s.pool[i].name
  {
    DelayBounds(cfg.backoff, s.statuses[s.pool[i].name].restarts);
  }

  /** State `k` of the run in which supervisor `i` keeps restarting. */
  ghost function StallState(cfg: Setup, s: Runtime, i: nat, k: nat): (s': Runtime)
    requires cfg.Valid() && Stalled(cfg, s, i, 0)
    ensures Stalled(cfg, s', i, k)
    ensures s'.tasks == s.tasks && s'.pool[i].name == s.pool[i].name
  {
    if k == 0 then s
    else
      var p := StallState(cfg, s, i, k - 1);
      StallAdvances(cfg, p, i, k - 1);
      Next(cfg, p, StallEvent(cfg, i, k - 1))
  }

  /** One runner that turns its cancellation into a return keeps `stop` waiting
      for ever: here is the infinite run, with `gather` pending in every state
      of it. */
  lemma {:induction false} StopMayNeverReturn(cfg: Setup, s: Runtime, i: nat, k: nat)
    requires cfg.Valid() && Inv(cfg, s) && s.lock.Held? && i < |s.pool| && s.pool[i].phase.InRunner?
    ensures Stalled(cfg, s, i, 0) && StallState(cfg, s, i, 0) == s
    ensures var sk := StallState(cfg, s, i, k);
            && Enabled(sk, StallEvent(cfg, i, k))
            && StallState(cfg, s, i, k + 1) == Next(cfg, sk, StallEvent(cfg, i, k))
            && sk.lock.Held?
            && !Enabled(sk, Gathered)
  {
    SomeRunnerStalls(cfg, s, i);
    StallAdvances(cfg, StallState(cfg, s, i, k), i, k);
    StalledIsNotDone(cfg, StallState(cfg, s, i, k), i, k);
  }

  lemma {:induction false} StalledIsNotDone(cfg: Setup, s: Runtime, i: nat, k: nat)
    requires Stalled(cfg, s, i, k) && IsCurrent(s, i)
    ensures !Enabled(s, Gathered)
  {
    assert s.tasks[s.pool[i].name] == i;
  }

  lemma {:induction false} SomeRunnerStalls(cfg: Setup, s: Runtime, i: nat)
    requires cfg.Valid() && Inv(cfg, s) && s.lock.Held? && i < |s.pool| && s.pool[i].phase.InRunner?
    ensures Stalled(cfg, s, i, 0) && IsCurrent(s, i)
  {
    assert s.pool[i].Live();
    assert IsCurrent(s, i);
  }

  function StallPrefix(cfg: Setup, i: nat, k: nat): seq<Event> {
    if k == 0 then [] else StallPrefix(cfg, i, k - 1) + [StallEvent(cfg, i, k - 1)]
  }

  lemma {:induction false} StepCountAppend(es: seq<Event>, e: Event)
    ensures StepCount(es + [e]) == StepCount(es) + if e.Step? then 1 else 0
  {
    if es == [] {
      assert [e][1..] == [];
    } else {
      assert (es + [e])[1..] == es[1..] + [e];
      StepCountAppend(es[1..], e);
    }
  }

  lemma {:induction false} StallPrefixWaits(cfg: Setup, i: nat, k: nat)
    ensures NotGathered(StallPrefix(cfg, i, k))
  {
    if k > 0 {
      StallPrefixWaits(cfg, i, k - 1);
    }
  }

  lemma {:induction false} OneRound(cfg: Setup, i: nat, k: nat)
    requires k % 3 == 0
    ensures StepCount(StallPrefix(cfg, i, k + 3)) == StepCount(StallPrefix(cfg, i, k)) + 2
  {
    StepCountAppend(StallPrefix(cfg, i, k), StallEvent(cfg, i, k));
    StepCountAppend(StallPrefix(cfg, i, k + 1), StallEvent(cfg, i, k + 1));
    StepCountAppend(StallPrefix(cfg, i, k + 2), StallEvent(cfg, i, k + 2));
  }

  lemma {:induction false} WholeRounds(rounds: nat)
    ensures 3 * rounds % 3 == 0
  {
  }

  /** Two steps in every round of three events. */
  lemma {:induction false} StallPrefixSteps(cfg: Setup, i: nat, rounds: nat, k: nat)
    requires k == 3 * rounds
    ensures StepCount(StallPrefix(cfg, i, k)) == 2 * rounds
    decreases rounds
  {
    if rounds > 0 {
      WholeRounds(rounds - 1);
      StallPrefixSteps(cfg, i, rounds - 1, k - 3);
      OneRound(cfg, i, k - 3);
    }
  }

  lemma {:induction false} StallStateNext(cfg: Setup, s: Runtime, i: nat, k: nat)
    requires cfg.Valid() && Stalled(cfg, s, i, 0)
    ensures Enabled(StallState(cfg, s, i, k), StallEvent(cfg, i, k))
    ensures StallState(cfg, s, i, k + 1) == Next(cfg, StallState(cfg, s, i, k), StallEvent(cfg, i, k))
  {
    StallAdvances(cfg, StallState(cfg, s, i, k), i, k);
  }

  lemma {:induction false} LongerRun(cfg: Setup, s: Runtime, es: seq<Event>, e: Event, p: Runtime, q: Runtime)
    requires cfg.Valid() && ValidRun(cfg, s, es) && Final(cfg, s, es) == p && Enabled(p, e) && q == Next(cfg, p, e)
    ensures ValidRun(cfg, s, es + [e]) && Final(cfg, s, es + [e]) == q
  {
    OneMore(cfg, s, es, e);
  }

  lemma {:induction false} StallPrefixStep(cfg: Setup, s: Runtime, i: nat, k: nat, es: seq<Event>)
    requires cfg.Valid() && Stalled(cfg, s, i, 0)
    requires ValidRun(cfg, s, es) && Final(cfg, s, es) == StallState(cfg, s, i, k)
    ensures ValidRun(cfg, s, es + [StallEvent(cfg, i, k)])
    ensures Final(cfg, s, es + [StallEvent(cfg, i, k)]) == StallState(cfg, s, i, k + 1)
  {
    StallStateNext(cfg, s, i, k);
    LongerRun(cfg, s, es, StallEvent(cfg, i, k), StallState(cfg, s, i, k), StallState(cfg, s, i, k + 1));
  }

  lemma {:induction false} StallPrefixRuns(cfg: Setup, s: Runtime, i: nat, k: nat)
    requires cfg.Valid() && Stalled(cfg, s, i, 0)
    ensures ValidRun(cfg, s, StallPrefix(cfg, i, k))
    ensures Final(cfg, s, StallPrefix(cfg, i, k)) == StallState(cfg, s, i, k)
  {
    if k > 0 {
      StallPrefixRuns(cfg, s, i, k - 1);
      StallPrefixStep(cfg, s, i, k - 1, StallPrefix(cfg, i, k - 1));
    }
  }

  lemma {:induction false} OneMore(cfg: Setup, s: Runtime, es: seq<Event>, e: Event)
    requires cfg.Valid() && ValidRun(cfg, s, es) && Enabled(Final(cfg, s, es), e)
    ensures ValidRun(cfg, s, es + [e])
    ensures Final(cfg, s, es + [e]) == Next(cfg, Final(cfg, s, es), e)
  {
    RunsCompose(cfg, s, es, [e]);
    assert [e][1..] == [];
  }

  /** No run takes more than `bound` supervisor steps before `gather` returns. */
  ghost predicate StepsAtMost(cfg: Setup, s: Runtime, bound: nat)
    requires cfg.Valid()
  {
    forall es: seq<Event> :: ValidRun(cfg, s, es) && NotGathered(es) ==> StepCount(es) <= bound
  }

  ghost predicate StopIsBounded(cfg: Setup, s: Runtime)
    requires cfg.Valid()
  {
    exists bound: nat :: StepsAtMost(cfg, s, bound)
  }

  lemma {:induction false} OneRunnerBreaksEveryBound(cfg: Setup, s: Runtime, i: nat, bound: nat)
    requires cfg.Valid() && Stalled(cfg, s, i, 0)
    ensures !StepsAtMost(cfg, s, bound)
  {
    var k := 3 * (bound + 1);
    StallPrefixWaits(cfg, i, k);
    StallPrefixSteps(cfg, i, bound + 1, k);
    StallPrefixRuns(cfg, s, i, k);
    assert StepCount(StallPrefix(cfg, i, k)) > bound;
  }

  /** With no promise from the runners, `stop` is bounded exactly when no runner
      was being invoked at the moment it took the lock. */
  lemma {:induction false} StopIsBoundedIffNobodyInRunner(cfg: Setup, s: Runtime)
    requires cfg.Valid() && Inv(cfg, s) && Stopping(s)
    ensures StopIsBounded(cfg, s) <==> NobodyInRunner(s)
  {
    if NobodyInRunner(s) {
      forall es: seq<Event> | ValidRun(cfg, s, es) && NotGathered(es) ensures StepCount(es) <= LiveCount(s.pool) {
        UnstartedAndSleepingOnlyDie(cfg, s, es);
      }
      assert StepsAtMost(cfg, s, LiveCount(s.pool));
    } else {
      var i :| 0 <= i < |s.pool| && s.pool[i].phase.InRunner?;
      SomeRunnerStalls(cfg, s, i);
      forall bound: nat ensures !StepsAtMost(cfg, s, bound) {
        OneRunnerBreaksEveryBound(cfg, s, i, bound);
      }
    }
  }
}
