/**
 What a `stop` leaves behind whose caller is cancelled in `gather`: the code after
 `gather` never runs, so each status stays as its supervisor left it.
 */
module AbortedStop {
  import opened Supervision
  import opened SupervisionSafety
  import opened SupervisionTheorems

  /** A supervisor in this phase never enters its `try` block again, and so never
      passes its `finally` clause. */
  predicate Silent(p: Phase) {
    p.Created? || p.Done?
  }

  /** What becomes of a worker under `stop` that was in phase `p0` when `stop` got
      the lock: a silent one keeps the state that `stop` gave it, and any other
      rests once it is done. */
  predicate Fated(p0: Phase, w: Worker) {
    if Silent(p0) then
      Silent(w.task.phase) && (w.task.phase.Created? ==> w.task.cancelled) && w.status.state == Stopping
    else
      !w.task.phase.Created? && (w.task.phase.Done? ==> w.status.state == Stopped)
  }

  ghost predicate AllFated(cfg: Setup, s0: Runtime, s: Runtime) {
    && Shape(cfg, s0) && Shape(cfg, s) && s.tasks == s0.tasks
    && forall n :: n in s.tasks ==> Fated(WorkerOf(s0, n).task.phase, WorkerOf(s, n))
  }

  lemma {:induction false} StopSealsFates(cfg: Setup, s: Runtime)
    requires cfg.Valid() && Control(cfg, s) && s.started
    ensures AllFated(cfg, s, RequestStop(s))
  {
    var s' := RequestStop(s);
    CancelTasksFrame(cfg, s, s');
    forall n | n in s.tasks ensures Fated(WorkerOf(s, n).task.phase, WorkerOf(s', n)) {
      assert WorkerOf(s', n) == Worker(Cancelled(WorkerOf(s, n).task), s.statuses[n].(state := Stopping));
    }
  }

  lemma {:induction false} ActsKeepFates(cfg: Setup, p0: Phase, w: Worker, now: real, a: Act)
    requires cfg.Valid() && Fated(p0, w) && CanAct(w.task, now, a)
    ensures Fated(p0, Doing(cfg, w, now, a))
  {
  }

  lemma {:induction false} StepKeepsFates(cfg: Setup, s0: Runtime, s: Runtime, i: nat, a: Act)
    requires cfg.Valid() && Control(cfg, s) && AllFated(cfg, s0, s) && Enabled(s, Step(i, a))
    ensures AllFated(cfg, s0, Next(cfg, s, Step(i, a)))
  {
    var s' := Next(cfg, s, Step(i, a));
    var name := s.pool[i].name;
    assert IsCurrent(s, i) by {
      StepPool(cfg, s, i, a);
    }
    StepWorkers(cfg, s, i, a);
    forall n | n in s'.tasks ensures Fated(WorkerOf(s0, n).task.phase, WorkerOf(s', n)) {
      if n == name {
        ActsKeepFates(cfg, WorkerOf(s0, n).task.phase, WorkerOf(s, n), s.now, a);
      }
    }
  }

  lemma {:induction false} CancelKeepsFates(p0: Phase, w: Worker)
    requires Fated(p0, w)
    ensures Fated(p0, Worker(Cancelled(w.task), w.status))
  {
  }

  lemma {:induction false} AbortCancels(cfg: Setup, s: Runtime)
    requires cfg.Valid() && Control(cfg, s) && s.lock.Held?
    ensures var s' := Next(cfg, s, AbortStop);
            && Shape(cfg, s') && s'.tasks == s.tasks
            && forall n :: n in s.tasks ==> WorkerOf(s', n) == Worker(Cancelled(WorkerOf(s, n).task), s.statuses[n])
  {
    CancelTasksFrame(cfg, s, Next(cfg, s, AbortStop));
  }

  lemma {:induction false} AbortKeepsFates(cfg: Setup, s0: Runtime, s: Runtime)
    requires cfg.Valid() && Control(cfg, s) && AllFated(cfg, s0, s) && s.lock.Held?
    ensures AllFated(cfg, s0, Next(cfg, s, AbortStop))
  {
    var s' := Next(cfg, s, AbortStop);
    AbortCancels(cfg, s);
    forall n | n in s'.tasks ensures Fated(WorkerOf(s0, n).task.phase, WorkerOf(s', n)) {
      CancelKeepsFates(WorkerOf(s0, n).task.phase, WorkerOf(s, n));
    }
  }

  lemma {:induction false} SameWorkers(cfg: Setup, s0: Runtime, s: Runtime, s': Runtime)
    requires AllFated(cfg, s0, s) && s'.pool == s.pool && s'.tasks == s.tasks && s'.statuses == s.statuses
    ensures AllFated(cfg, s0, s')
  {
    forall n | n in s'.tasks ensures WorkerOf(s', n) == WorkerOf(s, n) {
    }
  }

  lemma {:induction false} NextKeepsFates(cfg: Setup, s0: Runtime, s: Runtime, e: Event)
    requires cfg.Valid() && Inv(cfg, s) && AllFated(cfg, s0, s) && s.lock.Held? && Enabled(s, e) && !e.Gathered?
    ensures AllFated(cfg, s0, Next(cfg, s, e)) && Next(cfg, s, e).lock.Held?
  {
    if e.Step? {
      StepKeepsFates(cfg, s0, s, e.task, e.act);
    } else if e.AbortStop? {
      AbortKeepsFates(cfg, s0, s);
    } else if e.Arrive? || e.Tick? {
      SameWorkers(cfg, s0, s, Next(cfg, s, e));
    }
  }

  lemma {:induction false} RunsKeepFates(cfg: Setup, s0: Runtime, s: Runtime, es: seq<Event>)
    requires cfg.Valid() && Inv(cfg, s) && AllFated(cfg, s0, s) && s.lock.Held?
    requires ValidRun(cfg, s, es) && NotGathered(es)
    ensures AllFated(cfg, s0, Final(cfg, s, es)) && Inv(cfg, Final(cfg, s, es)) && Final(cfg, s, es).lock.Held?
    decreases |es|
  {
    if es != [] {
      NextInv(cfg, s, es[0]);
      NextKeepsFates(cfg, s0, s, es[0]);
      RunsKeepFates(cfg, s0, Next(cfg, s, es[0]), es[1..]);
    }
  }

  lemma {:induction false} FateAtTheEnd(cfg: Setup, s0: Runtime, s: Runtime, n: string)
    requires AllFated(cfg, s0, s) && AllDone(s) && n in s0.tasks
    ensures s.statuses[n].state == if Silent(WorkerOf(s0, n).task.phase) then Stopping else Stopped
  {
    assert Fated(WorkerOf(s0, n).task.phase, WorkerOf(s, n));
  }

  /** A `stop` gets the lock in the reachable state `s`, its caller is cancelled
      while it waits, and `gather` returns after the events `es`.  Every entry is
      still there, and a status reads "stopping" exactly when its supervisor had not
      begun, or was already done, when `stop` got the lock; all others read
      "stopped". */
  lemma {:induction false} AbortedStopLeavesTheSilentStopping(cfg: Setup, s: Runtime, es: seq<Event>, n: string)
    requires cfg.Valid() && Reachable(cfg, s) && Enabled(s, Grant) && TakesStop(s, Grant)
    requires ValidRun(cfg, Next(cfg, s, Grant), es) && NotGathered(es) && n in cfg.place
    requires var t := Final(cfg, Next(cfg, s, Grant), es); Enabled(t, Gathered) && t.lock == Held(true)
    ensures var left := Next(cfg, Final(cfg, Next(cfg, s, Grant), es), Gathered);
            && left.lock.Free? && !left.started && left.tasks == s.tasks
            && n in s.tasks && s.tasks[n] < |s.pool| && n in left.statuses
            && left.statuses[n].state == if Silent(s.pool[s.tasks[n]].phase) then Stopping else Stopped
  {
    ReachableInv(cfg, s);
    StopIsGranted(cfg, s);
    var s0 := s.(queue := s.queue[1..], granted := s.granted + [s.queue[0]]);
    RunsKeepFates(cfg, s0, Next(cfg, s, Grant), es);
    FateAtTheEnd(cfg, s0, Final(cfg, Next(cfg, s, Grant), es), n);
  }

  lemma {:induction false} StopIsGranted(cfg: Setup, s: Runtime)
    requires cfg.Valid() && Inv(cfg, s) && Enabled(s, Grant) && TakesStop(s, Grant)
    ensures var s0 := s.(queue := s.queue[1..], granted := s.granted + [s.queue[0]]);
            && Next(cfg, s, Grant) == RequestStop(s0)
            && AllFated(cfg, s0, RequestStop(s0)) && Inv(cfg, RequestStop(s0))
  {
    var s0 := s.(queue := s.queue[1..], granted := s.granted + [s.queue[0]]);
    QueueingKeepsInv(cfg, s, s0.queue, s0.granted);
    StopSealsFates(cfg, s0);
    RequestStopInv(cfg, s0);
  }
}
