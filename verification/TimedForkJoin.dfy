/**
 The fork/join runner under a discrete clock. The clock may tick between steps,
 but not past the point where a task owes its result: `Run` must not block
 beyond its context's deadline (core/check.go), and bookkeeping takes no time.
 */
module TimedForkJoin {
  import opened HealthTypes
  import opened Sequential
  import opened ForkJoin

  /** `started[i]` is when task `i` entered runOne. */
  datatype TimedState = TimedState(base: State, now: nat, started: seq<nat>)

  datatype TimedStep = Tick | Take(step: Step)

  function Min(a: nat, b: nat): nat { if a < b then a else b }

  function Max(a: nat, b: nat): nat { if a < b then b else a }

  /** The deadline of the context handed to `Run`: the parent's, tightened by a positive timeout. */
  function Deadline(c: Check, parent: Option<nat>, start: nat): Option<nat> {
    if c.timeout <= 0 then parent
    else if parent.None? then Some(start + c.timeout)
    else Some(Min(parent.value, start + c.timeout))
  }

  predicate HasDeadline(c: Check, parent: Option<nat>) {
    c.timeout > 0 || parent.Some?
  }

  /** When a check started at `start` must have returned: at its deadline, or at once if that is past. */
  function Bound(c: Check, parent: Option<nat>, start: nat): nat
    requires HasDeadline(c, parent)
  {
    Max(start, Deadline(c, parent, start).value)
  }

  /** The latest bound of the first `n` checks. */
  function LatestBound(p: Probe, parent: Option<nat>, started: seq<nat>, n: nat): nat
    requires n <= |p.checks| == |started|
    requires forall c :: c in p.checks ==> HasDeadline(c, parent)
  {
    if n == 0 then 0
    else Max(LatestBound(p, parent, started, n - 1), Bound(p.checks[n - 1], parent, started[n - 1]))
  }

  lemma {:induction false} LatestBoundCovers(p: Probe, parent: Option<nat>, started: seq<nat>, n: nat, i: nat)
    requires i < n <= |p.checks| == |started|
    requires forall c :: c in p.checks ==> HasDeadline(c, parent)
    ensures Bound(p.checks[i], parent, started[i]) <= LatestBound(p, parent, started, n)
  {
    if i == n - 1 {
    } else {
      LatestBoundCovers(p, parent, started, n - 1, i);
    }
  }

  predicate TimedShape(p: Probe, t: TimedState) {
    Shaped(p, t.base) && |t.started| == |p.checks|
  }

  /** `step` is what is due: leaving the loop, joining, a finished task's `Done`, or the
      result of a task at its bound. */
  predicate Due(p: Probe, parent: Option<nat>, t: TimedState, step: Step)
    requires TimedShape(p, t)
  {
    match step
    case EndLoop => t.base.pc == Loop(|p.checks|)
    case Join => t.base.pc.Wait? && t.base.shared.counter == 0
    case Done(i) => i < |p.checks| && t.base.tasks[i].Wrote?
    case Write(i, now) =>
      && i < |p.checks| && t.base.tasks[i].Running? && now == t.now
      && HasDeadline(p.checks[i], parent) && Bound(p.checks[i], parent, t.started[i]) <= t.now
    case _ => false
  }

  /** Something is due now: time may not pass before it has happened. */
  predicate Urgent(p: Probe, parent: Option<nat>, t: TimedState)
    requires TimedShape(p, t)
  {
    || Due(p, parent, t, EndLoop)
    || Due(p, parent, t, Join)
    || (exists i :: 0 <= i < |p.checks| && Due(p, parent, t, Done(i)))
    || (exists i :: 0 <= i < |p.checks| && Due(p, parent, t, Write(i, t.now)))
  }

  predicate TimedEnabled(p: Probe, parent: Option<nat>, t: TimedState, step: TimedStep)
    requires TimedShape(p, t)
  {
    match step
    case Tick => !Urgent(p, parent, t)
    case Take(s) => Enabled(p, t.base, s) && (s.Start? || s.Write? ==> s.now == t.now)
  }

  function TimedApply(p: Probe, parent: Option<nat>, t: TimedState, step: TimedStep): (t': TimedState)
    requires TimedShape(p, t) && TimedEnabled(p, parent, t, step)
    ensures TimedShape(p, t')
  {
    match step
    case Tick => t.(now := t.now + 1)
    case Take(s) =>
      t.(base := Apply(p, t.base, s), started := if s.Enter? then t.started[s.i := t.now] else t.started)
  }

  function TimedExec(p: Probe, parent: Option<nat>, steps: seq<TimedStep>): (r: Option<TimedState>)
    requires p.WellFormed()
    ensures r.Some? ==> TimedShape(p, r.value)
  {
    if steps == [] then Some(TimedState(Init(p), 0, Zeros(|p.checks|)))
    else
      var last := |steps| - 1;
      match TimedExec(p, parent, steps[..last])
      case None => None
      case Some(t) =>
        if TimedEnabled(p, parent, t, steps[last]) then Some(TimedApply(p, parent, t, steps[last])) else None
  }

  /** The schedule underneath a timed one. */
  function Untick(steps: seq<TimedStep>): seq<Step> {
    if steps == [] then []
    else
      var last := |steps| - 1;
      Untick(steps[..last]) + match steps[last] { case Tick => [] case Take(s) => [s] }
  }

  /** Forgetting the clock turns a timed schedule into one of the untimed runner. */
  lemma {:induction false} TimedIsUntimed(p: Probe, parent: Option<nat>, steps: seq<TimedStep>)
    requires p.WellFormed() && TimedExec(p, parent, steps).Some?
    ensures Exec(p, Untick(steps)) == Some(TimedExec(p, parent, steps).value.base)
  {
    if steps == [] {
    } else {
      var last := |steps| - 1;
      TimedIsUntimed(p, parent, steps[..last]);
      match steps[last]
      case Tick =>
        assert Untick(steps) == Untick(steps[..last]);
      case Take(s) =>
        ExecSnoc(p, Untick(steps[..last]), s);
    }
  }

  // ----- the clock never stops for good

  /** When time may not pass, a step that is due can be taken. */
  lemma DueCanBeTaken(p: Probe, parent: Option<nat>, t: TimedState) returns (step: Step)
    requires TimedShape(p, t) && Urgent(p, parent, t)
    ensures Due(p, parent, t, step) && TimedEnabled(p, parent, t, Take(step))
  {
    if Due(p, parent, t, EndLoop) {
      step := EndLoop;
    } else if Due(p, parent, t, Join) {
      step := Join;
    } else if i :| 0 <= i < |p.checks| && Due(p, parent, t, Done(i)) {
      step := Done(i);
    } else {
      var i :| 0 <= i < |p.checks| && Due(p, parent, t, Write(i, t.now));
      step := Write(i, t.now);
    }
  }

  lemma TimedExecSnoc(p: Probe, parent: Option<nat>, steps: seq<TimedStep>, step: TimedStep)
    requires p.WellFormed() && TimedExec(p, parent, steps).Some?
    requires TimedEnabled(p, parent, TimedExec(p, parent, steps).value, step)
    ensures TimedExec(p, parent, steps + [step])
         == Some(TimedApply(p, parent, TimedExec(p, parent, steps).value, step))
  {
    assert (steps + [step])[..|steps|] == steps;
  }

  /** The state after a schedule lets the clock tick. */
  ghost predicate CanTick(p: Probe, parent: Option<nat>, steps: seq<TimedStep>)
    requires p.WellFormed()
  {
    TimedExec(p, parent, steps).Some? && TimedEnabled(p, parent, TimedExec(p, parent, steps).value, Tick)
  }

  /** Every step from position `n` on is one that was due when it was taken. */
  ghost predicate DueFrom(p: Probe, parent: Option<nat>, steps: seq<TimedStep>, n: nat)
    requires p.WellFormed()
  {
    forall m :: n <= m < |steps| ==>
      && TimedExec(p, parent, steps[..m]).Some? && steps[m].Take?
      && Due(p, parent, TimedExec(p, parent, steps[..m]).value, steps[m].step)
  }

  lemma TakeDue(p: Probe, parent: Option<nat>, steps: seq<TimedStep>) returns (step: Step)
    requires p.WellFormed() && TimedExec(p, parent, steps).Some? && !CanTick(p, parent, steps)
    ensures Due(p, parent, TimedExec(p, parent, steps).value, step)
    ensures TimedExec(p, parent, steps + [Take(step)]).Some?
    ensures |Untick(steps + [Take(step)])| == |Untick(steps)| + 1 <= TotalWork(|p.checks|)
  {
    step := DueCanBeTaken(p, parent, TimedExec(p, parent, steps).value);
    TimedExecSnoc(p, parent, steps, Take(step));
    UntickTake(steps, step);
    TimedIsUntimed(p, parent, steps + [Take(step)]);
    WorkConserved(p, Untick(steps + [Take(step)]));
  }

  /** The clock never stops for good: from any point, time can advance after finitely many steps,
      each of them due when taken. */
  lemma {:induction false} NoTimelock(p: Probe, parent: Option<nat>, steps: seq<TimedStep>)
    returns (all: seq<TimedStep>)
    requires p.WellFormed() && TimedExec(p, parent, steps).Some?
    ensures steps <= all && CanTick(p, parent, all) && DueFrom(p, parent, all, |steps|)
    decreases TotalWork(|p.checks|) - |Untick(steps)|
  {
    if CanTick(p, parent, steps) {
      all := steps;
    } else {
      var step := TakeDue(p, parent, steps);
      all := NoTimelock(p, parent, steps + [Take(step)]);
      DueBefore(p, parent, steps, step, all);
    }
  }

  lemma DueBefore(p: Probe, parent: Option<nat>, steps: seq<TimedStep>, step: Step, all: seq<TimedStep>)
    requires p.WellFormed() && TimedExec(p, parent, steps).Some?
    requires Due(p, parent, TimedExec(p, parent, steps).value, step)
    requires steps + [Take(step)] <= all && DueFrom(p, parent, all, |steps| + 1)
    ensures steps <= all && DueFrom(p, parent, all, |steps|)
  {
    assert all[..|steps|] == steps && all[|steps|] == Take(step);
  }

  lemma UntickTake(steps: seq<TimedStep>, step: Step)
    ensures Untick(steps + [Take(step)]) == Untick(steps) + [step]
  {
    assert (steps + [Take(step)])[..|steps|] == steps;
  }

  // ----- when the join happens

  predicate AwaitingJoin(p: Probe, s: State) {
    s.pc == Loop(|p.checks|) || s.pc.Wait?
  }

  /** No check returned later than now, and a task that has just written did so now. */
  ghost predicate ReturnsInv(p: Probe, t: TimedState)
    requires TimedShape(p, t)
  {
    forall i :: 0 <= i < |p.checks| && HasReturned(t.base.tasks[i]) ==>
      && t.base.clock.tasks[i] <= t.now
      && (t.base.tasks[i].Wrote? ==> t.base.clock.tasks[i] == t.now)
  }

  /** Some check returned just now. */
  ghost predicate ReturnedNow(p: Probe, t: TimedState)
    requires TimedShape(p, t)
  {
    exists i :: 0 <= i < |p.checks| && t.base.clock.tasks[i] == t.now
  }

  /** Every check has returned by now. */
  ghost predicate AllReturnedBy(p: Probe, t: TimedState)
    requires TimedShape(p, t)
  {
    forall i :: 0 <= i < |p.checks| ==> t.base.clock.tasks[i] <= t.now
  }

  /** From the moment the last task is done until the join, now is when some check returned. */
  ghost predicate JoinInv(p: Probe, t: TimedState)
    requires TimedShape(p, t)
  {
    |p.checks| > 0 && AwaitingJoin(p, t.base) && AllFinished(t.base) ==> ReturnedNow(p, t)
  }

  /** A check with a deadline is not inside runOne past its bound, and returned by it. */
  ghost predicate BoundsInv(p: Probe, parent: Option<nat>, t: TimedState)
    requires TimedShape(p, t)
  {
    forall i :: 0 <= i < |p.checks| && HasDeadline(p.checks[i], parent) ==>
      && (t.base.tasks[i].Running? ==> t.now <= Bound(p.checks[i], parent, t.started[i]))
      && (HasReturned(t.base.tasks[i]) ==> t.base.clock.tasks[i] <= Bound(p.checks[i], parent, t.started[i]))
  }

  ghost predicate TimedInv(p: Probe, parent: Option<nat>, t: TimedState) {
    TimedShape(p, t) && Inv(p, t.base) && ReturnsInv(p, t) && JoinInv(p, t) && BoundsInv(p, parent, t)
  }

  lemma TickReturns(p: Probe, parent: Option<nat>, t: TimedState)
    requires TimedShape(p, t) && ReturnsInv(p, t) && TimedEnabled(p, parent, t, Tick)
    ensures ReturnsInv(p, TimedApply(p, parent, t, Tick))
  {
    forall i | 0 <= i < |p.checks| ensures !t.base.tasks[i].Wrote? {
      assert !Due(p, parent, t, Done(i));
    }
  }

  /** The clock does not tick between the last task's end and the join. */
  lemma TickBeforeJoin(p: Probe, parent: Option<nat>, t: TimedState)
    requires TimedShape(p, t) && CounterInv(p, t.base) && TimedEnabled(p, parent, t, Tick)
    ensures !(AwaitingJoin(p, t.base) && AllFinished(t.base))
  {
    CounterMeaning(p, t.base);
    assert !Due(p, parent, t, EndLoop) && !Due(p, parent, t, Join);
  }

  lemma TickBounds(p: Probe, parent: Option<nat>, t: TimedState)
    requires TimedShape(p, t) && BoundsInv(p, parent, t) && TimedEnabled(p, parent, t, Tick)
    ensures BoundsInv(p, parent, TimedApply(p, parent, t, Tick))
  {
    forall i | 0 <= i < |p.checks| && HasDeadline(p.checks[i], parent) && t.base.tasks[i].Running?
      ensures t.now < Bound(p.checks[i], parent, t.started[i])
    {
      assert !Due(p, parent, t, Write(i, t.now));
    }
  }

  lemma TakeBounds(p: Probe, parent: Option<nat>, t: TimedState, s: Step)
    requires TimedShape(p, t) && BoundsInv(p, parent, t) && TimedEnabled(p, parent, t, Take(s))
    ensures BoundsInv(p, parent, TimedApply(p, parent, t, Take(s)))
  {
  }

  /** The step after which every task is done, and the spawner about to wait, is a task's `Done`;
      leaving the launching loop keeps it so. */
  lemma WhatFinishesLast(p: Probe, s: State, step: Step)
    requires Inv(p, s) && Enabled(p, s, step) && |p.checks| > 0
    ensures AwaitingJoin(p, Apply(p, s, step)) && AllFinished(Apply(p, s, step)) ==>
              step.Done? || (step.EndLoop? && AwaitingJoin(p, s) && AllFinished(s))
  {
    var s' := Apply(p, s, step);
    match step
    case Go => assert s'.tasks[s.pc.i].Spawned?;
    case Enter(i) => assert s'.tasks[i].Running?;
    case Write(i, _) => assert s'.tasks[i].Wrote?;
    case _ =>
  }

  lemma TakeReturns(p: Probe, parent: Option<nat>, t: TimedState, s: Step)
    requires TimedShape(p, t) && ReturnsInv(p, t) && TimedEnabled(p, parent, t, Take(s))
    ensures ReturnsInv(p, TimedApply(p, parent, t, Take(s)))
  {
  }

  lemma TakeJoin(p: Probe, parent: Option<nat>, t: TimedState, s: Step)
    requires Inv(p, t.base) && TimedShape(p, t) && ReturnsInv(p, t) && JoinInv(p, t)
    requires TimedEnabled(p, parent, t, Take(s))
    ensures JoinInv(p, TimedApply(p, parent, t, Take(s)))
  {
    if |p.checks| > 0 {
      WhatFinishesLast(p, t.base, s);
      if s.Done? {
        assert t.base.clock.tasks[s.i] == t.now;
      }
    }
  }

  lemma {:induction false} TimedReachable(p: Probe, parent: Option<nat>, steps: seq<TimedStep>)
    requires p.WellFormed() && TimedExec(p, parent, steps).Some?
    ensures TimedInv(p, parent, TimedExec(p, parent, steps).value)
  {
    if steps == [] {
      InitInv(p);
    } else {
      var last := |steps| - 1;
      TimedReachable(p, parent, steps[..last]);
      var t := TimedExec(p, parent, steps[..last]).value;
      match steps[last]
      case Tick =>
        TickReturns(p, parent, t);
        TickBeforeJoin(p, parent, t);
        TickBounds(p, parent, t);
      case Take(s) =>
        StepInv(p, t.base, s);
        TakeReturns(p, parent, t, s);
        TakeJoin(p, parent, t, s);
        TakeBounds(p, parent, t, s);
    }
  }

  /** `steps` is a schedule after which `wg.Wait` can return. */
  predicate ReadyToJoin(p: Probe, parent: Option<nat>, steps: seq<TimedStep>)
    requires p.WellFormed()
  {
    TimedExec(p, parent, steps).Some? && TimedEnabled(p, parent, TimedExec(p, parent, steps).value, Take(Join))
  }

  /** With no checks the runner returns before it would wait. */
  lemma {:induction false} WaitHasTasks(p: Probe, steps: seq<Step>)
    requires p.WellFormed() && Exec(p, steps).Some?
    ensures |p.checks| == 0 ==> Exec(p, steps).value.pc.Begin? || Exec(p, steps).value.pc.Returned?
  {
    if steps == [] {
    } else {
      WaitHasTasks(p, steps[..|steps| - 1]);
    }
  }

  lemma JoinHasTasks(p: Probe, parent: Option<nat>, steps: seq<TimedStep>)
    requires p.WellFormed() && TimedExec(p, parent, steps).Some?
    requires TimedExec(p, parent, steps).value.base.pc.Wait?
    ensures |p.checks| > 0
  {
    TimedIsUntimed(p, parent, steps);
    WaitHasTasks(p, Untick(steps));
  }

  lemma ZeroAtWait(p: Probe, s: State)
    requires Shaped(p, s) && CounterInv(p, s) && s.pc.Wait? && s.shared.counter == 0
    ensures AllFinished(s)
  {
    CounterMeaning(p, s);
  }

  lemma {:induction false} AtTheJoin(p: Probe, parent: Option<nat>, steps: seq<TimedStep>)
    requires p.WellFormed() && ReadyToJoin(p, parent, steps)
    ensures TimedInv(p, parent, TimedExec(p, parent, steps).value)
    ensures |p.checks| > 0 && AllFinished(TimedExec(p, parent, steps).value.base)
  {
    TimedReachable(p, parent, steps);
    ZeroAtWait(p, TimedExec(p, parent, steps).value.base);
    JoinHasTasks(p, parent, steps);
  }

  /** `Wait` returns exactly when the last check does, with or without deadlines: the wall
      time is a maximum over the checks, never a sum. */
  lemma {:induction false} JoinAtLastReturn(p: Probe, parent: Option<nat>, steps: seq<TimedStep>)
    requires p.WellFormed() && ReadyToJoin(p, parent, steps)
    ensures AllReturnedBy(p, TimedExec(p, parent, steps).value)
    ensures ReturnedNow(p, TimedExec(p, parent, steps).value)
  {
    AtTheJoin(p, parent, steps);
    var t := TimedExec(p, parent, steps).value;
    assert JoinInv(p, t) && AwaitingJoin(p, t.base);
    forall i | 0 <= i < |p.checks| ensures t.base.clock.tasks[i] <= t.now {
      assert HasReturned(t.base.tasks[i]);
    }
  }

  /** When every task has entered runOne by `last` and no check ran for longer than `slowest`, the
      join is within `slowest` of `last`, however many checks there are. */
  lemma JoinWithinSlowestRun(p: Probe, parent: Option<nat>, steps: seq<TimedStep>, last: nat, slowest: nat)
    requires p.WellFormed() && ReadyToJoin(p, parent, steps)
    requires var t := TimedExec(p, parent, steps).value;
             forall i :: 0 <= i < |p.checks| ==>
               t.started[i] <= last && t.base.clock.tasks[i] <= t.started[i] + slowest
    ensures TimedExec(p, parent, steps).value.now <= last + slowest
  {
    JoinAtLastReturn(p, parent, steps);
    var t := TimedExec(p, parent, steps).value;
    var i :| 0 <= i < |p.checks| && t.base.clock.tasks[i] == t.now;
  }

  // ----- the time stamps

  /** The heartbeat was read before any check started, and each check's entries were stamped after it did. */
  ghost predicate StampsInv(p: Probe, t: TimedState)
    requires TimedShape(p, t)
  {
    && (!t.base.pc.Begin? ==> t.base.clock.heartbeat <= t.now)
    && forall i :: 0 <= i < |p.checks| ==>
         && (t.base.tasks[i].Running? ==> t.base.clock.heartbeat <= t.started[i] <= t.now)
         && (HasReturned(t.base.tasks[i]) ==>
              t.base.clock.heartbeat <= t.started[i] <= t.base.clock.tasks[i] <= t.now)
  }

  lemma {:induction false} TakeStamps(p: Probe, parent: Option<nat>, t: TimedState, s: Step)
    requires TimedShape(p, t) && CounterInv(p, t.base) && StampsInv(p, t)
    requires TimedEnabled(p, parent, t, Take(s))
    ensures StampsInv(p, TimedApply(p, parent, t, Take(s)))
  {
    FirstStepStarts(p, t.base, s);
  }

  lemma {:induction false} TickStamps(p: Probe, parent: Option<nat>, t: TimedState)
    requires TimedShape(p, t) && StampsInv(p, t) && TimedEnabled(p, parent, t, Tick)
    ensures StampsInv(p, TimedApply(p, parent, t, Tick))
  {
  }

  /** In every timed schedule the stamps are in order: the heartbeat's, a check's start, its entries', now. */
  lemma {:induction false} StampsAreOrdered(p: Probe, parent: Option<nat>, steps: seq<TimedStep>)
    requires p.WellFormed() && TimedExec(p, parent, steps).Some?
    ensures StampsInv(p, TimedExec(p, parent, steps).value)
  {
    if steps == [] {
    } else {
      var last := |steps| - 1;
      StampsAreOrdered(p, parent, steps[..last]);
      TimedReachable(p, parent, steps[..last]);
      var t := TimedExec(p, parent, steps[..last]).value;
      match steps[last]
      case Tick => TickStamps(p, parent, t);
      case Take(s) => TakeStamps(p, parent, t, s);
    }
  }

  // ----- bounds known beforehand

  /** The check the join waited for returned within its bound, if it has a deadline. */
  lemma LastToReturn(p: Probe, parent: Option<nat>, steps: seq<TimedStep>) returns (i: nat)
    requires p.WellFormed() && ReadyToJoin(p, parent, steps)
    ensures i < |p.checks| && p.checks[i] in p.checks
    ensures var t := TimedExec(p, parent, steps).value;
            HasDeadline(p.checks[i], parent) ==> t.now <= Bound(p.checks[i], parent, t.started[i])
  {
    JoinAtLastReturn(p, parent, steps);
    AtTheJoin(p, parent, steps);
    var t := TimedExec(p, parent, steps).value;
    i :| 0 <= i < |p.checks| && t.base.clock.tasks[i] == t.now;
    assert HasReturned(t.base.tasks[i]);
  }

  /** When every check has a deadline, the join is no later than the latest of the individual bounds. */
  lemma JoinWithinLatestBound(p: Probe, parent: Option<nat>, steps: seq<TimedStep>)
    requires p.WellFormed() && ReadyToJoin(p, parent, steps)
    requires forall c :: c in p.checks ==> HasDeadline(c, parent)
    ensures var t := TimedExec(p, parent, steps).value;
            t.now <= LatestBound(p, parent, t.started, |p.checks|)
  {
    var i := LastToReturn(p, parent, steps);
    LatestBoundCovers(p, parent, TimedExec(p, parent, steps).value.started, |p.checks|, i);
  }

  /** When every task has entered runOne by `last` and no timeout exceeds `slowest`, the
      probe joins within `slowest` of `last`, however many checks there are. */
  lemma JoinWithinSlowest(p: Probe, parent: Option<nat>, steps: seq<TimedStep>, last: nat, slowest: nat)
    requires p.WellFormed() && ReadyToJoin(p, parent, steps)
    requires forall c :: c in p.checks ==> 0 < c.timeout <= slowest
    requires forall i :: 0 <= i < |p.checks| ==> TimedExec(p, parent, steps).value.started[i] <= last
    ensures TimedExec(p, parent, steps).value.now <= last + slowest
  {
    var i := LastToReturn(p, parent, steps);
  }

  /** A parent deadline caps the whole probe: once every task has entered runOne by `last`,
      the join happens by the deadline, or by `last` when that is later. */
  lemma JoinWithinParentDeadline(p: Probe, deadline: nat, steps: seq<TimedStep>, last: nat)
    requires p.WellFormed() && ReadyToJoin(p, Some(deadline), steps)
    requires forall i :: 0 <= i < |p.checks| ==> TimedExec(p, Some(deadline), steps).value.started[i] <= last
    ensures TimedExec(p, Some(deadline), steps).value.now <= Max(last, deadline)
  {
    var i := LastToReturn(p, Some(deadline), steps);
  }

  // ----- such a bound exists exactly when every check has a deadline

  /** `cap` is no earlier than the join of any schedule whose tasks all start by `last`. */
  ghost predicate Caps(p: Probe, parent: Option<nat>, last: nat, cap: nat)
    requires p.WellFormed()
  {
    forall steps ::
      ReadyToJoin(p, parent, steps)
      && (forall i :: 0 <= i < |p.checks| ==> TimedExec(p, parent, steps).value.started[i] <= last)
      ==> TimedExec(p, parent, steps).value.now <= cap
  }

  lemma {:induction false} LatestBoundGrows(p: Probe, parent: Option<nat>, a: seq<nat>, b: seq<nat>, n: nat)
    requires n <= |p.checks| == |a| == |b|
    requires forall c :: c in p.checks ==> HasDeadline(c, parent)
    requires forall i :: 0 <= i < |a| ==> a[i] <= b[i]
    ensures LatestBound(p, parent, a, n) <= LatestBound(p, parent, b, n)
  {
    if n == 0 {
    } else {
      LatestBoundGrows(p, parent, a, b, n - 1);
    }
  }

  /** With deadlines, every task starting at `last` is the worst case. */
  lemma DeadlinesCap(p: Probe, parent: Option<nat>, last: nat)
    requires p.WellFormed() && forall c :: c in p.checks ==> HasDeadline(c, parent)
    ensures Caps(p, parent, last, LatestBound(p, parent, seq(|p.checks|, _ => last), |p.checks|))
  {
    var latest := seq(|p.checks|, _ => last);
    forall steps |
      ReadyToJoin(p, parent, steps)
      && (forall i :: 0 <= i < |p.checks| ==> TimedExec(p, parent, steps).value.started[i] <= last)
      ensures TimedExec(p, parent, steps).value.now <= LatestBound(p, parent, latest, |p.checks|)
    {
      JoinWithinLatestBound(p, parent, steps);
      LatestBoundGrows(p, parent, TimedExec(p, parent, steps).value.started, latest, |p.checks|);
    }
  }

  /** The first `k` tasks have been launched and, but for task `i`, are done; task `i` is inside
      runOne; all of them entered it at time `at`, which is now. */
  ghost predicate AllButOne(t: TimedState, i: nat, k: nat, at: nat) {
    && t.base.pc == Loop(k) && k <= |t.base.tasks| == |t.started|
    && t.base.shared.counter == (if i < k then 1 else 0)
    && t.now == at && (forall j :: 0 <= j < k ==> t.started[j] == at)
    && (forall j :: 0 <= j < |t.base.tasks| ==>
          t.base.tasks[j] == if j >= k then Unborn else if j == i then Running else Finished)
  }

  lemma {:induction false} LaunchAndEnter(p: Probe, parent: Option<nat>, steps: seq<TimedStep>, k: nat)
    returns (more: seq<TimedStep>)
    requires p.WellFormed() && k < |p.checks|
    requires TimedExec(p, parent, steps).Some?
    requires TimedExec(p, parent, steps).value.base.pc == Loop(k)
    ensures var t := TimedExec(p, parent, steps).value;
            var r := TimedExec(p, parent, more);
            && r.Some? && r.value.now == t.now && r.value.started == t.started[k := t.now]
            && r.value.base.pc == Loop(k + 1) && r.value.base.tasks == t.base.tasks[k := Running]
            && r.value.base.shared.counter == t.base.shared.counter + 1
  {
    var t := TimedExec(p, parent, steps).value;
    TimedExecSnoc(p, parent, steps, Take(Add));
    TimedExecSnoc(p, parent, steps + [Take(Add)], Take(Go));
    more := steps + [Take(Add)] + [Take(Go)];
    TimedExecSnoc(p, parent, more, Take(Enter(k)));
    more := more + [Take(Enter(k))];
    assert t.base.tasks[k := Spawned][k := Running] == t.base.tasks[k := Running];
  }

  /** A task inside runOne can return at once. */
  lemma {:induction false} ReturnAtOnce(p: Probe, parent: Option<nat>, steps: seq<TimedStep>, k: nat)
    returns (more: seq<TimedStep>)
    requires p.WellFormed() && k < |p.checks|
    requires TimedExec(p, parent, steps).Some? && TimedExec(p, parent, steps).value.base.tasks[k].Running?
    ensures var t := TimedExec(p, parent, steps).value;
            var r := TimedExec(p, parent, more);
            && r.Some? && r.value.now == t.now && r.value.started == t.started
            && r.value.base.pc == t.base.pc && r.value.base.tasks == t.base.tasks[k := Finished]
            && r.value.base.shared.counter == t.base.shared.counter - 1
  {
    var t := TimedExec(p, parent, steps).value;
    TimedExecSnoc(p, parent, steps, Take(Write(k, t.now)));
    more := steps + [Take(Write(k, t.now))];
    TimedExecSnoc(p, parent, more, Take(Done(k)));
    more := more + [Take(Done(k))];
    assert t.base.tasks[k := Wrote][k := Finished] == t.base.tasks[k := Finished];
  }

  lemma {:induction false} NothingDueYet(p: Probe, parent: Option<nat>, t: TimedState)
    requires TimedShape(p, t) && t.base == Init(p)
    ensures !Urgent(p, parent, t)
  {
  }

  /** Time may pass before the probe begins. */
  lemma {:induction false} BeginLate(p: Probe, parent: Option<nat>, at: nat) returns (steps: seq<TimedStep>)
    requires p.WellFormed()
    ensures TimedExec(p, parent, steps).Some?
    ensures TimedExec(p, parent, steps).value.base == Init(p) && TimedExec(p, parent, steps).value.now == at
  {
    if at == 0 {
      steps := [];
    } else {
      steps := BeginLate(p, parent, at - 1);
      NothingDueYet(p, parent, TimedExec(p, parent, steps).value);
      TimedExecSnoc(p, parent, steps, Tick);
      steps := steps + [Tick];
    }
  }

  lemma {:induction false} LaunchAllButOne(p: Probe, parent: Option<nat>, i: nat, k: nat, at: nat)
    returns (steps: seq<TimedStep>)
    requires p.WellFormed() && i < |p.checks| && k <= |p.checks|
    ensures TimedExec(p, parent, steps).Some? && AllButOne(TimedExec(p, parent, steps).value, i, k, at)
  {
    if k == 0 {
      steps := BeginLate(p, parent, at);
      TimedExecSnoc(p, parent, steps, Take(Start(at)));
      steps := steps + [Take(Start(at))];
    } else {
      var before := LaunchAllButOne(p, parent, i, k - 1, at);
      steps := LaunchAndEnter(p, parent, before, k - 1);
      if k - 1 != i {
        steps := ReturnAtOnce(p, parent, steps, k - 1);
      }
    }
  }

  /** The spawner waits for task `i` alone; every other task is done, and all entered runOne at `at`. */
  ghost predicate WaitsFor(t: TimedState, i: nat, at: nat) {
    && t.base.pc.Wait? && t.base.shared.counter == 1 && i < |t.base.tasks|
    && (forall j :: 0 <= j < |t.started| ==> t.started[j] == at)
    && (forall j :: 0 <= j < |t.base.tasks| ==> t.base.tasks[j] == if j == i then Running else Finished)
  }

  /** A check can keep the spawner waiting up to its bound, long after every other check has returned;
      without a deadline, up to any time. */
  lemma {:induction false} WaitsUntil(p: Probe, parent: Option<nat>, i: nat, at: nat, later: nat)
    returns (steps: seq<TimedStep>)
    requires p.WellFormed() && i < |p.checks| && at <= later
    requires HasDeadline(p.checks[i], parent) ==> later <= Bound(p.checks[i], parent, at)
    ensures TimedExec(p, parent, steps).Some?
    ensures WaitsFor(TimedExec(p, parent, steps).value, i, at) && TimedExec(p, parent, steps).value.now == later
    decreases later
  {
    if later == at {
      steps := LaunchAllButOne(p, parent, i, |p.checks|, at);
      TimedExecSnoc(p, parent, steps, Take(EndLoop));
      steps := steps + [Take(EndLoop)];
    } else {
      steps := WaitsUntil(p, parent, i, at, later - 1);
      TimedExecSnoc(p, parent, steps, Tick);
      steps := steps + [Tick];
    }
  }

  /** A check without a deadline can keep the spawner waiting until any given time, every check having
      started at zero and all others having returned. */
  lemma {:induction false} WaitsForever(p: Probe, parent: Option<nat>, i: nat, later: nat)
    returns (steps: seq<TimedStep>)
    requires p.WellFormed() && i < |p.checks| && !HasDeadline(p.checks[i], parent)
    ensures TimedExec(p, parent, steps).Some?
    ensures WaitsFor(TimedExec(p, parent, steps).value, i, 0) && TimedExec(p, parent, steps).value.now == later
  {
    steps := WaitsUntil(p, parent, i, 0, later);
  }

  /** When the check waited for returns, the join is at that very time. */
  lemma {:induction false} ThenJoins(p: Probe, parent: Option<nat>, steps: seq<TimedStep>, i: nat, at: nat)
    returns (more: seq<TimedStep>)
    requires p.WellFormed() && TimedExec(p, parent, steps).Some? && i < |p.checks|
    requires WaitsFor(TimedExec(p, parent, steps).value, i, at)
    ensures ReadyToJoin(p, parent, more)
    ensures TimedExec(p, parent, more).value.now == TimedExec(p, parent, steps).value.now
    ensures forall j :: 0 <= j < |p.checks| ==> TimedExec(p, parent, more).value.started[j] == at
  {
    more := ReturnAtOnce(p, parent, steps, i);
  }

  /** So no time caps the join. */
  lemma {:induction false} NothingCaps(p: Probe, parent: Option<nat>, i: nat, last: nat, cap: nat)
    requires p.WellFormed() && i < |p.checks| && !HasDeadline(p.checks[i], parent)
    ensures !Caps(p, parent, last, cap)
  {
    var before := WaitsForever(p, parent, i, cap + 1);
    var steps := ThenJoins(p, parent, before, i, 0);
    assert ReadyToJoin(p, parent, steps) && TimedExec(p, parent, steps).value.now > cap;
  }

  /** A bound on the join that is known beforehand exists exactly when every check has a deadline. */
  lemma {:induction false} CappedIffDeadlines(p: Probe, parent: Option<nat>, last: nat)
    requires p.WellFormed()
    ensures (exists cap :: Caps(p, parent, last, cap)) <==>
            parent.Some? || forall i :: 0 <= i < |p.checks| ==> p.checks[i].timeout > 0
  {
    if i :| 0 <= i < |p.checks| && p.checks[i].timeout <= 0 && parent.None? {
      forall cap ensures !Caps(p, parent, last, cap) {
        NothingCaps(p, parent, i, last, cap);
      }
    } else {
      DeadlinesCap(p, parent, last);
    }
  }

  /** The latest bound is that of some check. */
  lemma {:induction false} LatestBoundAttained(p: Probe, parent: Option<nat>, started: seq<nat>, n: nat)
    returns (i: nat)
    requires 0 < n <= |p.checks| == |started|
    requires forall c :: c in p.checks ==> HasDeadline(c, parent)
    ensures i < n && p.checks[i] in p.checks
    ensures LatestBound(p, parent, started, n) == Bound(p.checks[i], parent, started[i])
  {
    if n == 1 {
      i := 0;
    } else {
      i := LatestBoundAttained(p, parent, started, n - 1);
      if Bound(p.checks[i], parent, started[i]) < Bound(p.checks[n - 1], parent, started[n - 1]) {
        i := n - 1;
      }
    }
  }

  /** The least cap on the join is the latest bound of checks that all start at `last`: some schedule meets it. */
  lemma {:induction false} LeastCap(p: Probe, parent: Option<nat>, last: nat, cap: nat)
    requires p.WellFormed() && |p.checks| > 0
    requires forall c :: c in p.checks ==> HasDeadline(c, parent)
    ensures Caps(p, parent, last, cap) <==>
            LatestBound(p, parent, seq(|p.checks|, _ => last), |p.checks|) <= cap
  {
    var latest := seq(|p.checks|, _ => last);
    var bound := LatestBound(p, parent, latest, |p.checks|);
    DeadlinesCap(p, parent, last);
    if Caps(p, parent, last, cap) {
      var i := LatestBoundAttained(p, parent, latest, |p.checks|);
      var before := WaitsUntil(p, parent, i, last, bound);
      var steps := ThenJoins(p, parent, before, i, last);
      assert TimedExec(p, parent, steps).value.now == bound;
    }
  }

  predicate BoundWithin(c: Check, parent: Option<nat>, start: nat, cap: nat) {
    HasDeadline(c, parent) && Bound(c, parent, start) <= cap
  }

  /** So capping the join is capping the bound of every check, started at `last`. */
  lemma {:induction false} CapsIffBoundsWithin(p: Probe, parent: Option<nat>, last: nat, cap: nat)
    requires p.WellFormed() && |p.checks| > 0
    requires forall c :: c in p.checks ==> HasDeadline(c, parent)
    ensures Caps(p, parent, last, cap) <==>
            forall i :: 0 <= i < |p.checks| ==> BoundWithin(p.checks[i], parent, last, cap)
  {
    var latest := seq(|p.checks|, _ => last);
    LeastCap(p, parent, last, cap);
    var worst := LatestBoundAttained(p, parent, latest, |p.checks|);
    forall i | 0 <= i < |p.checks|
      ensures Bound(p.checks[i], parent, last) <= LatestBound(p, parent, latest, |p.checks|)
    {
      LatestBoundCovers(p, parent, latest, |p.checks|, i);
    }
    assert BoundWithin(p.checks[worst], parent, last, cap) ==> LatestBound(p, parent, latest, |p.checks|) <= cap;
  }

  /** What the caps are, in terms of the timeouts and of the deadline on the caller's context: a time caps the join
      of checks started by `last` exactly when it leaves each of them its timeout, or until the caller's deadline. */
  lemma {:induction false} CapsIffTimeoutsFit(p: Probe, parent: Option<nat>, last: nat, cap: nat)
    requires p.WellFormed() && |p.checks| > 0
    ensures Caps(p, parent, last, cap) <==>
            && last <= cap
            && forall i :: 0 <= i < |p.checks| ==>
                 || (parent.Some? && parent.value <= cap)
                 || (p.checks[i].timeout > 0 && last + p.checks[i].timeout <= cap)
  {
    if i :| 0 <= i < |p.checks| && !HasDeadline(p.checks[i], parent) {
      NothingCaps(p, parent, i, last, cap);
    } else {
      CapsIffBoundsWithin(p, parent, last, cap);
      forall i | 0 <= i < |p.checks|
        ensures BoundWithin(p.checks[i], parent, last, cap) <==>
                && last <= cap
                && ((parent.Some? && parent.value <= cap)
                    || (p.checks[i].timeout > 0 && last + p.checks[i].timeout <= cap))
      {
      }
      assert BoundWithin(p.checks[0], parent, last, cap) ==> last <= cap;
    }
  }
}
