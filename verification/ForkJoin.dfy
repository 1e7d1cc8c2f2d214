/**
 The fork/join probe runner (runChecks, core/engine.go) as a small-step
 transition system: one spawner, one task per check, a WaitGroup counter and
 the shared `results` slots. A schedule is any sequence of enabled steps.
 */
module ForkJoin {
  import opened HealthTypes
  import opened Conversion
  import opened Grouping
  import opened Sequential

  /** Where the spawner is. `Loop(i)` is the head of the launching loop, `Launch(i)` lies
      between `wg.Add(1)` and the `go` statement, `Group(i)` is the head of the grouping loop. */
  datatype SpawnerPc = Begin | Loop(i: nat) | Launch(i: nat) | Wait | Group(i: nat) | Returned

  /** Where a task is: not launched, launched but not scheduled, inside runOne,
      past the slot write, past the deferred `wg.Done`. */
  datatype TaskPc = Unborn | Spawned | Running | Wrote | Finished

  /** What the goroutines of one invocation share. `writers[i]` records, in order,
      which tasks wrote slot `i`; no step reads it. */
  datatype Shared = Shared(counter: int, slots: Slots, writers: seq<seq<nat>>)

  /** `clock` records the readings taken; no step reads it. */
  datatype State = State(pc: SpawnerPc, tasks: seq<TaskPc>, out: ChecksMap, clock: Readings, shared: Shared)

  datatype Step =
    | Start(now: Timestamp)       // heartbeat entry, early return when there are no checks
    | Add                         // wg.Add(1)
    | Go                          // go func(...)
    | EndLoop                     // the launching loop is exhausted
    | Enter(i: nat)               // task i is scheduled and enters runOne
    | Write(i: nat, now: Timestamp) // Run has returned; results[i] = ...
    | Done(i: nat)                // deferred wg.Done()
    | Join                        // wg.Wait() returns
    | GroupSlot                   // one round of the grouping loop
    | Return

  function Init(p: Probe): State {
    var n := |p.checks|;
    State(Begin, seq(n, _ => Unborn), map[], Readings(0, Zeros(n)),
          Shared(0, seq(n, _ => []), seq(n, _ => [])))
  }

  /** Lengths of the state's sequences agree with the number of checks. */
  predicate Shaped(p: Probe, s: State) {
    && p.WellFormed()
    && |s.tasks| == |s.clock.tasks| == |s.shared.slots| == |s.shared.writers| == |p.checks|
  }

  predicate Enabled(p: Probe, s: State, step: Step)
    requires Shaped(p, s)
  {
    match step
    case Start(_) => s.pc.Begin?
    case Add => s.pc.Loop? && s.pc.i < |p.checks|
    case Go => s.pc.Launch? && s.pc.i < |p.checks|
    case EndLoop => s.pc.Loop? && s.pc.i == |p.checks|
    case Enter(i) => i < |p.checks| && s.tasks[i].Spawned?
    case Write(i, _) => i < |p.checks| && s.tasks[i].Running?
    case Done(i) => i < |p.checks| && s.tasks[i].Wrote?
    case Join => s.pc.Wait? && s.shared.counter == 0
    case GroupSlot => s.pc.Group? && s.pc.i < |p.checks|
    case Return => s.pc.Group? && s.pc.i == |p.checks|
  }

  function Apply(p: Probe, s: State, step: Step): (s': State)
    requires Shaped(p, s) && Enabled(p, s, step)
    ensures Shaped(p, s')
  {
    match step
    case Start(now) =>
      s.(pc := if |p.checks| == 0 then Returned else Loop(0),
         out := map[SYSTEM_TIME := [Heartbeat(now)]],
         clock := s.clock.(heartbeat := now))
    case Add =>
      s.(pc := Launch(s.pc.i), shared := s.shared.(counter := s.shared.counter + 1))
    case Go =>
      s.(pc := Loop(s.pc.i + 1), tasks := s.tasks[s.pc.i := Spawned])
    case EndLoop =>
      s.(pc := Wait)
    case Enter(i) =>
      s.(tasks := s.tasks[i := Running])
    case Write(i, now) =>
      s.(tasks := s.tasks[i := Wrote],
         clock := s.clock.(tasks := s.clock.tasks[i := now]),
         shared := s.shared.(slots := s.shared.slots[i := SlotOf(p, i, now)],
                             writers := s.shared.writers[i := s.shared.writers[i] + [i]]))
    case Done(i) =>
      s.(tasks := s.tasks[i := Finished], shared := s.shared.(counter := s.shared.counter - 1))
    case Join =>
      s.(pc := Group(0))
    case GroupSlot =>
      s.(pc := Group(s.pc.i + 1), out := Append(s.out, p.checks[s.pc.i].name, s.shared.slots[s.pc.i]))
    case Return =>
      s.(pc := Returned)
  }

  /** The state a schedule leads to; `None` when it takes a step that is not enabled. */
  function Exec(p: Probe, steps: seq<Step>): (r: Option<State>)
    requires p.WellFormed()
    ensures r.Some? ==> Shaped(p, r.value)
  {
    if steps == [] then Some(Init(p))
    else
      var last := |steps| - 1;
      match Exec(p, steps[..last])
      case None => None
      case Some(s) => if Enabled(p, s, steps[last]) then Some(Apply(p, s, steps[last])) else None
  }

  lemma ExecSnoc(p: Probe, steps: seq<Step>, step: Step)
    requires p.WellFormed() && Exec(p, steps).Some? && Enabled(p, Exec(p, steps).value, step)
    ensures Exec(p, steps + [step]) == Some(Apply(p, Exec(p, steps).value, step))
  {
    assert (steps + [step])[..|steps|] == steps;
  }

  /** The runner has returned its map. */
  predicate Complete(p: Probe, steps: seq<Step>)
    requires p.WellFormed()
  {
    Exec(p, steps).Some? && Exec(p, steps).value.pc.Returned?
  }

  // ----- counting tasks

  function Sum(tasks: seq<TaskPc>, weight: TaskPc -> nat): nat {
    if tasks == [] then 0
    else Sum(tasks[..|tasks| - 1], weight) + weight(tasks[|tasks| - 1])
  }

  lemma {:induction false} SumUpdate(tasks: seq<TaskPc>, i: nat, pc: TaskPc, weight: TaskPc -> nat)
    requires i < |tasks|
    ensures Sum(tasks[i := pc], weight) == Sum(tasks, weight) - weight(tasks[i]) + weight(pc)
  {
    var last := |tasks| - 1;
    if i == last {
      assert tasks[i := pc][..last] == tasks[..last];
    } else {
      assert tasks[i := pc][..last] == tasks[..last][i := pc];
      SumUpdate(tasks[..last], i, pc, weight);
    }
  }

  lemma {:induction false} SumConstant(tasks: seq<TaskPc>, weight: TaskPc -> nat, w: nat)
    requires forall i :: 0 <= i < |tasks| ==> weight(tasks[i]) == w
    ensures Sum(tasks, weight) == |tasks| * w
  {
    if tasks == [] {
    } else {
      SumConstant(tasks[..|tasks| - 1], weight, w);
    }
  }

  lemma {:induction false} SumAtLeast(tasks: seq<TaskPc>, weight: TaskPc -> nat, i: nat)
    requires i < |tasks|
    ensures Sum(tasks, weight) >= weight(tasks[i])
  {
    if i == |tasks| - 1 {
    } else {
      SumAtLeast(tasks[..|tasks| - 1], weight, i);
    }
  }

  lemma {:induction false} SumWitness(tasks: seq<TaskPc>, weight: TaskPc -> nat) returns (i: nat)
    requires Sum(tasks, weight) > 0
    ensures i < |tasks| && weight(tasks[i]) > 0
  {
    i := |tasks| - 1;
    if weight(tasks[i]) == 0 {
      i := SumWitness(tasks[..i], weight);
    }
  }

  /** One for a task that has been launched and has not called `Done`. */
  function Active(pc: TaskPc): nat {
    if pc.Spawned? || pc.Running? || pc.Wrote? then 1 else 0
  }

  // ----- the inductive invariant

  /** How many tasks have been launched. */
  function Launched(p: Probe, pc: SpawnerPc): nat {
    match pc
    case Begin => 0
    case Loop(i) => i
    case Launch(i) => i
    case _ => |p.checks|
  }

  /** The counter is the number of added-but-not-done tasks, wherever the spawner is. */
  ghost predicate CounterInv(p: Probe, s: State) {
    && (s.pc.Loop? ==> s.pc.i <= |p.checks|)
    && (s.pc.Launch? ==> s.pc.i < |p.checks|)
    && (forall i :: 0 <= i < |s.tasks| ==> (s.tasks[i].Unborn? <==> i >= Launched(p, s.pc)))
    && s.shared.counter == Sum(s.tasks, Active) + if s.pc.Launch? then 1 else 0
  }

  /** A slot is untouched until its own task writes it, and is then written exactly once. */
  ghost predicate SlotInv(p: Probe, s: State)
    requires Shaped(p, s)
  {
    forall i :: 0 <= i < |p.checks| ==>
      if s.tasks[i].Wrote? || s.tasks[i].Finished?
      then s.shared.slots[i] == SlotOf(p, i, s.clock.tasks[i]) && s.shared.writers[i] == [i]
      else s.shared.slots[i] == [] && s.shared.writers[i] == []
  }

  /** The task is past its slot write. */
  predicate HasReturned(pc: TaskPc) {
    pc.Wrote? || pc.Finished?
  }

  /** The spawner is past `wg.Wait`. */
  predicate Joined(s: State) {
    s.pc.Group? || s.pc.Returned?
  }

  ghost predicate AllFinished(s: State) {
    forall i :: 0 <= i < |s.tasks| ==> s.tasks[i].Finished?
  }

  /** How much of the grouping has been done. */
  function Grown(p: Probe, pc: SpawnerPc): nat {
    match pc
    case Group(i) => i
    case Returned => |p.checks|
    case _ => 0
  }

  ghost predicate OutInv(p: Probe, s: State)
    requires Shaped(p, s)
  {
    && (Joined(s) ==> AllFinished(s))
    && Grown(p, s.pc) <= |p.checks|
    && s.out == (if s.pc.Begin? then map[]
                 else Grouped(Heartbeat(s.clock.heartbeat),
                              p.checks[..Grown(p, s.pc)], s.shared.slots[..Grown(p, s.pc)]))
  }

  ghost predicate Inv(p: Probe, s: State) {
    Shaped(p, s) && CounterInv(p, s) && SlotInv(p, s) && OutInv(p, s)
  }

  ghost predicate LaunchedFinished(p: Probe, s: State)
    requires Shaped(p, s)
  {
    forall i :: 0 <= i < |p.checks| && i < Launched(p, s.pc) ==> s.tasks[i].Finished?
  }

  /** Counter zero means that no launch is under way and every launched task is done. */
  lemma CounterMeaning(p: Probe, s: State)
    requires Shaped(p, s) && CounterInv(p, s)
    ensures s.shared.counter >= 0
    ensures s.shared.counter == 0 <==> !s.pc.Launch? && LaunchedFinished(p, s)
  {
    if s.shared.counter == 0 {
      forall i | 0 <= i < |p.checks| && i < Launched(p, s.pc) ensures s.tasks[i].Finished? {
        SumAtLeast(s.tasks, Active, i);
      }
    }
    if LaunchedFinished(p, s) {
      forall i | 0 <= i < |s.tasks| ensures Active(s.tasks[i]) == 0 {
        assert s.tasks[i].Finished? || s.tasks[i].Unborn?;
      }
      SumConstant(s.tasks, Active, 0);
    }
  }

  lemma InitInv(p: Probe)
    requires p.WellFormed()
    ensures Inv(p, Init(p))
  {
    SumConstant(Init(p).tasks, Active, 0);
  }

  lemma SpawnerStepCounter(p: Probe, s: State, step: Step)
    requires Shaped(p, s) && CounterInv(p, s) && Enabled(p, s, step)
    requires step.Start? || step.Add? || step.Go? || step.EndLoop? || step.Join?
    ensures CounterInv(p, Apply(p, s, step))
  {
    if step.Go? {
      SumUpdate(s.tasks, s.pc.i, Spawned, Active);
    }
  }

  lemma SpawnerStepOut(p: Probe, s: State, step: Step)
    requires Inv(p, s) && Enabled(p, s, step)
    requires step.Start? || step.Add? || step.Go? || step.EndLoop? || step.Join?
    ensures SlotInv(p, Apply(p, s, step)) && OutInv(p, Apply(p, s, step))
  {
    if step.Join? {
      CounterMeaning(p, s);
    }
    assert p.checks[..0] == [] && s.shared.slots[..0] == [];
  }

  lemma TaskStepCounter(p: Probe, s: State, step: Step)
    requires Shaped(p, s) && CounterInv(p, s) && Enabled(p, s, step)
    requires step.Enter? || step.Write? || step.Done?
    ensures CounterInv(p, Apply(p, s, step))
  {
    var pc := if step.Enter? then Running else if step.Write? then Wrote else Finished;
    var s' := Apply(p, s, step);
    SumUpdate(s.tasks, step.i, pc, Active);
    assert s'.pc == s.pc && s'.tasks == s.tasks[step.i := pc];
  }

  lemma TaskStepSlots(p: Probe, s: State, step: Step)
    requires Inv(p, s) && Enabled(p, s, step)
    requires step.Enter? || step.Write? || step.Done?
    ensures SlotInv(p, Apply(p, s, step))
  {
    var s' := Apply(p, s, step);
    forall i | 0 <= i < |p.checks|
      ensures if s'.tasks[i].Wrote? || s'.tasks[i].Finished?
              then s'.shared.slots[i] == SlotOf(p, i, s'.clock.tasks[i]) && s'.shared.writers[i] == [i]
              else s'.shared.slots[i] == [] && s'.shared.writers[i] == []
    {
      if step.Write? && i == step.i {
        assert s.shared.writers[i] == [];
      }
    }
  }

  lemma TaskStepOut(p: Probe, s: State, step: Step)
    requires Inv(p, s) && Enabled(p, s, step)
    requires step.Enter? || step.Write? || step.Done?
    ensures OutInv(p, Apply(p, s, step))
  {
    assert !AllFinished(s) by {
      assert !s.tasks[step.i].Finished?;
    }
    assert Apply(p, s, step).shared.slots[..0] == s.shared.slots[..0];
  }

  lemma GroupStepOut(p: Probe, s: State, step: Step)
    requires Shaped(p, s) && OutInv(p, s) && Enabled(p, s, step)
    requires step.GroupSlot? || step.Return?
    ensures OutInv(p, Apply(p, s, step))
  {
    if step.GroupSlot? {
      GroupedRound(Heartbeat(s.clock.heartbeat), p.checks, s.shared.slots, s.pc.i);
    }
  }

  lemma GroupStepFrame(p: Probe, s: State, step: Step)
    requires Shaped(p, s) && CounterInv(p, s) && SlotInv(p, s) && Enabled(p, s, step)
    requires step.GroupSlot? || step.Return?
    ensures CounterInv(p, Apply(p, s, step)) && SlotInv(p, Apply(p, s, step))
  {
  }

  lemma StepInv(p: Probe, s: State, step: Step)
    requires Inv(p, s) && Enabled(p, s, step)
    ensures Inv(p, Apply(p, s, step))
  {
    if step.Enter? || step.Write? || step.Done? {
      TaskStepCounter(p, s, step);
      TaskStepSlots(p, s, step);
      TaskStepOut(p, s, step);
    } else if step.GroupSlot? || step.Return? {
      GroupStepOut(p, s, step);
      GroupStepFrame(p, s, step);
    } else {
      SpawnerStepCounter(p, s, step);
      SpawnerStepOut(p, s, step);
    }
  }

  /** The invariant holds after every schedule. */
  lemma {:induction false} ReachableInv(p: Probe, steps: seq<Step>)
    requires p.WellFormed() && Exec(p, steps).Some?
    ensures Inv(p, Exec(p, steps).value)
  {
    if steps == [] {
      InitInv(p);
    } else {
      var last := |steps| - 1;
      ReachableInv(p, steps[..last]);
      StepInv(p, Exec(p, steps[..last]).value, steps[last]);
    }
  }

  // ----- safety and refinement

  /** The counter never goes negative, which would make Go panic; and once Wait has returned, every
      slot has been written exactly once, by its own task, with that check's entries, and no
      goroutine can touch the slots any more. */
  lemma JoinIsSafe(p: Probe, steps: seq<Step>)
    requires p.WellFormed() && Exec(p, steps).Some?
    ensures var s := Exec(p, steps).value;
            && s.shared.counter >= 0
            && (Joined(s) ==>
                 && s.shared.counter == 0
                 && (forall i :: 0 <= i < |p.checks| ==>
                       s.shared.writers[i] == [i] && s.shared.slots[i] == SlotOf(p, i, s.clock.tasks[i]))
                 && (forall step :: Enabled(p, s, step) ==> step.GroupSlot? || step.Return?))
  {
    ReachableInv(p, steps);
    CounterMeaning(p, Exec(p, steps).value);
  }

  /** At the wait, and only there, a zero counter is the same as every task being done. */
  lemma WaitMeansAllDone(p: Probe, steps: seq<Step>)
    requires p.WellFormed() && Exec(p, steps).Some?
    requires Exec(p, steps).value.pc.Wait?
    ensures Exec(p, steps).value.shared.counter == 0 <==> AllFinished(Exec(p, steps).value)
  {
    ReachableInv(p, steps);
    CounterMeaning(p, Exec(p, steps).value);
  }

  lemma LaunchOne(p: Probe, steps: seq<Step>, k: nat)
    requires p.WellFormed() && Exec(p, steps).Some? && k < |p.checks|
    requires Exec(p, steps).value.pc == Loop(k)
    ensures var s := Exec(p, steps).value;
            var r := Exec(p, steps + [Add] + [Go]);
            && r.Some? && r.value.pc == Loop(k + 1)
            && r.value.tasks == s.tasks[k := Spawned] && r.value.clock == s.clock
            && r.value.shared.counter == s.shared.counter + 1
  {
    ExecSnoc(p, steps, Add);
    ExecSnoc(p, steps + [Add], Go);
  }

  lemma FinishOne(p: Probe, steps: seq<Step>, k: nat, now: Timestamp)
    requires p.WellFormed() && Exec(p, steps).Some? && k < |p.checks|
    requires Exec(p, steps).value.tasks[k].Spawned?
    ensures var s := Exec(p, steps).value;
            var r := Exec(p, steps + [Enter(k)] + [Write(k, now)] + [Done(k)]);
            && r.Some? && r.value.pc == s.pc
            && r.value.tasks == s.tasks[k := Finished]
            && r.value.clock == s.clock.(tasks := s.clock.tasks[k := now])
            && r.value.shared.counter == s.shared.counter - 1
  {
    var s := Exec(p, steps).value;
    ExecSnoc(p, steps, Enter(k));
    var s1 := Exec(p, steps + [Enter(k)]).value;
    assert s1.tasks == s.tasks[k := Running] && s1.pc == s.pc && s1.clock == s.clock;
    ExecSnoc(p, steps + [Enter(k)], Write(k, now));
    var s2 := Exec(p, steps + [Enter(k)] + [Write(k, now)]).value;
    assert s2.tasks == s.tasks[k := Wrote] && s2.pc == s.pc && s2.shared.counter == s.shared.counter;
    ExecSnoc(p, steps + [Enter(k)] + [Write(k, now)], Done(k));
  }

  /** Tasks below `k` are done, the others have not been launched. */
  ghost predicate FirstDone(tasks: seq<TaskPc>, k: nat) {
    forall i :: 0 <= i < |tasks| ==> if i < k then tasks[i].Finished? else tasks[i].Unborn?
  }

  /** The first `k` checks can be run one after the other, with any clock readings. */
  lemma {:induction false} RunFirst(p: Probe, clock: Readings, k: nat) returns (steps: seq<Step>)
    requires p.WellFormed() && k <= |p.checks| == |clock.tasks| && 0 < |p.checks|
    ensures Exec(p, steps).Some?
    ensures var s := Exec(p, steps).value;
            && s.pc == Loop(k) && s.shared.counter == 0 && FirstDone(s.tasks, k)
            && s.clock.heartbeat == clock.heartbeat && s.clock.tasks[..k] == clock.tasks[..k]
  {
    if k == 0 {
      ExecSnoc(p, [], Start(clock.heartbeat));
      steps := [] + [Start(clock.heartbeat)];
    } else {
      steps := RunFirst(p, clock, k - 1);
      FirstDoneStep(Exec(p, steps).value.tasks, k - 1);
      ReadOne(Exec(p, steps).value.clock.tasks, clock.tasks, k - 1);
      LaunchOne(p, steps, k - 1);
      steps := steps + [Add] + [Go];
      FinishOne(p, steps, k - 1, clock.tasks[k - 1]);
      steps := steps + [Enter(k - 1)] + [Write(k - 1, clock.tasks[k - 1])] + [Done(k - 1)];
    }
  }

  lemma ReadOne(read: seq<Timestamp>, times: seq<Timestamp>, k: nat)
    requires k < |read| == |times| && read[..k] == times[..k]
    ensures read[k := times[k]][..k + 1] == times[..k + 1]
  {
  }

  /** A zero counter alone does not mean that every check is done: it can return to zero
      between any two launches, while later tasks do not exist yet. */
  lemma {:induction false} CounterZeroMidLaunch(p: Probe, k: nat) returns (steps: seq<Step>)
    requires p.WellFormed() && k <= |p.checks| && 0 < |p.checks|
    ensures Exec(p, steps).Some?
    ensures var s := Exec(p, steps).value;
            s.pc == Loop(k) && s.shared.counter == 0 && FirstDone(s.tasks, k)
  {
    steps := RunFirst(p, Readings(0, Zeros(|p.checks|)), k);
  }

  lemma FirstDoneStep(tasks: seq<TaskPc>, k: nat)
    requires FirstDone(tasks, k) && k < |tasks|
    ensures FirstDone(tasks[k := Spawned][k := Finished], k + 1)
  {
  }

  lemma JoinedSlots(p: Probe, s: State)
    requires Inv(p, s) && Joined(s)
    ensures s.shared.slots == SlotsOf(p, s.clock.tasks)
  {
  }

  /** Every complete schedule returns the sequential map for the clock readings it took. */
  lemma RefinesSequential(p: Probe, steps: seq<Step>)
    requires p.WellFormed() && Complete(p, steps)
    ensures var s := Exec(p, steps).value;
            && s.out == SequentialMap(p, s.clock)
            && UntimedMap(s.out) == Expected(p)
  {
    ReachableInv(p, steps);
    var s := Exec(p, steps).value;
    JoinedSlots(p, s);
    assert p.checks[..|p.checks|] == p.checks && s.shared.slots[..|p.checks|] == s.shared.slots;
    SequentialUntimed(p, s.clock);
  }

  /** Once Wait has returned, slot `i` holds, in order, exactly what check `i` returned. */
  lemma {:induction false} JoinedSlotIsFaithful(p: Probe, steps: seq<Step>, i: nat)
    requires p.WellFormed() && Exec(p, steps).Some? && Joined(Exec(p, steps).value) && i < |p.checks|
    ensures var s := Exec(p, steps).value;
            && |s.shared.slots[i]| == EntryCount(p.checks[i], p.outcomes[i])
            && forall j :: 0 <= j < |s.shared.slots[i]| ==>
                 EntryOf(s.shared.slots[i][j], p.checks[i], p.outcomes[i], j, s.clock.tasks[i])
  {
    ReachableInv(p, steps);
    JoinedSlots(p, Exec(p, steps).value);
    SlotIsFaithful(p, Exec(p, steps).value.clock.tasks, i);
  }

  /** Only a task's own write sets its reading. */
  lemma {:induction false} StepTakesReading(p: Probe, s: State, step: Step, i: nat)
    requires Shaped(p, s) && Enabled(p, s, step) && i < |p.checks|
    ensures var s' := Apply(p, s, step);
            HasReturned(s'.tasks[i]) ==>
              step == Write(i, s'.clock.tasks[i])
              || (HasReturned(s.tasks[i]) && s'.clock.tasks[i] == s.clock.tasks[i])
  {
  }

  lemma {:induction false} FirstStepStarts(p: Probe, s: State, step: Step)
    requires Shaped(p, s) && CounterInv(p, s) && Enabled(p, s, step)
    ensures s.pc.Begin? <==> step.Start?
    ensures step.Start? ==> Apply(p, s, step).clock.heartbeat == step.now
    ensures !step.Start? ==> Apply(p, s, step).clock.heartbeat == s.clock.heartbeat
    ensures !Apply(p, s, step).pc.Begin?
  {
  }

  /** The heartbeat's reading is the one the very first step took. */
  lemma {:induction false} HeartbeatReadFirst(p: Probe, steps: seq<Step>)
    requires p.WellFormed() && Exec(p, steps).Some?
    ensures Exec(p, steps).value.pc.Begin? <==> steps == []
    ensures steps != [] ==> steps[0] == Start(Exec(p, steps).value.clock.heartbeat)
  {
    if steps == [] {
    } else {
      var last := |steps| - 1;
      HeartbeatReadFirst(p, steps[..last]);
      ReachableInv(p, steps[..last]);
      FirstStepStarts(p, Exec(p, steps[..last]).value, steps[last]);
    }
  }

  /** The reading of a check that has returned is the one taken when its slot was written. */
  lemma {:induction false} ReadWhenWritten(p: Probe, steps: seq<Step>, i: nat)
    requires p.WellFormed() && Exec(p, steps).Some? && i < |p.checks|
    requires HasReturned(Exec(p, steps).value.tasks[i])
    ensures Write(i, Exec(p, steps).value.clock.tasks[i]) in steps
  {
    if steps == [] {
    } else {
      var last := |steps| - 1;
      var s := Exec(p, steps[..last]).value;
      ReachableInv(p, steps[..last]);
      StepTakesReading(p, s, steps[last], i);
      if HasReturned(s.tasks[i]) && Exec(p, steps).value.clock.tasks[i] == s.clock.tasks[i] {
        ReadWhenWritten(p, steps[..last], i);
      } else {
        assert steps[last] in steps;
      }
    }
  }

  lemma {:induction false} FinishedStays(p: Probe, s: State, step: Step)
    requires Shaped(p, s) && CounterInv(p, s) && Enabled(p, s, step) && AllFinished(s) && !s.pc.Begin?
    ensures var s' := Apply(p, s, step); AllFinished(s') && !s'.pc.Begin? && s'.clock == s.clock
  {
  }

  /** Once every task is done, the readings stay. */
  lemma {:induction false} ReadingsStay(p: Probe, steps: seq<Step>, all: seq<Step>)
    requires p.WellFormed() && Exec(p, steps).Some? && Exec(p, all).Some? && steps <= all
    requires !Exec(p, steps).value.pc.Begin? && AllFinished(Exec(p, steps).value)
    ensures Exec(p, all).value.clock == Exec(p, steps).value.clock
    ensures !Exec(p, all).value.pc.Begin? && AllFinished(Exec(p, all).value)
  {
    if all == steps {
    } else {
      var last := |all| - 1;
      ReadingsStay(p, steps, all[..last]);
      ReachableInv(p, all[..last]);
      FinishedStays(p, Exec(p, all[..last]).value, all[last]);
    }
  }

  /** The converse of refinement: whatever the clock may read, some schedule returns the sequential map for it. */
  lemma {:induction false} AnyReadingsOccur(p: Probe, clock: Readings) returns (all: seq<Step>)
    requires p.WellFormed() && |clock.tasks| == |p.checks|
    ensures Complete(p, all) && Exec(p, all).value.out == SequentialMap(p, clock)
  {
    if p.checks == [] {
      ExecSnoc(p, [], Start(clock.heartbeat));
      all := [] + [Start(clock.heartbeat)];
      assert clock == Exec(p, all).value.clock;
    } else {
      var steps := RunFirst(p, clock, |p.checks|);
      assert Exec(p, steps).value.clock == clock;
      all := Completes(p, steps);
      ReadingsStay(p, steps, all);
    }
    RefinesSequential(p, all);
  }

  /** The maps the concurrent runner can return are exactly the sequential ones, one for each way the clock reads. */
  lemma {:induction false} ReturnsExactlySequential(p: Probe, out: ChecksMap)
    requires p.WellFormed()
    ensures (exists steps :: Complete(p, steps) && Exec(p, steps).value.out == out) <==>
            (exists clock: Readings :: |clock.tasks| == |p.checks| && out == SequentialMap(p, clock))
  {
    if steps :| Complete(p, steps) && Exec(p, steps).value.out == out {
      RefinesSequential(p, steps);
    }
    if clock: Readings :| |clock.tasks| == |p.checks| && out == SequentialMap(p, clock) {
      var steps := AnyReadingsOccur(p, clock);
    }
  }

  /** Any two complete schedules return the same map, up to timestamps. */
  lemma SchedulesAgree(p: Probe, steps1: seq<Step>, steps2: seq<Step>)
    requires p.WellFormed() && Complete(p, steps1) && Complete(p, steps2)
    ensures UntimedMap(Exec(p, steps1).value.out) == UntimedMap(Exec(p, steps2).value.out)
  {
    RefinesSequential(p, steps1);
    RefinesSequential(p, steps2);
  }

  // ----- progress and termination

  /** While the runner has not returned, some step is enabled: no schedule gets stuck. */
  lemma Progress(p: Probe, steps: seq<Step>) returns (step: Step)
    requires p.WellFormed() && Exec(p, steps).Some? && !Complete(p, steps)
    ensures Enabled(p, Exec(p, steps).value, step)
  {
    ReachableInv(p, steps);
    var s := Exec(p, steps).value;
    match s.pc
    case Begin => step := Start(0);
    case Loop(i) => step := if i < |p.checks| then Add else EndLoop;
    case Launch(i) => step := Go;
    case Group(i) => step := if i < |p.checks| then GroupSlot else Return;
    case Wait =>
      if s.shared.counter == 0 {
        step := Join;
      } else {
        var i := SumWitness(s.tasks, Active);
        step := if s.tasks[i].Spawned? then Enter(i) else if s.tasks[i].Running? then Write(i, 0) else Done(i);
      }
  }

  /** The steps a task has left. */
  function TaskWork(pc: TaskPc): nat {
    match pc
    case Unborn => 3
    case Spawned => 3
    case Running => 2
    case Wrote => 1
    case Finished => 0
  }

  /** The steps the spawner has left. */
  function SpawnerWork(p: Probe, pc: SpawnerPc): int {
    var n := |p.checks|;
    match pc
    case Begin => if n == 0 then 1 else 3 * n + 4
    case Loop(i) => 2 * (n - i) + n + 3
    case Launch(i) => 2 * (n - i) + n + 2
    case Wait => n + 2
    case Group(i) => n - i + 1
    case Returned => 0
  }

  function Work(p: Probe, s: State): int {
    SpawnerWork(p, s.pc) + Sum(s.tasks, TaskWork)
  }

  lemma StepSpendsWork(p: Probe, s: State, step: Step)
    requires Inv(p, s) && Enabled(p, s, step)
    ensures Work(p, Apply(p, s, step)) == Work(p, s) - 1
  {
    if step.Enter? || step.Write? || step.Done? {
      TaskStepSpendsWork(p, s, step);
    } else {
      SpawnerStepSpendsWork(p, s, step);
    }
  }

  lemma SpawnerStepSpendsWork(p: Probe, s: State, step: Step)
    requires Shaped(p, s) && CounterInv(p, s) && Enabled(p, s, step)
    requires !step.Enter? && !step.Write? && !step.Done?
    ensures Work(p, Apply(p, s, step)) == Work(p, s) - 1
  {
    var s' := Apply(p, s, step);
    if step.Go? {
      SumUpdate(s.tasks, s.pc.i, Spawned, TaskWork);
    } else {
      assert s'.tasks == s.tasks;
    }
    assert SpawnerWork(p, s'.pc) == SpawnerWork(p, s.pc) - 1;
  }

  lemma TaskStepSpendsWork(p: Probe, s: State, step: Step)
    requires Shaped(p, s) && Enabled(p, s, step)
    requires step.Enter? || step.Write? || step.Done?
    ensures Work(p, Apply(p, s, step)) == Work(p, s) - 1
  {
    var pc := if step.Enter? then Running else if step.Write? then Wrote else Finished;
    SumUpdate(s.tasks, step.i, pc, TaskWork);
    assert Apply(p, s, step).tasks == s.tasks[step.i := pc] && Apply(p, s, step).pc == s.pc;
  }

  /** Steps in a complete schedule: three of the spawner and three of its goroutine for
      every check, and four more; one when there is nothing to run. */
  function TotalWork(n: nat): nat {
    if n == 0 then 1 else 6 * n + 4
  }

  lemma NoWorkLeft(p: Probe, s: State)
    requires Inv(p, s)
    ensures Work(p, s) == 0 <==> s.pc.Returned?
    ensures Work(p, s) >= 0
  {
    if s.pc.Returned? {
      SumConstant(s.tasks, TaskWork, 0);
    }
  }

  /** Work is conserved along every schedule: steps taken plus work left is constant, and the
      runner has returned exactly when none is left. So no schedule exceeds the bound, and all
      complete ones have the same length. */
  lemma {:induction false} WorkConserved(p: Probe, steps: seq<Step>)
    requires p.WellFormed() && Exec(p, steps).Some?
    ensures |steps| + Work(p, Exec(p, steps).value) == TotalWork(|p.checks|)
    ensures |steps| <= TotalWork(|p.checks|)
    ensures Complete(p, steps) <==> |steps| == TotalWork(|p.checks|)
  {
    ReachableInv(p, steps);
    NoWorkLeft(p, Exec(p, steps).value);
    if steps == [] {
      SumConstant(Init(p).tasks, TaskWork, 3);
    } else {
      var last := |steps| - 1;
      WorkConserved(p, steps[..last]);
      ReachableInv(p, steps[..last]);
      StepSpendsWork(p, Exec(p, steps[..last]).value, steps[last]);
    }
  }

  /** One more step of an incomplete schedule. */
  lemma {:induction false} StepOn(p: Probe, steps: seq<Step>) returns (step: Step)
    requires p.WellFormed() && Exec(p, steps).Some? && !Complete(p, steps)
    ensures Exec(p, steps + [step]).Some? && |steps| < TotalWork(|p.checks|)
  {
    step := Progress(p, steps);
    ExecSnoc(p, steps, step);
    WorkConserved(p, steps + [step]);
  }

  /** Every partial schedule can be completed. */
  lemma {:induction false} Completes(p: Probe, steps: seq<Step>) returns (all: seq<Step>)
    requires p.WellFormed() && Exec(p, steps).Some?
    ensures steps <= all && Complete(p, all)
    decreases TotalWork(|p.checks|) - |steps|
  {
    if Complete(p, steps) {
      all := steps;
    } else {
      var step := StepOn(p, steps);
      all := Completes(p, steps + [step]);
    }
  }
}
