/**
 Many invocations of RunLivez, RunReadyz and RunHealthz interleaved over one
 engine (core/engine.go). Each invocation allocates its own counter and slots
 on a shared heap; nothing but freshness of the allocation keeps them apart.
 */
module Serving {
  import opened HealthTypes
  import opened Aggregation
  import opened Sequential
  import opened ForkJoin
  import opened Registration

  datatype EngineState = EngineState(serviceId: string, description: string, slices: Slices)

  /** One Run* call in flight: what is on its stack, and where its shared cells live. */
  datatype Invocation = Invocation(
    endpoint: Endpoint,
    probe: Probe,
    addr: nat,
    pc: SpawnerPc,
    tasks: seq<TaskPc>,
    out: ChecksMap,
    clock: Readings,
    response: Option<HealthResponse>)

  datatype Server = Server(engine: EngineState, heap: map<nat, Shared>, invocations: seq<Invocation>)

  datatype ServerStep =
    /** A Run* method is entered; `outcomes` is what the checks' `Run` functions will return to it. */
    | Accept(endpoint: Endpoint, outcomes: seq<seq<Result>>, addr: nat)
    /** Invocation `k` takes a step of its own. */
    | Advance(k: nat, step: Step)
    /** Invocation `k` aggregates its map, ranging over it in the given order, and returns. */
    | Respond(k: nat, order: seq<string>)

  /** The runner state of an invocation, as read through the heap. */
  function View(heap: map<nat, Shared>, inv: Invocation): State
    requires inv.addr in heap
  {
    State(inv.pc, inv.tasks, inv.out, inv.clock, heap[inv.addr])
  }

  ghost predicate ServerEnabled(sv: Server, step: ServerStep) {
    match step
    case Accept(e, outcomes, addr) =>
      addr !in sv.heap && |outcomes| == |SliceFor(sv.engine.slices, e)|
    case Advance(k, s) =>
      && k < |sv.invocations| && sv.invocations[k].addr in sv.heap
      && Shaped(sv.invocations[k].probe, View(sv.heap, sv.invocations[k]))
      && Enabled(sv.invocations[k].probe, View(sv.heap, sv.invocations[k]), s)
    case Respond(k, order) =>
      && k < |sv.invocations| && sv.invocations[k].pc.Returned? && sv.invocations[k].response.None?
      && IterationOrder(order, sv.invocations[k].out)
  }

  ghost function ServerApply(sv: Server, step: ServerStep): Server
    requires ServerEnabled(sv, step)
  {
    match step
    case Accept(e, outcomes, addr) =>
      var probe := Probe(SliceFor(sv.engine.slices, e), outcomes);
      var s := Init(probe);
      sv.(heap := sv.heap[addr := s.shared],
          invocations := sv.invocations + [Invocation(e, probe, addr, s.pc, s.tasks, s.out, s.clock, None)])
    case Advance(k, step) =>
      var inv := sv.invocations[k];
      var s := Apply(inv.probe, View(sv.heap, inv), step);
      sv.(heap := sv.heap[inv.addr := s.shared],
          invocations := sv.invocations[k := inv.(pc := s.pc, tasks := s.tasks, out := s.out, clock := s.clock)])
    case Respond(k, order) =>
      var inv := sv.invocations[k];
      var status := AggregateInOrder(order, inv.out, Pass);
      var response := HealthResponse(status, sv.engine.serviceId, sv.engine.description, inv.out);
      sv.(invocations := sv.invocations[k := inv.(response := Some(response))])
  }

  function Idle(engine: EngineState): Server {
    Server(engine, map[], [])
  }

  /** The server after a schedule; `None` when it takes a step that is not enabled. */
  ghost function Serve(engine: EngineState, steps: seq<ServerStep>): Option<Server> {
    if steps == [] then Some(Idle(engine))
    else
      var last := |steps| - 1;
      match Serve(engine, steps[..last])
      case None => None
      case Some(sv) => if ServerEnabled(sv, steps[last]) then Some(ServerApply(sv, steps[last])) else None
  }

  /** The steps invocation `k` takes itself. */
  function Own(steps: seq<ServerStep>, k: nat): seq<Step> {
    if steps == [] then []
    else
      var last := steps[|steps| - 1];
      Own(steps[..|steps| - 1], k) + if last.Advance? && last.k == k then [last.step] else []
  }

  /** The calls accepted, in order. */
  function Accepts(steps: seq<ServerStep>): (r: seq<ServerStep>)
    ensures forall k :: 0 <= k < |r| ==> r[k].Accept?
  {
    if steps == [] then []
    else
      var last := steps[|steps| - 1];
      Accepts(steps[..|steps| - 1]) + if last.Accept? then [last] else []
  }

  // ----- isolation

  /** Two invocations never share cells. */
  ghost predicate Separate(sv: Server) {
    && (forall k :: 0 <= k < |sv.invocations| ==> sv.invocations[k].addr in sv.heap)
    && (forall j, k :: 0 <= j < k < |sv.invocations| ==> sv.invocations[j].addr != sv.invocations[k].addr)
  }

  /** Invocation `k` is exactly where its own steps alone would have brought it. */
  ghost predicate AsIfAlone(sv: Server, steps: seq<ServerStep>, k: nat)
    requires k < |sv.invocations|
  {
    var inv := sv.invocations[k];
    && inv.addr in sv.heap
    && inv.probe.WellFormed()
    && Exec(inv.probe, Own(steps, k)) == Some(View(sv.heap, inv))
  }

  /** What a finished invocation has returned. */
  ghost predicate Answered(engine: EngineState, inv: Invocation) {
    inv.response.Some? ==>
      && inv.pc.Returned?
      && inv.response.value == HealthResponse(Overall(inv.out), engine.serviceId, engine.description, inv.out)
  }

  ghost predicate ServerInv(engine: EngineState, sv: Server, steps: seq<ServerStep>) {
    && sv.engine == engine
    && Separate(sv)
    && (forall k :: 0 <= k < |sv.invocations| ==>
          && sv.invocations[k].probe.checks == SliceFor(engine.slices, sv.invocations[k].endpoint)
          && AsIfAlone(sv, steps, k)
          && Answered(engine, sv.invocations[k]))
    && (forall k :: k >= |sv.invocations| ==> Own(steps, k) == [])
  }

  lemma OwnSnoc(steps: seq<ServerStep>, step: ServerStep, k: nat)
    ensures Own(steps + [step], k) == Own(steps, k) + if step.Advance? && step.k == k then [step.step] else []
  {
    assert (steps + [step])[..|steps|] == steps;
  }

  /** An invocation whose view is untouched stays where its own steps put it. */
  lemma {:induction false} StaysAlone(sv: Server, sv': Server, steps: seq<ServerStep>, step: ServerStep, k: nat)
    requires k < |sv.invocations| && k < |sv'.invocations| && AsIfAlone(sv, steps, k)
    requires sv'.invocations[k].probe == sv.invocations[k].probe && sv'.invocations[k].addr in sv'.heap
    requires View(sv'.heap, sv'.invocations[k]) == View(sv.heap, sv.invocations[k])
    requires !(step.Advance? && step.k == k)
    ensures AsIfAlone(sv', steps + [step], k)
  {
    OwnSnoc(steps, step, k);
    assert Own(steps + [step], k) == Own(steps, k);
  }

  lemma {:induction false} AcceptAlone(engine: EngineState, sv: Server, steps: seq<ServerStep>,
                                       step: ServerStep, k: nat)
    requires ServerInv(engine, sv, steps) && ServerEnabled(sv, step) && step.Accept?
    requires k <= |sv.invocations|
    ensures AsIfAlone(ServerApply(sv, step), steps + [step], k)
  {
    var sv' := ServerApply(sv, step);
    if k < |sv.invocations| {
      assert AsIfAlone(sv, steps, k);
      StaysAlone(sv, sv', steps, step, k);
    } else {
      OwnSnoc(steps, step, k);
      assert Own(steps + [step], k) == [];
    }
  }

  lemma {:induction false} AcceptSeparate(sv: Server, step: ServerStep)
    requires Separate(sv) && ServerEnabled(sv, step) && step.Accept?
    ensures Separate(ServerApply(sv, step))
  {
  }

  lemma {:induction false} AcceptInv(engine: EngineState, sv: Server, steps: seq<ServerStep>, step: ServerStep)
    requires ServerInv(engine, sv, steps) && ServerEnabled(sv, step) && step.Accept?
    ensures ServerInv(engine, ServerApply(sv, step), steps + [step])
  {
    AcceptSeparate(sv, step);
    forall k | 0 <= k <= |sv.invocations| ensures AsIfAlone(ServerApply(sv, step), steps + [step], k) {
      AcceptAlone(engine, sv, steps, step, k);
    }
    forall k: nat | k > |sv.invocations| ensures Own(steps + [step], k) == [] {
      OwnSnoc(steps, step, k);
    }
  }

  lemma {:induction false} AdvanceAlone(engine: EngineState, sv: Server, steps: seq<ServerStep>,
                                        step: ServerStep, k: nat)
    requires ServerInv(engine, sv, steps) && ServerEnabled(sv, step) && step.Advance?
    requires k < |sv.invocations|
    ensures AsIfAlone(ServerApply(sv, step), steps + [step], k)
    ensures Answered(engine, ServerApply(sv, step).invocations[k])
  {
    var sv' := ServerApply(sv, step);
    var inv := sv.invocations[k];
    assert AsIfAlone(sv, steps, k) && Answered(engine, inv);
    if k == step.k {
      OwnSnoc(steps, step, k);
      ExecSnoc(inv.probe, Own(steps, k), step.step);
      ReturnedIsFinal(inv.probe, Own(steps, k), step.step);
      assert View(sv'.heap, sv'.invocations[k]) == Apply(inv.probe, View(sv.heap, inv), step.step);
    } else {
      StaysAlone(sv, sv', steps, step, k);
    }
  }

  lemma {:induction false} AdvanceInv(engine: EngineState, sv: Server, steps: seq<ServerStep>, step: ServerStep)
    requires ServerInv(engine, sv, steps) && ServerEnabled(sv, step) && step.Advance?
    ensures ServerInv(engine, ServerApply(sv, step), steps + [step])
  {
    forall k | 0 <= k < |sv.invocations|
      ensures AsIfAlone(ServerApply(sv, step), steps + [step], k)
      ensures Answered(engine, ServerApply(sv, step).invocations[k])
    {
      AdvanceAlone(engine, sv, steps, step, k);
    }
    forall k: nat | k >= |sv.invocations| ensures Own(steps + [step], k) == [] {
      OwnSnoc(steps, step, k);
    }
  }

  /** A runner that has returned takes no further step. */
  lemma ReturnedIsFinal(p: Probe, steps: seq<Step>, step: Step)
    requires p.WellFormed() && Exec(p, steps).Some? && Enabled(p, Exec(p, steps).value, step)
    ensures !Exec(p, steps).value.pc.Returned?
  {
    JoinIsSafe(p, steps);
  }

  lemma {:induction false} RespondInv(engine: EngineState, sv: Server, steps: seq<ServerStep>, step: ServerStep)
    requires ServerInv(engine, sv, steps) && ServerEnabled(sv, step) && step.Respond?
    ensures ServerInv(engine, ServerApply(sv, step), steps + [step])
  {
    var sv' := ServerApply(sv, step);
    AggregationOrderFree(step.order, sv.invocations[step.k].out);
    forall k | 0 <= k < |sv'.invocations| ensures AsIfAlone(sv', steps + [step], k) {
      assert AsIfAlone(sv, steps, k);
      StaysAlone(sv, sv', steps, step, k);
    }
    forall k: nat | k >= |sv'.invocations| ensures Own(steps + [step], k) == [] {
      OwnSnoc(steps, step, k);
    }
  }

  lemma {:induction false} ServedInv(engine: EngineState, steps: seq<ServerStep>)
    requires Serve(engine, steps).Some?
    ensures ServerInv(engine, Serve(engine, steps).value, steps)
  {
    if steps == [] {
    } else {
      var last := |steps| - 1;
      ServedInv(engine, steps[..last]);
      var sv := Serve(engine, steps[..last]).value;
      assert steps[..last] + [steps[last]] == steps;
      match steps[last]
      case Accept(_, _, _) => AcceptInv(engine, sv, steps[..last], steps[last]);
      case Advance(_, _) => AdvanceInv(engine, sv, steps[..last], steps[last]);
      case Respond(_, _) => RespondInv(engine, sv, steps[..last], steps[last]);
    }
  }

  /** Probes do not disturb each other: under any interleaving the engine's slices stay what they
      were, and each invocation is where its own steps alone would have taken it. */
  lemma {:induction false} Isolation(engine: EngineState, steps: seq<ServerStep>, k: nat)
    requires Serve(engine, steps).Some? && k < |Serve(engine, steps).value.invocations|
    ensures Serve(engine, steps).value.engine == engine
    ensures AsIfAlone(Serve(engine, steps).value, steps, k)
  {
    ServedInv(engine, steps);
  }

  /** The `k`-th accepted call has been answered. */
  ghost predicate HasAnswered(engine: EngineState, steps: seq<ServerStep>, k: nat) {
    && Serve(engine, steps).Some? && k < |Accepts(steps)| && k < |Serve(engine, steps).value.invocations|
    && Serve(engine, steps).value.invocations[k].response.Some?
  }

  // ----- what each invocation is an invocation of

  /** Invocation `k` was entered by `call`, and runs with what that call brought. */
  predicate EnteredBy(inv: Invocation, call: ServerStep) {
    call.Accept? && inv.endpoint == call.endpoint && inv.probe.outcomes == call.outcomes && inv.addr == call.addr
  }

  ghost predicate EnteredInOrder(invs: seq<Invocation>, accepts: seq<ServerStep>) {
    |invs| == |accepts| && forall k :: 0 <= k < |invs| ==> EnteredBy(invs[k], accepts[k])
  }

  lemma {:induction false} StepEnters(sv: Server, step: ServerStep, accepts: seq<ServerStep>)
    requires ServerEnabled(sv, step) && EnteredInOrder(sv.invocations, accepts)
    ensures EnteredInOrder(ServerApply(sv, step).invocations, accepts + if step.Accept? then [step] else [])
  {
  }

  /** There is one invocation per accepted call, in the order of the calls, each with its call's
      endpoint and its call's outcomes, whatever happened in between. */
  lemma {:induction false} InvocationsAreTheCalls(engine: EngineState, steps: seq<ServerStep>)
    requires Serve(engine, steps).Some?
    ensures EnteredInOrder(Serve(engine, steps).value.invocations, Accepts(steps))
  {
    if steps == [] {
    } else {
      var last := |steps| - 1;
      InvocationsAreTheCalls(engine, steps[..last]);
      StepEnters(Serve(engine, steps[..last]).value, steps[last], Accepts(steps[..last]));
    }
  }

  /** The probe that the `k`-th accepted call asks for: its endpoint's slice, with the outcomes it brought. */
  function CalledProbe(engine: EngineState, steps: seq<ServerStep>, k: nat): Probe
    requires k < |Accepts(steps)|
  {
    Probe(SliceFor(engine.slices, Accepts(steps)[k].endpoint), Accepts(steps)[k].outcomes)
  }

  lemma {:induction false} InvocationRunsTheCall(engine: EngineState, steps: seq<ServerStep>, k: nat)
    requires Serve(engine, steps).Some? && k < |Accepts(steps)|
    ensures k < |Serve(engine, steps).value.invocations|
    ensures Serve(engine, steps).value.invocations[k].probe == CalledProbe(engine, steps, k)
    ensures CalledProbe(engine, steps, k).WellFormed()
  {
    InvocationsAreTheCalls(engine, steps);
    ServedInv(engine, steps);
    var inv := Serve(engine, steps).value.invocations[k];
    assert AsIfAlone(Serve(engine, steps).value, steps, k);
    assert EnteredBy(inv, Accepts(steps)[k]);
  }

  /** The response of a probe of `engine`, up to timestamps. */
  ghost function ExpectedResponse(engine: EngineState, p: Probe): HealthResponse
    requires p.WellFormed()
  {
    HealthResponse(Overall(Expected(p)), engine.serviceId, engine.description, Expected(p))
  }

  /** Whatever the interleaving, every goroutine schedule and map iteration order, the `k`-th accepted call is
      answered with the sequential response for the slice of its endpoint and the outcomes it brought. */
  lemma {:induction false} ResponsesAreSequential(engine: EngineState, steps: seq<ServerStep>, k: nat)
    requires HasAnswered(engine, steps, k)
    ensures var inv := Serve(engine, steps).value.invocations[k];
            var p := Probe(SliceFor(engine.slices, Accepts(steps)[k].endpoint), Accepts(steps)[k].outcomes);
            && p.WellFormed() && |inv.clock.tasks| == |p.checks|
            && inv.response.value == HealthResponse(Overall(Expected(p)), engine.serviceId, engine.description,
                                                    SequentialMap(p, inv.clock))
            && UntimedResponse(inv.response.value) == ExpectedResponse(engine, p)
  {
    InvocationRunsTheCall(engine, steps, k);
    ServedInv(engine, steps);
    var sv := Serve(engine, steps).value;
    var inv := sv.invocations[k];
    assert AsIfAlone(sv, steps, k) && Answered(engine, inv);
    RefinesSequential(inv.probe, Own(steps, k));
    SequentialUntimed(inv.probe, inv.clock);
  }

  /** The clock readings in an answer are the ones that invocation took itself: the heartbeat's in its first
      step, each check's in the step that wrote that check's slot. */
  lemma {:induction false} ReadingsAreOwn(engine: EngineState, steps: seq<ServerStep>, k: nat)
    requires HasAnswered(engine, steps, k)
    ensures var clock := Serve(engine, steps).value.invocations[k].clock;
            && Own(steps, k) != [] && Own(steps, k)[0] == Start(clock.heartbeat)
            && forall i :: 0 <= i < |clock.tasks| ==> Write(i, clock.tasks[i]) in Own(steps, k)
  {
    ServedInv(engine, steps);
    var sv := Serve(engine, steps).value;
    var inv := sv.invocations[k];
    assert AsIfAlone(sv, steps, k) && Answered(engine, inv);
    ReachableInv(inv.probe, Own(steps, k));
    HeartbeatReadFirst(inv.probe, Own(steps, k));
    forall i | 0 <= i < |inv.clock.tasks| ensures Write(i, inv.clock.tasks[i]) in Own(steps, k) {
      ReadWhenWritten(inv.probe, Own(steps, k), i);
    }
  }

  // ----- no probe is blocked by the others

  lemma ServeSnoc(engine: EngineState, steps: seq<ServerStep>, step: ServerStep)
    requires Serve(engine, steps).Some? && ServerEnabled(Serve(engine, steps).value, step)
    ensures Serve(engine, steps + [step]) == Some(ServerApply(Serve(engine, steps).value, step))
  {
    assert (steps + [step])[..|steps|] == steps;
  }

  /** Every map can be ranged over. */
  lemma {:induction false} SomeOrder(keys: set<string>) returns (order: seq<string>)
    ensures forall name :: name in order <==> name in keys
    ensures forall i, j :: 0 <= i < j < |order| ==> order[i] != order[j]
    decreases |keys|
  {
    if keys == {} {
      order := [];
    } else {
      var name :| name in keys;
      var rest := SomeOrder(keys - {name});
      order := [name] + rest;
      assert forall i :: 0 < i < |order| ==> order[i] in rest;
    }
  }

  /** While an invocation has not returned its map, it has a step of its own to take. */
  lemma AdvanceOne(engine: EngineState, steps: seq<ServerStep>, k: nat) returns (step: Step)
    requires Serve(engine, steps).Some? && k < |Serve(engine, steps).value.invocations|
    requires !Serve(engine, steps).value.invocations[k].pc.Returned?
    ensures var p := Serve(engine, steps).value.invocations[k].probe;
            var r := Serve(engine, steps + [Advance(k, step)]);
            && r.Some? && k < |r.value.invocations| && r.value.invocations[k].probe == p
            && |Own(steps + [Advance(k, step)], k)| == |Own(steps, k)| + 1 <= TotalWork(|p.checks|)
  {
    ServedInv(engine, steps);
    var inv := Serve(engine, steps).value.invocations[k];
    assert AsIfAlone(Serve(engine, steps).value, steps, k);
    step := Progress(inv.probe, Own(steps, k));
    ServeSnoc(engine, steps, Advance(k, step));
    OwnSnoc(steps, Advance(k, step), k);
    ExecSnoc(inv.probe, Own(steps, k), step);
    WorkConserved(inv.probe, Own(steps, k) + [step]);
  }

  /** An invocation that has returned its map can aggregate it. */
  lemma RespondNow(engine: EngineState, steps: seq<ServerStep>, k: nat) returns (order: seq<string>)
    requires Serve(engine, steps).Some? && k < |Serve(engine, steps).value.invocations|
    requires Serve(engine, steps).value.invocations[k].pc.Returned?
    requires Serve(engine, steps).value.invocations[k].response.None?
    ensures var r := Serve(engine, steps + [Respond(k, order)]);
            r.Some? && k < |r.value.invocations| && r.value.invocations[k].response.Some?
  {
    order := SomeOrder(Serve(engine, steps).value.invocations[k].out.Keys);
    ServeSnoc(engine, steps, Respond(k, order));
  }

  /** Every step from position `n` on is one of invocation `k`. */
  predicate OnlyBy(steps: seq<ServerStep>, n: nat, k: nat) {
    forall m :: n <= m < |steps| ==> !steps[m].Accept? && steps[m].k == k
  }

  lemma {:induction false} FreshAddress(taken: set<nat>) returns (addr: nat)
    ensures forall other :: other in taken ==> other < addr
    decreases |taken|
  {
    if taken == {} {
      addr := 0;
    } else {
      var some :| some in taken;
      var rest := FreshAddress(taken - {some});
      addr := if some < rest then rest else some + 1;
      forall other | other in taken ensures other < addr {
        assert other == some || other in taken - {some};
      }
    }
  }

  /** A call on any endpoint can be accepted at any time, whatever else is in flight. */
  lemma {:induction false} CanAlwaysAccept(engine: EngineState, steps: seq<ServerStep>, e: Endpoint,
                                           outcomes: seq<seq<Result>>)
    returns (all: seq<ServerStep>)
    requires Serve(engine, steps).Some? && |outcomes| == |SliceFor(engine.slices, e)|
    ensures Serve(engine, all).Some? && |all| == |steps| + 1 && all[..|steps|] == steps
    ensures Accepts(all) == Accepts(steps) + [all[|steps|]]
    ensures all[|steps|].endpoint == e && all[|steps|].outcomes == outcomes
  {
    Isolated(engine, steps);
    var addr := FreshAddress(Serve(engine, steps).value.heap.Keys);
    ServeSnoc(engine, steps, Accept(e, outcomes, addr));
    all := steps + [Accept(e, outcomes, addr)];
    assert all[..|steps|] == steps;
  }

  lemma Isolated(engine: EngineState, steps: seq<ServerStep>)
    requires Serve(engine, steps).Some?
    ensures Serve(engine, steps).value.engine == engine
  {
    ServedInv(engine, steps);
  }

  /** An accepted invocation can be driven to its answer by its own steps alone, from any point of
      any interleaving: no invocation waits for another. */
  lemma {:induction false} CanAlwaysAnswer(engine: EngineState, steps: seq<ServerStep>, k: nat)
    returns (all: seq<ServerStep>)
    requires Serve(engine, steps).Some? && k < |Serve(engine, steps).value.invocations|
    ensures steps <= all && HasAnswered(engine, all, k) && OnlyBy(all, |steps|, k)
    decreases TotalWork(|Serve(engine, steps).value.invocations[k].probe.checks|) - |Own(steps, k)|
  {
    InvocationsAreTheCalls(engine, steps);
    if HasAnswered(engine, steps, k) {
      all := steps;
    } else if Serve(engine, steps).value.invocations[k].pc.Returned? {
      var order := RespondNow(engine, steps, k);
      all := steps + [Respond(k, order)];
      InvocationsAreTheCalls(engine, all);
    } else {
      var step := AdvanceOne(engine, steps, k);
      all := CanAlwaysAnswer(engine, steps + [Advance(k, step)], k);
      assert all[|steps|] == Advance(k, step);
    }
  }

  // ----- every schedule is bounded by the work it accepted

  /** The steps an invocation can ever cause: its acceptance, its runner's, and its answer. */
  function Budget(inv: Invocation): nat {
    TotalWork(|inv.probe.checks|) + 2
  }

  /** The steps an invocation has left. */
  function Left(inv: Invocation): int {
    SpawnerWork(inv.probe, inv.pc) + Sum(inv.tasks, TaskWork) + if inv.response.None? then 1 else 0
  }

  /** The steps an invocation has caused so far. */
  function Spent(inv: Invocation): int {
    Budget(inv) - Left(inv)
  }

  function TotalSpent(invs: seq<Invocation>): int {
    if invs == [] then 0 else TotalSpent(invs[..|invs| - 1]) + Spent(invs[|invs| - 1])
  }

  function TotalBudget(invs: seq<Invocation>): nat {
    if invs == [] then 0 else TotalBudget(invs[..|invs| - 1]) + Budget(invs[|invs| - 1])
  }

  lemma {:induction false} SpentUpdate(invs: seq<Invocation>, k: nat, inv: Invocation)
    requires k < |invs|
    ensures TotalSpent(invs[k := inv]) == TotalSpent(invs) - Spent(invs[k]) + Spent(inv)
  {
    var last := |invs| - 1;
    if k == last {
      assert invs[k := inv][..last] == invs[..last];
    } else {
      assert invs[k := inv][..last] == invs[..last][k := inv];
      SpentUpdate(invs[..last], k, inv);
    }
  }

  lemma {:induction false} AcceptSpends(sv: Server, step: ServerStep)
    requires ServerEnabled(sv, step) && step.Accept?
    ensures TotalSpent(ServerApply(sv, step).invocations) == TotalSpent(sv.invocations) + 1
  {
    var invs := ServerApply(sv, step).invocations;
    var inv := invs[|sv.invocations|];
    assert invs[..|invs| - 1] == sv.invocations;
    SumConstant(Init(inv.probe).tasks, TaskWork, 3);
    assert Left(inv) == TotalWork(|inv.probe.checks|) + 1;
  }

  lemma {:induction false} AdvanceSpends(engine: EngineState, sv: Server, steps: seq<ServerStep>, step: ServerStep)
    requires ServerInv(engine, sv, steps) && ServerEnabled(sv, step) && step.Advance?
    ensures TotalSpent(ServerApply(sv, step).invocations) == TotalSpent(sv.invocations) + 1
  {
    var inv := sv.invocations[step.k];
    assert AsIfAlone(sv, steps, step.k);
    ReachableInv(inv.probe, Own(steps, step.k));
    StepSpendsWork(inv.probe, View(sv.heap, inv), step.step);
    var inv' := ServerApply(sv, step).invocations[step.k];
    assert Spent(inv') == Spent(inv) + 1;
    SpentUpdate(sv.invocations, step.k, inv');
  }

  lemma {:induction false} RespondSpends(sv: Server, step: ServerStep)
    requires ServerEnabled(sv, step) && step.Respond?
    ensures TotalSpent(ServerApply(sv, step).invocations) == TotalSpent(sv.invocations) + 1
  {
    var inv := ServerApply(sv, step).invocations[step.k];
    assert Spent(inv) == Spent(sv.invocations[step.k]) + 1;
    SpentUpdate(sv.invocations, step.k, inv);
  }

  /** Every step of every interleaving is spent on some accepted invocation. */
  lemma {:induction false} StepsAreSpent(engine: EngineState, steps: seq<ServerStep>)
    requires Serve(engine, steps).Some?
    ensures |steps| == TotalSpent(Serve(engine, steps).value.invocations)
  {
    if steps == [] {
    } else {
      var last := |steps| - 1;
      StepsAreSpent(engine, steps[..last]);
      ServedInv(engine, steps[..last]);
      var sv := Serve(engine, steps[..last]).value;
      match steps[last]
      case Accept(_, _, _) => AcceptSpends(sv, steps[last]);
      case Advance(_, _) => AdvanceSpends(engine, sv, steps[..last], steps[last]);
      case Respond(_, _) => RespondSpends(sv, steps[last]);
    }
  }

  /** An invocation never exceeds its budget, and has used it up exactly when it has answered. */
  ghost predicate WithinBudget(inv: Invocation) {
    Spent(inv) <= Budget(inv) && (Spent(inv) == Budget(inv) <==> inv.response.Some?)
  }

  lemma {:induction false} InvocationWithinBudget(engine: EngineState, sv: Server, steps: seq<ServerStep>, k: nat)
    requires ServerInv(engine, sv, steps) && k < |sv.invocations|
    ensures WithinBudget(sv.invocations[k])
  {
    var inv := sv.invocations[k];
    assert AsIfAlone(sv, steps, k) && Answered(engine, inv);
    ReachableInv(inv.probe, Own(steps, k));
    NoWorkLeft(inv.probe, View(sv.heap, inv));
  }

  lemma {:induction false} BudgetsAddUp(invs: seq<Invocation>)
    requires forall k :: 0 <= k < |invs| ==> WithinBudget(invs[k])
    ensures TotalSpent(invs) <= TotalBudget(invs)
    ensures TotalSpent(invs) == TotalBudget(invs) <==> forall k :: 0 <= k < |invs| ==> invs[k].response.Some?
  {
    if invs == [] {
    } else {
      var last := |invs| - 1;
      BudgetsAddUp(invs[..last]);
      assert WithinBudget(invs[last]);
      assert forall k :: 0 <= k < last ==> invs[..last][k] == invs[k];
    }
  }

  ghost predicate AllAnswered(sv: Server) {
    forall k :: 0 <= k < |sv.invocations| ==> sv.invocations[k].response.Some?
  }

  /** No interleaving is longer than the work it accepted, and it is that long exactly when it has
      answered every invocation. */
  lemma {:induction false} ServingTerminates(engine: EngineState, steps: seq<ServerStep>)
    requires Serve(engine, steps).Some?
    ensures |steps| <= TotalBudget(Serve(engine, steps).value.invocations)
    ensures |steps| == TotalBudget(Serve(engine, steps).value.invocations) <==> AllAnswered(Serve(engine, steps).value)
  {
    var sv := Serve(engine, steps).value;
    StepsAreSpent(engine, steps);
    ServedInv(engine, steps);
    forall k | 0 <= k < |sv.invocations| ensures WithinBudget(sv.invocations[k]) {
      InvocationWithinBudget(engine, sv, steps, k);
    }
    BudgetsAddUp(sv.invocations);
  }

  /** A server that only new calls could move has answered every invocation, and conversely: every
      maximal interleaving answers all it has accepted. */
  lemma {:induction false} MaximalAnswersAll(engine: EngineState, steps: seq<ServerStep>)
    requires Serve(engine, steps).Some?
    ensures (forall step :: ServerEnabled(Serve(engine, steps).value, step) ==> step.Accept?)
       <==> AllAnswered(Serve(engine, steps).value)
  {
    var sv := Serve(engine, steps).value;
    if k :| 0 <= k < |sv.invocations| && sv.invocations[k].response.None? {
      if sv.invocations[k].pc.Returned? {
        var order := RespondNow(engine, steps, k);
      } else {
        var step := AdvanceOne(engine, steps, k);
      }
    } else {
      forall step | ServerEnabled(sv, step) ensures step.Accept? {
        AnsweredIsFinal(engine, steps, step);
      }
    }
  }

  lemma {:induction false} AnsweredIsFinal(engine: EngineState, steps: seq<ServerStep>, step: ServerStep)
    requires Serve(engine, steps).Some? && AllAnswered(Serve(engine, steps).value)
    requires ServerEnabled(Serve(engine, steps).value, step)
    ensures step.Accept?
  {
    var sv := Serve(engine, steps).value;
    ServedInv(engine, steps);
    if step.Advance? {
      var inv := sv.invocations[step.k];
      assert AsIfAlone(sv, steps, step.k) && Answered(engine, inv);
      ReturnedIsFinal(inv.probe, Own(steps, step.k), step.step);
    }
  }
}
