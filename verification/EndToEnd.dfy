/**
 What a client of a served engine can rely on, from the Register calls to the
 status code on the wire, under every interleaving of probes, every schedule of
 goroutines and every map iteration order.
 */
module EndToEnd {
  import opened HealthTypes
  import opened HttpStatus
  import opened Conversion
  import opened Grouping
  import opened Aggregation
  import opened Sequential
  import opened Registration
  import opened Serving
  import ForkJoin

  /** The endpoint the `k`-th accepted call asked for. */
  function EndpointOf(steps: seq<ServerStep>, k: nat): Endpoint
    requires k < |Accepts(steps)|
  {
    Accepts(steps)[k].endpoint
  }

  ghost function ResponseOf(engine: EngineState, steps: seq<ServerStep>, k: nat): HealthResponse
    requires HasAnswered(engine, steps, k)
  {
    Serve(engine, steps).value.invocations[k].response.value
  }

  /** The clock readings taken on the way to that response. */
  ghost function ClockOf(engine: EngineState, steps: seq<ServerStep>, k: nat): Readings
    requires HasAnswered(engine, steps, k)
  {
    Serve(engine, steps).value.invocations[k].clock
  }

  /** The `k`-th call accepted by some served run of an engine registered by `calls` has been answered, and the
      outcomes it brought are those of `outcomes` in the scope of its endpoint: `outcomes[i]` is
      what the `Run` registered by call `i` returned to it. */
  ghost predicate Answer(engine: EngineState, calls: seq<Call>, steps: seq<ServerStep>, k: nat,
                         outcomes: seq<seq<Result>>) {
    && engine.slices == After(calls)
    && |outcomes| == |calls|
    && HasAnswered(engine, steps, k)
    && Accepts(steps)[k].outcomes == ProbeOf(calls, outcomes, EndpointOf(steps, k)).outcomes
  }

  /** Outcomes of the checks of an endpoint are outcomes of the registered checks, restricted to it. */
  lemma {:induction false} OutcomesAlign(calls: seq<Call>, e: Endpoint, slice: seq<seq<Result>>)
    returns (outcomes: seq<seq<Result>>)
    requires |slice| == |Scoped(calls, e)|
    ensures |outcomes| == |calls| && ProbeOf(calls, outcomes, e).outcomes == slice
  {
    if calls == [] {
      outcomes := [];
    } else {
      var n, m := |calls| - 1, |slice| - 1;
      if Admits(calls[n], e) {
        var front := OutcomesAlign(calls[..n], e, slice[..m]);
        outcomes := front + [slice[m]];
        assert outcomes[..n] == front;
      } else {
        var front := OutcomesAlign(calls[..n], e, slice);
        outcomes := front + [[]];
        assert outcomes[..n] == front;
      }
    }
  }

  /** Every response of a served engine is an `Answer`, for some outcomes of the registered checks. */
  lemma EveryResponseIsAnAnswer(engine: EngineState, calls: seq<Call>, steps: seq<ServerStep>, k: nat)
    returns (outcomes: seq<seq<Result>>)
    requires engine.slices == After(calls) && HasAnswered(engine, steps, k)
    ensures Answer(engine, calls, steps, k, outcomes)
  {
    InvocationRunsTheCall(engine, steps, k);
    Cascade(calls, EndpointOf(steps, k));
    outcomes := OutcomesAlign(calls, EndpointOf(steps, k), Accepts(steps)[k].outcomes);
  }

  lemma {:induction false} AnswerRunsTheCall(engine: EngineState, calls: seq<Call>, steps: seq<ServerStep>, k: nat,
                                             outcomes: seq<seq<Result>>)
    requires Answer(engine, calls, steps, k, outcomes)
    ensures CalledProbe(engine, steps, k) == ProbeOf(calls, outcomes, EndpointOf(steps, k))
  {
    ProbeRunsTheSlice(calls, outcomes, EndpointOf(steps, k));
  }

  /** An answer is the sequential response of its endpoint's probe, up to timestamps. */
  lemma {:induction false} AnswerIsSequential(engine: EngineState, calls: seq<Call>, steps: seq<ServerStep>, k: nat,
                                              outcomes: seq<seq<Result>>)
    requires Answer(engine, calls, steps, k, outcomes)
    ensures UntimedResponse(ResponseOf(engine, steps, k))
         == ExpectedResponse(engine, ProbeOf(calls, outcomes, EndpointOf(steps, k)))
    ensures ResponseOf(engine, steps, k).status
         == Overall(Expected(ProbeOf(calls, outcomes, EndpointOf(steps, k))))
  {
    ResponsesAreSequential(engine, steps, k);
    AnswerRunsTheCall(engine, calls, steps, k, outcomes);
  }

  // ----- the 503 theorem

  /** Some check in the endpoint's scope has no `Run`, or its `Run` returned a failure. */
  ghost predicate FailedInScope(calls: seq<Call>, outcomes: seq<seq<Result>>, e: Endpoint)
    requires |calls| == |outcomes|
  {
    exists i :: 0 <= i < |calls| && calls[i].check.name != SYSTEM_TIME && InScope(calls[i].scope, e)
      && (calls[i].check.run.NilRun? || exists j :: 0 <= j < |outcomes[i]| && outcomes[i][j].status == Fail)
  }

  /** Some check in the endpoint's scope has a `Run`, which returned a warning. */
  ghost predicate WarnedInScope(calls: seq<Call>, outcomes: seq<seq<Result>>, e: Endpoint)
    requires |calls| == |outcomes|
  {
    exists i :: 0 <= i < |calls| && calls[i].check.name != SYSTEM_TIME && InScope(calls[i].scope, e)
      && !calls[i].check.run.NilRun? && exists j :: 0 <= j < |outcomes[i]| && outcomes[i][j].status == Warn
  }

  lemma FailedMeansObserved(calls: seq<Call>, outcomes: seq<seq<Result>>, e: Endpoint)
    requires |calls| == |outcomes|
    ensures FailedInScope(calls, outcomes, e) <==> ObservedInScope(calls, outcomes, e, Fail)
  {
    forall i | 0 <= i < |calls|
      ensures Observes(calls[i].check, outcomes[i], Fail) ==
              (calls[i].check.run.NilRun? || exists j :: 0 <= j < |outcomes[i]| && outcomes[i][j].status == Fail)
    {
    }
  }

  lemma WarnedMeansObserved(calls: seq<Call>, outcomes: seq<seq<Result>>, e: Endpoint)
    requires |calls| == |outcomes|
    ensures WarnedInScope(calls, outcomes, e) <==> ObservedInScope(calls, outcomes, e, Warn)
  {
    forall i | 0 <= i < |calls|
      ensures Observes(calls[i].check, outcomes[i], Warn) ==
              (!calls[i].check.run.NilRun? && exists j :: 0 <= j < |outcomes[i]| && outcomes[i][j].status == Warn)
    {
    }
  }

  /** The status of a response, read off what the checks in the endpoint's scope returned. */
  lemma StatusIsTheWorstInScope(engine: EngineState, calls: seq<Call>, steps: seq<ServerStep>, k: nat,
                                outcomes: seq<seq<Result>>)
    requires Answer(engine, calls, steps, k, outcomes)
    ensures ResponseOf(engine, steps, k).status ==
            if FailedInScope(calls, outcomes, EndpointOf(steps, k)) then Fail
            else if WarnedInScope(calls, outcomes, EndpointOf(steps, k)) then Warn
            else Pass
  {
    AnswerIsSequential(engine, calls, steps, k, outcomes);
    StatusFromLog(calls, outcomes, EndpointOf(steps, k));
    FailedMeansObserved(calls, outcomes, EndpointOf(steps, k));
    WarnedMeansObserved(calls, outcomes, EndpointOf(steps, k));
  }

  /** When the response encodes, the code on the wire is 503 exactly when a check in the
      endpoint's scope failed or had no `Run`, and 200 otherwise. */
  lemma CodeIs503IffScopeFailed(engine: EngineState, calls: seq<Call>, steps: seq<ServerStep>, k: nat,
                                outcomes: seq<seq<Result>>)
    requires Answer(engine, calls, steps, k, outcomes)
    ensures WrittenCode(true, ResponseOf(engine, steps, k)) ==
            if FailedInScope(calls, outcomes, EndpointOf(steps, k)) then 503 else 200
  {
    StatusIsTheWorstInScope(engine, calls, steps, k, outcomes);
  }

  /** Some check of the slice has no `Run`, or its `Run` returned a failure. */
  ghost predicate FailedIn(slice: seq<Check>, outcomes: seq<seq<Result>>)
    requires |slice| == |outcomes|
  {
    exists i :: 0 <= i < |slice|
      && (slice[i].run.NilRun? || exists j :: 0 <= j < |outcomes[i]| && outcomes[i][j].status == Fail)
  }

  /** The same of any engine, however its slices came about, and of the outcomes the accepted call brought. */
  lemma CodeIs503IffCallFails(engine: EngineState, steps: seq<ServerStep>, k: nat)
    requires HasAnswered(engine, steps, k)
    ensures var a := Accepts(steps)[k];
            && |SliceFor(engine.slices, a.endpoint)| == |a.outcomes|
            && WrittenCode(true, ResponseOf(engine, steps, k)) ==
               if FailedIn(SliceFor(engine.slices, a.endpoint), a.outcomes) then 503 else 200
  {
    ResponsesAreSequential(engine, steps, k);
    var p := CalledProbe(engine, steps, k);
    StatusesAreObserved(p, Fail);
    forall i | 0 <= i < |p.checks|
      ensures Observes(p.checks[i], p.outcomes[i], Fail) ==
              (p.checks[i].run.NilRun? || exists j :: 0 <= j < |p.outcomes[i]| && p.outcomes[i][j].status == Fail)
    {
    }
  }

  /** Worsened observations or further registrations never turn a 503 into a 200. */
  lemma No503IsUndone(
    engine1: EngineState, calls1: seq<Call>, steps1: seq<ServerStep>, k1: nat, o1: seq<seq<Result>>,
    engine2: EngineState, calls2: seq<Call>, steps2: seq<ServerStep>, k2: nat, o2: seq<seq<Result>>)
    requires Answer(engine1, calls1, steps1, k1, o1) && Answer(engine2, calls2, steps2, k2, o2)
    requires EndpointOf(steps1, k1) == EndpointOf(steps2, k2)
    requires calls1 <= calls2 && Worsened(o1, o2[..|o1|])
    ensures Severity(ResponseOf(engine1, steps1, k1).status) <= Severity(ResponseOf(engine2, steps2, k2).status)
    ensures WrittenCode(true, ResponseOf(engine1, steps1, k1)) == 503 ==>
            WrittenCode(true, ResponseOf(engine2, steps2, k2)) == 503
  {
    var e := EndpointOf(steps1, k1);
    AnswerIsSequential(engine1, calls1, steps1, k1, o1);
    AnswerIsSequential(engine2, calls2, steps2, k2, o2);
    WorseNeverHelps(calls1, o1, o2[..|o1|], e);
    MoreNeverHelps(calls2, o2, |calls1|, e);
    assert calls2[..|calls1|] == calls1;
  }

  // ----- hyperproperties across runs and endpoints

  /** Outcomes outside an endpoint's scope do not influence its response, even when names
      collide across scopes: two answers that agree inside the scope are equal up to timestamps. */
  lemma NonInterference(engine: EngineState, calls: seq<Call>,
                        steps1: seq<ServerStep>, k1: nat, o1: seq<seq<Result>>,
                        steps2: seq<ServerStep>, k2: nat, o2: seq<seq<Result>>)
    requires Answer(engine, calls, steps1, k1, o1) && Answer(engine, calls, steps2, k2, o2)
    requires EndpointOf(steps1, k1) == EndpointOf(steps2, k2)
    requires forall i :: 0 <= i < |calls| && Admits(calls[i], EndpointOf(steps1, k1)) ==> o1[i] == o2[i]
    ensures UntimedResponse(ResponseOf(engine, steps1, k1)) == UntimedResponse(ResponseOf(engine, steps2, k2))
  {
    AnswerIsSequential(engine, calls, steps1, k1, o1);
    AnswerIsSequential(engine, calls, steps2, k2, o2);
    OnlyScopeMatters(calls, o1, o2, EndpointOf(steps1, k1));
  }

  /** With outcomes held fixed, a narrower endpoint's response is contained in a wider
      one's, key by key and in order, and is no worse. */
  lemma EndpointsNest(engine: EngineState, calls: seq<Call>, outcomes: seq<seq<Result>>,
                      steps1: seq<ServerStep>, k1: nat, steps2: seq<ServerStep>, k2: nat, key: string)
    requires Answer(engine, calls, steps1, k1, outcomes) && Answer(engine, calls, steps2, k2, outcomes)
    requires Within(EndpointOf(steps1, k1), EndpointOf(steps2, k2))
    ensures Subsequence(Lookup(UntimedResponse(ResponseOf(engine, steps1, k1)).checks, key),
                        Lookup(UntimedResponse(ResponseOf(engine, steps2, k2)).checks, key))
    ensures Severity(ResponseOf(engine, steps1, k1).status) <= Severity(ResponseOf(engine, steps2, k2).status)
  {
    AnswerIsSequential(engine, calls, steps1, k1, outcomes);
    AnswerIsSequential(engine, calls, steps2, k2, outcomes);
    Containment(calls, outcomes, EndpointOf(steps1, k1), EndpointOf(steps2, k2), key);
    SeverityGrowsOutward(calls, outcomes, EndpointOf(steps1, k1), EndpointOf(steps2, k2));
  }

  // ----- what is in every response

  /** In every response of every registered engine, the reserved key holds one entry: a passing component of type
      "system", stamped with the reading that invocation took in its first step, and nothing else. */
  lemma {:induction false} HeartbeatInEveryResponse(engine: EngineState, calls: seq<Call>, steps: seq<ServerStep>,
                                                    k: nat)
    requires engine.slices == After(calls) && HasAnswered(engine, steps, k)
    ensures var checks := ResponseOf(engine, steps, k).checks;
            && "system:time" in checks && |checks["system:time"]| == 1
            && var cs := checks["system:time"][0];
               && cs.status == Pass && cs.componentType == "system"
               && cs.time == ClockOf(engine, steps, k).heartbeat
               && Own(steps, k) != [] && Own(steps, k)[0] == ForkJoin.Start(cs.time)
               && cs.componentId == "" && cs.observedValue == None && cs.observedUnit == ""
               && cs.output == "" && cs.affectedEndpoints == [] && cs.links == map[]
  {
    ResponsesAreSequential(engine, steps, k);
    ReadingsAreOwn(engine, steps, k);
    Cascade(calls, EndpointOf(steps, k));
    var p, clock := CalledProbe(engine, steps, k), ClockOf(engine, steps, k);
    forall i | 0 <= i < |p.checks| ensures p.checks[i].name != SYSTEM_TIME {
      assert p.checks[i] in SliceFor(engine.slices, EndpointOf(steps, k));
    }
    HeartbeatFirst(p, clock);
  }

  /** Every entry of every response is suppressed when it passes, and is the entry of an observation of
      a check of that name, unless it is the heartbeat; suppression leaves the status alone. */
  lemma {:induction false} SuppressionInEveryResponse(engine: EngineState, steps: seq<ServerStep>, k: nat,
                                                      name: string, at: nat)
    requires HasAnswered(engine, steps, k)
    requires at < |Lookup(ResponseOf(engine, steps, k).checks, name)|
    ensures var p, clock := CalledProbe(engine, steps, k), ClockOf(engine, steps, k);
            var cs := Lookup(ResponseOf(engine, steps, k).checks, name)[at];
            && p.WellFormed() && |clock.tasks| == |p.checks|
            && Suppressed(cs)
            && ((name == SYSTEM_TIME && at == 0 && IsHeartbeat(cs, clock.heartbeat))
                || exists i, j :: ComesFrom(p, clock.tasks, name, cs, i, j))
            && ResponseOf(engine, steps, k).status
               == Overall(Grouped(Heartbeat(clock.heartbeat), p.checks, LeakySlots(p, clock.tasks)))
  {
    ResponsesAreSequential(engine, steps, k);
    var p, clock := CalledProbe(engine, steps, k), ClockOf(engine, steps, k);
    SuppressionHolds(p, clock, name, at);
    SuppressionKeepsStatus(p, clock);
    SequentialUntimed(p, clock);
  }

  /** The keys of a response, and how long the list under each is: besides the heartbeat's, exactly the names of
      checks that returned something or have no `Run`, each with one entry for every observation
      that the checks of that name returned, and one for each of them without a `Run`. */
  lemma {:induction false} ResponseByKey(engine: EngineState, steps: seq<ServerStep>, k: nat, name: string)
    requires HasAnswered(engine, steps, k)
    ensures var p, clock := CalledProbe(engine, steps, k), ClockOf(engine, steps, k);
            var checks := ResponseOf(engine, steps, k).checks;
            && p.WellFormed() && |clock.tasks| == |p.checks|
            && (name in checks <==>
                name == SYSTEM_TIME || exists i :: 0 <= i < |p.checks| && p.checks[i].name == name
                                         && (p.checks[i].run.NilRun? || p.outcomes[i] != []))
            && |Lookup(checks, name)| == HeartbeatAhead(name) + Ahead(p, name, |p.checks|)
            && Lookup(checks, name) == (if name == SYSTEM_TIME then [Heartbeat(clock.heartbeat)] else [])
                                       + EntriesFor(p.checks, SlotsOf(p, clock.tasks), name)
  {
    ResponsesAreSequential(engine, steps, k);
    var p, clock := CalledProbe(engine, steps, k), ClockOf(engine, steps, k);
    GroupedMeaning(Heartbeat(clock.heartbeat), p.checks, SlotsOf(p, clock.tasks), name);
    ListLength(p, clock, name);
    KeysOfProbe(p, clock, name);
  }

  /** The list under a key, entry by entry: the observations of the checks of that name, in registration order and
      then in the order returned, after the heartbeat if the key is its; each stamped with the
      reading taken when its check had returned. With the lengths, this is the whole response. */
  lemma {:induction false} EveryObservationIsReported(engine: EngineState, steps: seq<ServerStep>, k: nat,
                                                      i: nat, j: nat)
    requires HasAnswered(engine, steps, k)
    requires var p := CalledProbe(engine, steps, k);
             i < |p.checks| == |p.outcomes| && j < EntryCount(p.checks[i], p.outcomes[i])
    ensures var p, clock := CalledProbe(engine, steps, k), ClockOf(engine, steps, k);
            var list := Lookup(ResponseOf(engine, steps, k).checks, p.checks[i].name);
            var at := HeartbeatAhead(p.checks[i].name) + Ahead(p, p.checks[i].name, i) + j;
            && |clock.tasks| == |p.checks| && at < |list|
            && EntryOf(list[at], p.checks[i], p.outcomes[i], j, clock.tasks[i])
            && ForkJoin.Write(i, list[at].time) in Own(steps, k)
  {
    ResponsesAreSequential(engine, steps, k);
    ReadingsAreOwn(engine, steps, k);
    EntryInPlace(CalledProbe(engine, steps, k), ClockOf(engine, steps, k), i, j);
  }

  /** The check registered by a call in the scope of the endpoint is one of those the accepted call runs. */
  lemma {:induction false} RegisteredCheckIsCalled(
    engine: EngineState, calls: seq<Call>, steps: seq<ServerStep>, k: nat, outcomes: seq<seq<Result>>, i: nat)
    returns (place: nat)
    requires Answer(engine, calls, steps, k, outcomes)
    requires i < |calls| && Admits(calls[i], EndpointOf(steps, k))
    ensures var p := CalledProbe(engine, steps, k);
            && place < |p.checks| == |p.outcomes|
            && p.checks[place] == calls[i].check && p.outcomes[place] == outcomes[i]
  {
    AnswerRunsTheCall(engine, calls, steps, k, outcomes);
    ProbeHolds(calls, outcomes, EndpointOf(steps, k), i);
    place := |Scoped(calls[..i], EndpointOf(steps, k))|;
  }

  lemma {:induction false} SomeEntryReports(engine: EngineState, steps: seq<ServerStep>, k: nat, place: nat, j: nat)
    returns (at: nat)
    requires HasAnswered(engine, steps, k)
    requires var p := CalledProbe(engine, steps, k);
             place < |p.checks| == |p.outcomes| && j < EntryCount(p.checks[place], p.outcomes[place])
    ensures var p := CalledProbe(engine, steps, k);
            var list := Lookup(ResponseOf(engine, steps, k).checks, p.checks[place].name);
            at < |list| && EntryOf(list[at], p.checks[place], p.outcomes[place], j, list[at].time)
  {
    var p := CalledProbe(engine, steps, k);
    EveryObservationIsReported(engine, steps, k, place, j);
    at := HeartbeatAhead(p.checks[place].name) + Ahead(p, p.checks[place].name, place) + j;
  }

  /** From the Register calls to the response: whatever the `Run` registered by a call returned to an endpoint in
      its scope is in that endpoint's answer, under the name registered. */
  lemma {:induction false} RegisteredObservationIsReported(
    engine: EngineState, calls: seq<Call>, steps: seq<ServerStep>, k: nat, outcomes: seq<seq<Result>>, i: nat, j: nat)
    returns (at: nat)
    requires Answer(engine, calls, steps, k, outcomes)
    requires i < |calls| && calls[i].check.name != SYSTEM_TIME && InScope(calls[i].scope, EndpointOf(steps, k))
    requires j < EntryCount(calls[i].check, outcomes[i])
    ensures var list := Lookup(ResponseOf(engine, steps, k).checks, calls[i].check.name);
            at < |list| && EntryOf(list[at], calls[i].check, outcomes[i], j, list[at].time)
  {
    var place := RegisteredCheckIsCalled(engine, calls, steps, k, outcomes, i);
    at := SomeEntryReports(engine, steps, k, place, j);
  }

  /** The response holds one entry per observation returned, one for each check without a `Run`, and
      the heartbeat, no more and no fewer. */
  lemma {:induction false} NothingLostInResponse(engine: EngineState, steps: seq<ServerStep>, k: nat)
    requires HasAnswered(engine, steps, k)
    ensures var p, clock := CalledProbe(engine, steps, k), ClockOf(engine, steps, k);
            var entries := AllEntries(ResponseOf(engine, steps, k).checks);
            && p.WellFormed() && |clock.tasks| == |p.checks|
            && entries == multiset{Heartbeat(clock.heartbeat)} + SlotEntries(SlotsOf(p, clock.tasks))
            && |entries| == 1 + EntryTotal(p, |p.checks|)
  {
    ResponsesAreSequential(engine, steps, k);
    var p, clock := CalledProbe(engine, steps, k), ClockOf(engine, steps, k);
    var slots := SlotsOf(p, clock.tasks);
    GroupingConserves(Heartbeat(clock.heartbeat), p.checks, slots);
    SlotsAreSized(p, clock.tasks);
    TotalOfSlots(p, slots, |slots|);
    assert slots[..|slots|] == slots;
  }

  // ----- naming

  /** Registering the same checks under other names, even so that keys merge, changes neither the
      status nor the bag of entries of any response. */
  lemma {:induction false} NamingIsInvisible(
    engine1: EngineState, engine2: EngineState, calls: seq<Call>, f: string -> string, outcomes: seq<seq<Result>>,
    steps1: seq<ServerStep>, k1: nat, steps2: seq<ServerStep>, k2: nat)
    requires Answer(engine1, calls, steps1, k1, outcomes)
    requires Answer(engine2, RenamedCalls(calls, f), steps2, k2, outcomes)
    requires EndpointOf(steps1, k1) == EndpointOf(steps2, k2)
    requires KeepsAccepted(calls, f)
    ensures ResponseOf(engine1, steps1, k1).status == ResponseOf(engine2, steps2, k2).status
    ensures AllEntries(UntimedMap(ResponseOf(engine1, steps1, k1).checks))
         == AllEntries(UntimedMap(ResponseOf(engine2, steps2, k2).checks))
  {
    var e := EndpointOf(steps1, k1);
    var p := ProbeOf(calls, outcomes, e);
    AnswerIsSequential(engine1, calls, steps1, k1, outcomes);
    AnswerIsSequential(engine2, RenamedCalls(calls, f), steps2, k2, outcomes);
    ProbeOfRenamed(calls, outcomes, e, f);
    NamingIsIrrelevant(p, f, Readings(0, Zeros(|p.checks|)));
  }
}
