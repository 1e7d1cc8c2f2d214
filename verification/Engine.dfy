/**
 The engine (core/engine.go) in its own form: three slices appended to in
 place, tasks writing a shared array, and loops that group and aggregate. Each
 method is tied to the functions the other modules reason about.
 */
module HealthEngine {
  import opened HealthTypes
  import opened Conversion
  import opened Grouping
  import opened Aggregation
  import opened Sequential
  import opened Registration
  import FJ = ForkJoin

  /** A Register method returns, or panics because the name is reserved. */
  datatype RegisterOutcome = Registered | Panicked(message: string)

  const RESERVED_MESSAGE: string := "health/core: check name \"system:time\" is reserved by the framework"

  class Engine {
    const serviceID: string
    const description: string
    var livez: seq<Check>
    var readyz: seq<Check>
    var healthz: seq<Check>

    /** Every Register call made so far, accepted or not. */
    ghost var calls: seq<Call>

    function Contents(): Slices
      reads this
    {
      Slices(livez, readyz, healthz)
    }

    /** The engine is one that registration alone has produced. */
    ghost predicate Valid()
      reads this
    {
      Contents() == After(calls)
    }

    constructor (serviceID: string, description: string)
      ensures this.serviceID == serviceID && this.description == description
      ensures Valid() && calls == []
    {
      this.serviceID := serviceID;
      this.description := description;
      livez, readyz, healthz := [], [], [];
      calls := [];
    }

    method RegisterHealthCheck(c: Check) returns (r: RegisterOutcome)
      requires Valid()
      modifies this
      ensures Valid() && calls == old(calls) + [Call(Health, c)]
      ensures Contents() == Register(old(Contents()), Call(Health, c))
      ensures c.name != SYSTEM_TIME ==>
                livez == old(livez) && readyz == old(readyz) && healthz == old(healthz) + [c]
      ensures c.name == SYSTEM_TIME ==> Contents() == old(Contents())
      ensures c.name == "system:time" ==>
                r == Panicked("health/core: check name \"system:time\" is reserved by the framework")
      ensures c.name != "system:time" ==> r == Registered
    {
      calls := calls + [Call(Health, c)];
      assert calls[..|calls| - 1] == old(calls);
      if c.name == SYSTEM_TIME {
        return Panicked(RESERVED_MESSAGE);
      }
      healthz := healthz + [c];
      return Registered;
    }

    method RegisterReadinessCheck(c: Check) returns (r: RegisterOutcome)
      requires Valid()
      modifies this
      ensures Valid() && calls == old(calls) + [Call(Readiness, c)]
      ensures Contents() == Register(old(Contents()), Call(Readiness, c))
      ensures c.name != SYSTEM_TIME ==>
                livez == old(livez) && readyz == old(readyz) + [c] && healthz == old(healthz) + [c]
      ensures c.name == SYSTEM_TIME ==> Contents() == old(Contents())
      ensures c.name == "system:time" ==>
                r == Panicked("health/core: check name \"system:time\" is reserved by the framework")
      ensures c.name != "system:time" ==> r == Registered
    {
      calls := calls + [Call(Readiness, c)];
      assert calls[..|calls| - 1] == old(calls);
      if c.name == SYSTEM_TIME {
        return Panicked(RESERVED_MESSAGE);
      }
      healthz := healthz + [c];
      readyz := readyz + [c];
      return Registered;
    }

    method RegisterLivenessCheck(c: Check) returns (r: RegisterOutcome)
      requires Valid()
      modifies this
      ensures Valid() && calls == old(calls) + [Call(Liveness, c)]
      ensures Contents() == Register(old(Contents()), Call(Liveness, c))
      ensures c.name != SYSTEM_TIME ==>
                livez == old(livez) + [c] && readyz == old(readyz) + [c] && healthz == old(healthz) + [c]
      ensures c.name == SYSTEM_TIME ==> Contents() == old(Contents())
      ensures c.name == "system:time" ==>
                r == Panicked("health/core: check name \"system:time\" is reserved by the framework")
      ensures c.name != "system:time" ==> r == Registered
    {
      calls := calls + [Call(Liveness, c)];
      assert calls[..|calls| - 1] == old(calls);
      if c.name == SYSTEM_TIME {
        return Panicked(RESERVED_MESSAGE);
      }
      healthz := healthz + [c];
      readyz := readyz + [c];
      livez := livez + [c];
      return Registered;
    }

    /** One check's path, when `Run` (if there is one) returns `returned` and the clock then reads `now`. */
    static method RunOne(c: Check, returned: seq<Result>, now: Timestamp) returns (out: seq<ComponentStatus>)
      ensures !c.run.NilRun? ==> |out| == |returned|
      ensures !c.run.NilRun? ==>
                forall j :: 0 <= j < |out| ==> Reports(out[j], c, returned[j]) && out[j].time == now
      ensures c.run.NilRun? ==>
                out == [ComponentStatus("", c.componentType, None, "", Fail, [], now,
                                        "check has no Run function", map[])]
      ensures forall j :: 0 <= j < |out| ==> Suppressed(out[j])
      ensures out == RunOneEntries(c, returned, now)
    {
      var results := if c.run.NilRun? then [NO_RUN] else returned;
      out := [];
      for k := 0 to |results|
        invariant out == Converted(c, results[..k], now)
        invariant forall j :: 0 <= j < |out| ==> Suppressed(out[j])
      {
        var r := results[k];
        var cs := ComponentStatus(r.componentId, c.componentType, r.observedValue, r.observedUnit,
                                  r.status, r.affectedEndpoints, now, r.output, r.links);
        if cs.status == Pass {
          cs := cs.(output := "");
          cs := cs.(affectedEndpoints := []);
        }
        out := out + [cs];
        assert results[..k + 1] == results[..k] + [r];
      }
      assert results[..|results|] == results;
    }

    /** The reduction to one status; the map is ranged over in any order. */
    static method Aggregate(checks: ChecksMap) returns (overall: Status)
      ensures overall == Overall(checks)
    {
      overall := Pass;
      var todo := checks.Keys;
      while todo != {}
        invariant todo <= checks.Keys
        invariant overall == Pass || overall == Warn
        invariant forall name :: name in checks && name !in todo ==> !AnyIn(checks[name], Fail)
        invariant overall == Warn <==> exists name :: name in checks && name !in todo && AnyIn(checks[name], Warn)
        decreases |todo|
      {
        var name :| name in todo;
        var list := checks[name];
        ghost var before := overall;
        for i := 0 to |list|
          invariant overall == Pass || overall == Warn
          invariant forall j :: 0 <= j < i ==> list[j].status != Fail
          invariant overall == Warn <==> before == Warn || exists j :: 0 <= j < i && list[j].status == Warn
        {
          match list[i].status
          case Fail =>
            assert AnyStatus(checks, Fail);
            return Fail;
          case Warn =>
            overall := Warn;
          case _ =>
        }
        assert overall == Warn <==> before == Warn || AnyIn(list, Warn);
        todo := todo - {name};
      }
      AnyStatusByKey(checks, Fail);
      AnyStatusByKey(checks, Warn);
    }

    /** Runs the checks of `p` in parallel and groups their entries. The scheduler interleaves
        spawner and tasks as it likes; `clock` returns the readings taken on the way. */
    static method RunChecks(p: Probe) returns (out: ChecksMap, clock: Readings)
      requires p.WellFormed()
      ensures |clock.tasks| == |p.checks|
      ensures out == SequentialMap(p, clock)
      ensures UntimedMap(out) == Expected(p) && Overall(out) == Overall(Expected(p))
      ensures SYSTEM_TIME in out && out[SYSTEM_TIME] != [] && IsHeartbeat(out[SYSTEM_TIME][0], clock.heartbeat)
      ensures (forall i :: 0 <= i < |p.checks| ==> p.checks[i].name != SYSTEM_TIME) ==> |out[SYSTEM_TIME]| == 1
    {
      var n := |p.checks|;
      var now: Timestamp :| true;
      out := map[SYSTEM_TIME := [Heartbeat(now)]];
      if n == 0 {
        clock := Readings(now, []);
        SequentialUntimed(p, clock);
        HeartbeatFirst(p, clock);
        return;
      }
      var results := new seq<ComponentStatus>[n](_ => []);
      clock := ForkAndJoin(p, now, results);
      for i := 0 to n
        invariant results[..] == SlotsOf(p, clock.tasks)
        invariant out == Grouped(Heartbeat(now), p.checks[..i], results[..][..i])
      {
        GroupedRound(Heartbeat(now), p.checks, results[..], i);
        if |results[i]| == 0 {
          continue;
        }
        out := out[p.checks[i].name := Lookup(out, p.checks[i].name) + results[i]];
      }
      assert p.checks[..n] == p.checks && results[..][..n] == results[..];
      SequentialUntimed(p, clock);
      HeartbeatFirst(p, clock);
    }

    /** From the head of the launching loop to the return of `wg.Wait()`: every iteration is one
        enabled step of the transition system, chosen freely. */
    static method ForkAndJoin(p: Probe, now: Timestamp, results: array<seq<ComponentStatus>>) returns (clock: Readings)
      requires p.WellFormed() && |p.checks| > 0 && results.Length == |p.checks|
      requires forall i :: 0 <= i < results.Length ==> results[i] == []
      modifies results
      ensures clock.heartbeat == now && |clock.tasks| == |p.checks|
      ensures results[..] == SlotsOf(p, clock.tasks)
    {
      ghost var steps: seq<FJ.Step> := [FJ.Start(now)];
      FJ.ExecSnoc(p, [], FJ.Start(now));
      assert [] + steps == steps;
      var s := FJ.Apply(p, FJ.Init(p), FJ.Start(now));
      while !s.pc.Group?
        invariant FJ.Exec(p, steps) == Some(s)
        invariant !s.pc.Begin? && !s.pc.Returned? && s.clock.heartbeat == now
        invariant results[..] == s.shared.slots
        decreases FJ.TotalWork(|p.checks|) - |steps|
      {
        ghost var some := FJ.Progress(p, steps);
        var step :| FJ.Enabled(p, s, step);
        FJ.ExecSnoc(p, steps, step);
        FJ.WorkConserved(p, steps + [step]);
        if step.Write? {
          results[step.i] := RunOne(p.checks[step.i], p.outcomes[step.i], step.now);
        }
        s := FJ.Apply(p, s, step);
        steps := steps + [step];
      }
      FJ.JoinIsSafe(p, steps);
      clock := s.clock;
    }

    method RunLivez(outcomes: seq<seq<Result>>) returns (response: HealthResponse, clock: Readings)
      requires |outcomes| == |livez|
      ensures Answers(response, clock, Probe(livez, outcomes))
    {
      var checks;
      checks, clock := RunChecks(Probe(livez, outcomes));
      var status := Aggregate(checks);
      response := HealthResponse(status, serviceID, description, checks);
    }

    method RunReadyz(outcomes: seq<seq<Result>>) returns (response: HealthResponse, clock: Readings)
      requires |outcomes| == |readyz|
      ensures Answers(response, clock, Probe(readyz, outcomes))
    {
      var checks;
      checks, clock := RunChecks(Probe(readyz, outcomes));
      var status := Aggregate(checks);
      response := HealthResponse(status, serviceID, description, checks);
    }

    method RunHealthz(outcomes: seq<seq<Result>>) returns (response: HealthResponse, clock: Readings)
      requires |outcomes| == |healthz|
      ensures Answers(response, clock, Probe(healthz, outcomes))
    {
      var checks;
      checks, clock := RunChecks(Probe(healthz, outcomes));
      var status := Aggregate(checks);
      response := HealthResponse(status, serviceID, description, checks);
    }

    /** `response` is the sequential response of `p` for the given clock readings. */
    ghost predicate Answers(response: HealthResponse, clock: Readings, p: Probe) {
      && p.WellFormed() && |clock.tasks| == |p.checks|
      && response.checks == SequentialMap(p, clock)
      && response.status == Overall(Expected(p))
      && response.serviceId == serviceID
      && response.description == description
    }
  }

  /** What a registered engine answers is what the theorems about its registration log speak of:
      the heartbeat is alone under its key, and the status follows from the checks in scope. */
  lemma AnswersFollowTheLog(engine: Engine, e: Endpoint, outcomes: seq<seq<Result>>, response: HealthResponse,
                            clock: Readings)
    requires engine.Valid() && |outcomes| == |engine.calls|
    requires engine.Answers(response, clock,
                            Probe(SliceFor(engine.Contents(), e), ProbeOf(engine.calls, outcomes, e).outcomes))
    ensures UntimedMap(response.checks) == Expected(ProbeOf(engine.calls, outcomes, e))
    ensures response.status == Rule(ObservedInScope(engine.calls, outcomes, e, Fail),
                                    ObservedInScope(engine.calls, outcomes, e, Warn))
    ensures SYSTEM_TIME in response.checks && |response.checks[SYSTEM_TIME]| == 1
    ensures IsHeartbeat(response.checks[SYSTEM_TIME][0], clock.heartbeat)
  {
    var p := ProbeOf(engine.calls, outcomes, e);
    ProbeRunsTheSlice(engine.calls, outcomes, e);
    Cascade(engine.calls, e);
    StatusFromLog(engine.calls, outcomes, e);
    SequentialUntimed(p, clock);
    HeartbeatFirst(p, clock);
    forall i | 0 <= i < |p.checks| ensures p.checks[i].name != SYSTEM_TIME {
      assert p.checks[i] in SliceFor(engine.Contents(), e);
    }
  }
}
