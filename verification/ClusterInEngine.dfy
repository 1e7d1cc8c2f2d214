/**
 A Redis Cluster check inside a probe: the order in which its callbacks happen
 to append is invisible in the status and in the bag of entries, every node has
 its entry, and the check fails the response exactly when the cluster gives it
 a reason to.
 */
module ClusterInEngine {
  import opened HealthTypes
  import opened Conversion
  import opened Grouping
  import opened Aggregation
  import opened Sequential
  import opened Registration
  import opened Serving
  import opened EndToEnd
  import Redis = RedisCluster

  // ----- permuted outcomes

  lemma ConvertedWithout(c: Check, b: seq<Result>, i: nat, now: Timestamp)
    requires i < |b|
    ensures multiset(Converted(c, b, now))
         == multiset(Converted(c, b[..i] + b[i + 1..], now)) + multiset{Convert(c, b[i], now)}
  {
    var out := Converted(c, b, now);
    Redis.RemoveAt(out, i);
    assert Converted(c, b[..i] + b[i + 1..], now) == out[..i] + out[i + 1..];
  }

  lemma {:induction false} ConvertedPermutes(c: Check, a: seq<Result>, b: seq<Result>, now: Timestamp)
    requires multiset(a) == multiset(b)
    ensures multiset(Converted(c, a, now)) == multiset(Converted(c, b, now))
  {
    if a == [] {
      assert |multiset(b)| == 0;
    } else {
      var i := Redis.MatchHead(a, b);
      ConvertedPermutes(c, a[..0] + a[0 + 1..], b[..i] + b[i + 1..], now);
      ConvertedWithout(c, a, 0, now);
      ConvertedWithout(c, b, i, now);
    }
  }

  /** The order in which checks list their observations shows only in the order of the entries under a key. */
  lemma OrderIsInvisible(p: Probe, q: Probe)
    requires p.WellFormed() && q.WellFormed() && p.checks == q.checks
    requires forall i :: 0 <= i < |p.checks| ==> multiset(p.outcomes[i]) == multiset(q.outcomes[i])
    ensures SameUpToOrder(Expected(p), Expected(q))
    ensures AllEntries(Expected(p)) == AllEntries(Expected(q))
    ensures Overall(Expected(p)) == Overall(Expected(q))
  {
    var times := Zeros(|p.checks|);
    var a, b := SlotsOf(p, times), SlotsOf(q, times);
    forall i | 0 <= i < |a| ensures multiset(a[i]) == multiset(b[i]) {
      var c := p.checks[i];
      if !c.run.NilRun? {
        ConvertedPermutes(c, p.outcomes[i], q.outcomes[i], 0);
      }
    }
    GroupedSame(Heartbeat(0), p.checks, a, b);
    SameEntries(Expected(p), Expected(q));
    OverallIgnoresKeys(Expected(p), Expected(q));
  }

  // ----- the cluster check

  /** Call `i` registers a cluster check, which got its outcome from schedule `callbacks` of `c`. */
  ghost predicate IsClusterCheck(
    calls: seq<Call>, outcomes: seq<seq<Result>>, i: nat, c: Redis.Cluster, callbacks: seq<Redis.Step>)
  {
    && i < |calls| == |outcomes|
    && !calls[i].check.run.NilRun?
    && Redis.Returns(c, callbacks, outcomes[i])
  }

  /** Some yielded node did not answer, or the iteration failed before yielding any. */
  ghost predicate ClusterFails(c: Redis.Cluster) {
    || (exists k :: 0 <= k < |c.nodes| && c.nodes[k].pingError.Some?)
    || (c.nodes == [] && c.error.Some?)
  }

  lemma OwedFailure(c: Redis.Cluster)
    ensures (exists r :: r in Redis.Owed(c) && r.status == Fail) <==> ClusterFails(c)
  {
    var owed := Redis.Owed(c);
    if r :| r in owed && r.status == Fail {
      var k :| 0 <= k < |owed| && owed[k] == r;
      assert c.nodes != [] ==> c.nodes[k].pingError.Some?;
    }
    if k :| 0 <= k < |c.nodes| && c.nodes[k].pingError.Some? {
      assert owed[k].status == Fail && owed[k] in owed;
    }
    if c.nodes == [] && c.error.Some? {
      assert owed[0].status == Fail && owed[0] in owed;
    }
  }

  lemma SameBagSameMembers(a: seq<Result>, b: seq<Result>, r: Result)
    requires multiset(a) == multiset(b)
    ensures r in a <==> r in b
  {
    assert r in a <==> r in multiset(a);
    assert r in b <==> r in multiset(b);
  }

  lemma ClusterObservesFail(
    calls: seq<Call>, outcomes: seq<seq<Result>>, i: nat, c: Redis.Cluster, callbacks: seq<Redis.Step>)
    requires IsClusterCheck(calls, outcomes, i, c, callbacks)
    ensures Observes(calls[i].check, outcomes[i], Fail) <==> ClusterFails(c)
  {
    var results := outcomes[i];
    Redis.ReturnsWhatIsOwed(c, callbacks, results);
    OwedFailure(c);
    if Observes(calls[i].check, results, Fail) {
      var j :| 0 <= j < |results| && results[j].status == Fail;
      SameBagSameMembers(results, Redis.Owed(c), results[j]);
    }
    if r :| r in Redis.Owed(c) && r.status == Fail {
      SameBagSameMembers(results, Redis.Owed(c), r);
      var j :| 0 <= j < |results| && results[j] == r;
      assert results[j].status == Fail;
    }
  }

  ghost predicate OtherFails(calls: seq<Call>, outcomes: seq<seq<Result>>, e: Endpoint, i: nat)
    requires |calls| == |outcomes|
  {
    exists j :: 0 <= j < |calls| && j != i && Admits(calls[j], e) && Observes(calls[j].check, outcomes[j], Fail)
  }

  /** In every served response of an endpoint it is admitted to, under every schedule of its callbacks, the
      cluster check fails the response exactly when a yielded node's ping failed, or the iteration
      failed with no node. */
  lemma ClusterFailsTheResponse(
    engine: EngineState, calls: seq<Call>, steps: seq<ServerStep>, k: nat, outcomes: seq<seq<Result>>,
    i: nat, c: Redis.Cluster, callbacks: seq<Redis.Step>)
    requires Answer(engine, calls, steps, k, outcomes) && IsClusterCheck(calls, outcomes, i, c, callbacks)
    requires Admits(calls[i], EndpointOf(steps, k))
    ensures ResponseOf(engine, steps, k).status == Fail <==>
            ClusterFails(c) || OtherFails(calls, outcomes, EndpointOf(steps, k), i)
  {
    var e := EndpointOf(steps, k);
    AnswerIsSequential(engine, calls, steps, k, outcomes);
    StatusFromLog(calls, outcomes, e);
    ClusterObservesFail(calls, outcomes, i, c, callbacks);
    if ClusterFails(c) {
      assert Admits(calls[i], e) && Observes(calls[i].check, outcomes[i], Fail);
    }
  }

  /** Another check of the same name in scope reported something. */
  ghost predicate OtherReports(calls: seq<Call>, outcomes: seq<seq<Result>>, e: Endpoint, i: nat)
    requires i < |calls| == |outcomes|
  {
    exists j :: 0 <= j < |calls| && j != i && Admits(calls[j], e) && calls[j].check.name == calls[i].check.name
      && (calls[j].check.run.NilRun? || outcomes[j] != [])
  }

  /** The cluster check contributes no key exactly when there is no node and no error. */
  lemma ClusterKeyPresence(
    engine: EngineState, calls: seq<Call>, steps: seq<ServerStep>, k: nat, outcomes: seq<seq<Result>>,
    i: nat, c: Redis.Cluster, callbacks: seq<Redis.Step>)
    requires Answer(engine, calls, steps, k, outcomes) && IsClusterCheck(calls, outcomes, i, c, callbacks)
    requires Admits(calls[i], EndpointOf(steps, k))
    ensures calls[i].check.name in ResponseOf(engine, steps, k).checks <==>
            c.nodes != [] || c.error.Some? || OtherReports(calls, outcomes, EndpointOf(steps, k), i)
  {
    var e, name := EndpointOf(steps, k), calls[i].check.name;
    AnswerIsSequential(engine, calls, steps, k, outcomes);
    assert name in ResponseOf(engine, steps, k).checks <==> name in Expected(ProbeOf(calls, outcomes, e));
    KeysFromLog(calls, outcomes, e, name);
    Redis.ReturnsWhatIsOwed(c, callbacks, outcomes[i]);
    assert |outcomes[i]| == |multiset(outcomes[i])| == |multiset(Redis.Owed(c))| == |Redis.Owed(c)|;
    if Redis.Owed(c) != [] {
      assert outcomes[i] != [];
    }
  }

  /** Whichever order the callbacks appended in, some observation of the check is that of the given node. */
  lemma {:induction false} NodeIsObserved(c: Redis.Cluster, callbacks: seq<Redis.Step>, results: seq<Result>, m: nat)
    returns (j: nat)
    requires Redis.Returns(c, callbacks, results) && m < |c.nodes|
    ensures j < |results| && Redis.Carries(results[j], c.nodes[m])
  {
    Redis.ReturnsOnePerNode(c, callbacks, results);
    var ordered :| multiset(ordered) == multiset(c.nodes) && Redis.CarriesEach(results, ordered);
    assert c.nodes[m] in multiset(ordered);
    j :| 0 <= j < |ordered| && ordered[j] == c.nodes[m];
  }

  /** From a node of the cluster to the client: every yielded node has an entry in every answer of an endpoint its
      check is admitted to, with the node's address, whether it answered, and its error if it did not. */
  lemma {:induction false} NodeInResponse(
    engine: EngineState, calls: seq<Call>, steps: seq<ServerStep>, k: nat, outcomes: seq<seq<Result>>,
    i: nat, c: Redis.Cluster, callbacks: seq<Redis.Step>, m: nat) returns (at: nat)
    requires Answer(engine, calls, steps, k, outcomes) && IsClusterCheck(calls, outcomes, i, c, callbacks)
    requires Admits(calls[i], EndpointOf(steps, k)) && m < |c.nodes|
    ensures var list := Lookup(ResponseOf(engine, steps, k).checks, calls[i].check.name);
            && at < |list|
            && list[at].componentId == c.nodes[m].addr
            && list[at].componentType == calls[i].check.componentType
            && list[at].status == (if c.nodes[m].pingError.Some? then Fail else Pass)
            && list[at].output == (if c.nodes[m].pingError.Some? then c.nodes[m].pingError.value else "")
  {
    var j := NodeIsObserved(c, callbacks, outcomes[i], m);
    at := RegisteredObservationIsReported(engine, calls, steps, k, outcomes, i, j);
  }

  /** Call `j` registers a cluster check, and its two outcomes come from the same yielded nodes: they differ
      at most in the schedule of the callbacks and in an error after at least one node. */
  ghost predicate SameNodes(calls: seq<Call>, o1: seq<seq<Result>>, o2: seq<seq<Result>>, j: nat) {
    exists c1, callbacks1, c2, callbacks2 ::
      && IsClusterCheck(calls, o1, j, c1, callbacks1) && IsClusterCheck(calls, o2, j, c2, callbacks2)
      && c1.nodes == c2.nodes && (c1.nodes == [] ==> c1.error == c2.error)
  }

  lemma SameNodesSameBag(calls: seq<Call>, o1: seq<seq<Result>>, o2: seq<seq<Result>>, j: nat)
    requires SameNodes(calls, o1, o2, j)
    ensures j < |o1| && j < |o2| && multiset(o1[j]) == multiset(o2[j])
  {
    var c1, callbacks1, c2, callbacks2 :|
      && IsClusterCheck(calls, o1, j, c1, callbacks1) && IsClusterCheck(calls, o2, j, c2, callbacks2)
      && c1.nodes == c2.nodes && (c1.nodes == [] ==> c1.error == c2.error);
    Redis.ReturnsWhatIsOwed(c1, callbacks1, o1[j]);
    Redis.ReturnsWhatIsOwed(c2, callbacks2, o2[j]);
  }

  /** However many cluster checks an engine holds, neither the schedules of their callbacks nor iteration errors
      after at least one node are visible, key by key: two responses that differ only there have
      the same keys, the same entries under each key up to their order, and the same status. */
  lemma {:induction false} ClusterScheduleIsInvisible(
    engine: EngineState, calls: seq<Call>,
    steps1: seq<ServerStep>, k1: nat, o1: seq<seq<Result>>,
    steps2: seq<ServerStep>, k2: nat, o2: seq<seq<Result>>)
    requires Answer(engine, calls, steps1, k1, o1) && Answer(engine, calls, steps2, k2, o2)
    requires EndpointOf(steps1, k1) == EndpointOf(steps2, k2)
    requires forall j :: 0 <= j < |calls| ==> o1[j] == o2[j] || SameNodes(calls, o1, o2, j)
    ensures SameUpToOrder(UntimedMap(ResponseOf(engine, steps1, k1).checks),
                          UntimedMap(ResponseOf(engine, steps2, k2).checks))
    ensures ResponseOf(engine, steps1, k1).status == ResponseOf(engine, steps2, k2).status
  {
    var e := EndpointOf(steps1, k1);
    AnswerIsSequential(engine, calls, steps1, k1, o1);
    AnswerIsSequential(engine, calls, steps2, k2, o2);
    forall j | 0 <= j < |calls| ensures multiset(o1[j]) == multiset(o2[j]) {
      if o1[j] != o2[j] {
        SameNodesSameBag(calls, o1, o2, j);
      }
    }
    ProbePermutes(calls, o1, o2, e);
    OrderIsInvisible(ProbeOf(calls, o1, e), ProbeOf(calls, o2, e));
  }
}
