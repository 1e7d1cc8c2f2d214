/**
 The Redis Cluster fan-out (newWithIterator, checks/redischeck/redischeck.go):
 one concurrent callback per node, pinging outside the lock and appending to a
 captured slice under a mutex. Lock, read, write and unlock are separate steps.
 */
module RedisCluster {
  import opened HealthTypes

  /** A yielded node: its address, and the error its ping returns, if any. */
  datatype Node = Node(addr: string, pingError: Option<string>)

  /** One iteration over the cluster: the nodes yielded, and the error `forEach` returns, if any. */
  datatype Cluster = Cluster(nodes: seq<Node>, error: Option<string>)

  /** What pingNode reports about a node. */
  function PingResult(n: Node): Result {
    var blank := Result(n.addr, Pass, None, "", "", [], map[]);
    match n.pingError
    case Some(e) => blank.(status := Fail, output := e)
    case None => blank
  }

  method PingNode(n: Node) returns (r: Result)
    ensures r.componentId == n.addr
    ensures n.pingError.Some? ==> r.status == Fail && r.output == n.pingError.value
    ensures n.pingError.None? ==> r.status == Pass && r.output == ""
    ensures r.observedValue == None && r.observedUnit == "" && r.affectedEndpoints == [] && r.links == map[]
    ensures r == PingResult(n)
  {
    r := Result(n.addr, Unknown(""), None, "", "", [], map[]);
    if n.pingError.Some? {
      r := r.(status := Fail);
      r := r.(output := n.pingError.value);
      return;
    }
    r := r.(status := Pass);
  }

  /** The observation synthesized when the iteration fails before yielding any node. */
  function ClusterFailure(message: string): Result {
    Result("", Fail, None, "", message, [], map[])
  }

  function WithFallback(c: Cluster, out: seq<Result>): seq<Result> {
    if c.error.Some? && |out| == 0 then out + [ClusterFailure(c.error.value)] else out
  }

  // ----- the callbacks

  /** Where a callback is. `Read` holds the slice it read, to which it is about to append. */
  datatype CallbackPc = Started | Pinged | Locked | Read(seen: seq<Result>) | Stored | Over

  /** `Iterating` while callbacks run, `Yielded` once `forEach` has returned, then the result. */
  datatype Phase = Iterating | Yielded | Reported(results: seq<Result>)

  datatype State = State(phase: Phase, callbacks: seq<CallbackPc>, holder: Option<nat>, out: seq<Result>)

  datatype Step =
    | Ping(i: nat)
    | Lock(i: nat)
    | ReadOut(i: nat)
    | WriteOut(i: nat)
    | Unlock(i: nat)
    | EndForEach    // forEach returns, after all its callbacks
    | Report

  function Init(c: Cluster): State {
    State(Iterating, seq(|c.nodes|, _ => Started), None, [])
  }

  predicate Shaped(c: Cluster, s: State) {
    |s.callbacks| == |c.nodes|
  }

  /** With `mutex` false, `Lock` does not wait: the program without its lock. */
  predicate Enabled(c: Cluster, mutex: bool, s: State, step: Step)
    requires Shaped(c, s)
  {
    match step
    case Ping(i) => i < |c.nodes| && s.callbacks[i].Started?
    case Lock(i) => i < |c.nodes| && s.callbacks[i].Pinged? && (mutex ==> s.holder.None?)
    case ReadOut(i) => i < |c.nodes| && s.callbacks[i].Locked?
    case WriteOut(i) => i < |c.nodes| && s.callbacks[i].Read?
    case Unlock(i) => i < |c.nodes| && s.callbacks[i].Stored?
    case EndForEach => s.phase.Iterating? && forall i :: 0 <= i < |c.nodes| ==> s.callbacks[i].Over?
    case Report => s.phase.Yielded?
  }

  function Apply(c: Cluster, mutex: bool, s: State, step: Step): (s': State)
    requires Shaped(c, s) && Enabled(c, mutex, s, step)
    ensures Shaped(c, s')
  {
    match step
    case Ping(i) => s.(callbacks := s.callbacks[i := Pinged])
    case Lock(i) => s.(callbacks := s.callbacks[i := Locked], holder := Some(i))
    case ReadOut(i) => s.(callbacks := s.callbacks[i := Read(s.out)])
    case WriteOut(i) =>
      s.(callbacks := s.callbacks[i := Stored], out := s.callbacks[i].seen + [PingResult(c.nodes[i])])
    case Unlock(i) => s.(callbacks := s.callbacks[i := Over], holder := None)
    case EndForEach => s.(phase := Yielded)
    case Report =>
      s.(phase := Reported(WithFallback(c, s.out)))
  }

  function Exec(c: Cluster, mutex: bool, steps: seq<Step>): (r: Option<State>)
    ensures r.Some? ==> Shaped(c, r.value)
  {
    if steps == [] then Some(Init(c))
    else
      var last := |steps| - 1;
      match Exec(c, mutex, steps[..last])
      case None => None
      case Some(s) => if Enabled(c, mutex, s, steps[last]) then Some(Apply(c, mutex, s, steps[last])) else None
  }

  lemma ExecSnoc(c: Cluster, mutex: bool, steps: seq<Step>, step: Step)
    requires Exec(c, mutex, steps).Some? && Enabled(c, mutex, Exec(c, mutex, steps).value, step)
    ensures Exec(c, mutex, steps + [step]) == Some(Apply(c, mutex, Exec(c, mutex, steps).value, step))
  {
    assert (steps + [step])[..|steps|] == steps;
  }

  // ----- mutual exclusion and conservation

  /** Between acquiring the lock and releasing it. */
  predicate Critical(pc: CallbackPc) {
    pc.Locked? || pc.Read? || pc.Stored?
  }

  predicate HasStored(pc: CallbackPc) {
    pc.Stored? || pc.Over?
  }

  /** What one callback has contributed to the shared slice. */
  function Share(n: Node, pc: CallbackPc): multiset<Result> {
    if HasStored(pc) then multiset{PingResult(n)} else multiset{}
  }

  /** What the callbacks have contributed together. */
  function Contributed(nodes: seq<Node>, callbacks: seq<CallbackPc>): multiset<Result>
    requires |nodes| == |callbacks|
  {
    if nodes == [] then multiset{}
    else
      var n := |nodes| - 1;
      Contributed(nodes[..n], callbacks[..n]) + Share(nodes[n], callbacks[n])
  }

  lemma {:induction false} ContributedLast(nodes: seq<Node>, callbacks: seq<CallbackPc>, pc: CallbackPc)
    requires |nodes| == |callbacks| > 0
    ensures var n := |nodes| - 1;
            Contributed(nodes, callbacks[n := pc]) == Contributed(nodes[..n], callbacks[..n]) + Share(nodes[n], pc)
  {
    var n := |nodes| - 1;
    assert callbacks[n := pc][..n] == callbacks[..n];
  }

  lemma {:induction false} ContributedFront(nodes: seq<Node>, callbacks: seq<CallbackPc>, i: nat, pc: CallbackPc)
    requires i < |nodes| - 1 && |nodes| == |callbacks|
    ensures var n := |nodes| - 1;
            Contributed(nodes, callbacks[i := pc])
            == Contributed(nodes[..n], callbacks[..n][i := pc]) + Share(nodes[n], callbacks[n])
  {
    var n := |nodes| - 1;
    assert callbacks[i := pc][..n] == callbacks[..n][i := pc];
  }

  lemma Swap(a: multiset<Result>, b: multiset<Result>, c: multiset<Result>)
    ensures a + b + c == a + c + b
  {
  }

  /** When a callback moves, its old share is exchanged for its new one. */
  lemma {:induction false} ContributedUpdate(nodes: seq<Node>, callbacks: seq<CallbackPc>, i: nat, pc: CallbackPc)
    requires i < |nodes| == |callbacks|
    ensures Contributed(nodes, callbacks[i := pc]) + Share(nodes[i], callbacks[i])
         == Contributed(nodes, callbacks) + Share(nodes[i], pc)
  {
    var n := |nodes| - 1;
    var front := Contributed(nodes[..n], callbacks[..n]);
    if i == n {
      ContributedLast(nodes, callbacks, pc);
      Swap(front, Share(nodes[n], pc), Share(nodes[n], callbacks[n]));
    } else {
      ContributedFront(nodes, callbacks, i, pc);
      ContributedUpdate(nodes[..n], callbacks[..n], i, pc);
      Swap(Contributed(nodes[..n], callbacks[..n][i := pc]),
           Share(nodes[n], callbacks[n]), Share(nodes[i], callbacks[i]));
      Swap(front, Share(nodes[i], pc), Share(nodes[n], callbacks[n]));
    }
  }

  lemma Cancel(a: multiset<Result>, b: multiset<Result>, c: multiset<Result>)
    requires a + c == b + c
    ensures a == b
  {
    assert a == (a + c) - c;
    assert b == (b + c) - c;
  }

  /** A move that stores nothing leaves the contributions alone. */
  lemma {:induction false} ContributedSame(nodes: seq<Node>, callbacks: seq<CallbackPc>, i: nat, pc: CallbackPc)
    requires i < |nodes| == |callbacks| && HasStored(pc) == HasStored(callbacks[i])
    ensures Contributed(nodes, callbacks[i := pc]) == Contributed(nodes, callbacks)
  {
    ContributedUpdate(nodes, callbacks, i, pc);
    Cancel(Contributed(nodes, callbacks[i := pc]), Contributed(nodes, callbacks), Share(nodes[i], pc));
  }

  /** The ping results of all yielded nodes. */
  function PingResults(nodes: seq<Node>): seq<Result> {
    seq(|nodes|, i requires 0 <= i < |nodes| => PingResult(nodes[i]))
  }

  lemma {:induction false} AllContributed(nodes: seq<Node>, callbacks: seq<CallbackPc>)
    requires |nodes| == |callbacks| && forall i :: 0 <= i < |nodes| ==> HasStored(callbacks[i])
    ensures Contributed(nodes, callbacks) == multiset(PingResults(nodes))
  {
    if nodes == [] {
    } else {
      var n := |nodes| - 1;
      AllContributed(nodes[..n], callbacks[..n]);
      assert PingResults(nodes) == PingResults(nodes[..n]) + [PingResult(nodes[n])];
    }
  }

  lemma {:induction false} NoneContributed(nodes: seq<Node>, callbacks: seq<CallbackPc>)
    requires |nodes| == |callbacks| && forall i :: 0 <= i < |nodes| ==> !HasStored(callbacks[i])
    ensures Contributed(nodes, callbacks) == multiset{}
  {
    if nodes == [] {
    } else {
      NoneContributed(nodes[..|nodes| - 1], callbacks[..|nodes| - 1]);
    }
  }

  ghost predicate Exclusive(s: State) {
    forall i :: 0 <= i < |s.callbacks| ==> (Critical(s.callbacks[i]) <==> s.holder == Some(i))
  }

  ghost predicate Fresh(s: State) {
    forall i :: 0 <= i < |s.callbacks| && s.callbacks[i].Read? ==> s.callbacks[i].seen == s.out
  }

  ghost predicate AllOver(s: State) {
    forall i :: 0 <= i < |s.callbacks| ==> s.callbacks[i].Over?
  }

  /** Callbacks do not move once `forEach` has returned, and the report is made once. */
  ghost predicate PhaseInv(c: Cluster, s: State) {
    && (!s.phase.Iterating? ==> AllOver(s))
    && (s.phase.Reported? ==> s.phase.results == WithFallback(c, s.out))
  }

  ghost predicate Inv(c: Cluster, s: State) {
    && Shaped(c, s)
    && (s.holder.Some? ==> s.holder.value < |s.callbacks|)
    && Exclusive(s) && Fresh(s)
    && multiset(s.out) == Contributed(c.nodes, s.callbacks)
    && PhaseInv(c, s)
  }

  lemma StepExclusive(c: Cluster, s: State, step: Step)
    requires Inv(c, s) && Enabled(c, true, s, step)
    ensures Exclusive(Apply(c, true, s, step)) && Fresh(Apply(c, true, s, step))
  {
    if step.WriteOut? {
      assert s.holder == Some(step.i);
    }
  }

  lemma {:induction false} StoreContributes(c: Cluster, s: State, step: Step)
    requires Inv(c, s) && Enabled(c, true, s, step) && step.WriteOut?
    ensures var s' := Apply(c, true, s, step); multiset(s'.out) == Contributed(c.nodes, s'.callbacks)
  {
    ContributedUpdate(c.nodes, s.callbacks, step.i, Stored);
    assert s.callbacks[step.i].seen == s.out;
  }

  lemma {:induction false} OthersDoNotContribute(c: Cluster, s: State, step: Step)
    requires Shaped(c, s) && Enabled(c, true, s, step) && !step.WriteOut?
    ensures var s' := Apply(c, true, s, step);
            s'.out == s.out && Contributed(c.nodes, s'.callbacks) == Contributed(c.nodes, s.callbacks)
  {
    match step
    case Ping(i) => ContributedSame(c.nodes, s.callbacks, i, Pinged);
    case Lock(i) => ContributedSame(c.nodes, s.callbacks, i, Locked);
    case ReadOut(i) => ContributedSame(c.nodes, s.callbacks, i, Read(s.out));
    case Unlock(i) => ContributedSame(c.nodes, s.callbacks, i, Over);
    case _ =>
  }

  lemma StepPhase(c: Cluster, s: State, step: Step)
    requires Shaped(c, s) && PhaseInv(c, s) && Enabled(c, true, s, step)
    ensures PhaseInv(c, Apply(c, true, s, step))
  {
  }

  lemma StepInv(c: Cluster, s: State, step: Step)
    requires Inv(c, s) && Enabled(c, true, s, step)
    ensures Inv(c, Apply(c, true, s, step))
  {
    StepExclusive(c, s, step);
    StepPhase(c, s, step);
    if step.WriteOut? {
      StoreContributes(c, s, step);
    } else {
      OthersDoNotContribute(c, s, step);
    }
  }

  lemma {:induction false} ReachableInv(c: Cluster, steps: seq<Step>)
    requires Exec(c, true, steps).Some?
    ensures Inv(c, Exec(c, true, steps).value)
  {
    if steps == [] {
      NoneContributed(c.nodes, Init(c).callbacks);
    } else {
      var last := |steps| - 1;
      ReachableInv(c, steps[..last]);
      StepInv(c, Exec(c, true, steps[..last]).value, steps[last]);
    }
  }

  /** At most one callback is in the critical section. */
  lemma MutualExclusion(c: Cluster, steps: seq<Step>, i: nat, j: nat)
    requires Exec(c, true, steps).Some? && i < |c.nodes| && j < |c.nodes|
    requires Critical(Exec(c, true, steps).value.callbacks[i]) && Critical(Exec(c, true, steps).value.callbacks[j])
    ensures i == j
  {
    ReachableInv(c, steps);
    assert Exec(c, true, steps).value.holder == Some(i);
  }

  /** Once `forEach` has returned, `out` holds the ping result of every yielded node, each as
      often as it was yielded, in some order. */
  lemma NothingLost(c: Cluster, steps: seq<Step>)
    requires Exec(c, true, steps).Some? && !Exec(c, true, steps).value.phase.Iterating?
    ensures multiset(Exec(c, true, steps).value.out) == multiset(PingResults(c.nodes))
    ensures OnePerNode(Exec(c, true, steps).value.out, c.nodes)
  {
    ReachableInv(c, steps);
    AllContributed(c.nodes, Exec(c, true, steps).value.callbacks);
    var ordered := Arrange(Exec(c, true, steps).value.out, c.nodes);
  }

  /** `results` is what some schedule of the cluster check returns. */
  ghost predicate Returns(c: Cluster, steps: seq<Step>, results: seq<Result>) {
    Exec(c, true, steps).Some? && Exec(c, true, steps).value.phase == Reported(results)
  }

  /** The results the check owes: one per node, or the cluster failure when there is no node to report. */
  function Owed(c: Cluster): seq<Result> {
    if c.nodes == [] && c.error.Some? then [ClusterFailure(c.error.value)] else PingResults(c.nodes)
  }

  /** Every schedule returns the results owed, in some order; an iteration error is
      visible only when no node was yielded. */
  lemma ReturnsWhatIsOwed(c: Cluster, steps: seq<Step>, results: seq<Result>)
    requires Returns(c, steps, results)
    ensures multiset(results) == multiset(Owed(c))
    ensures c.nodes != [] ==> Owed(c) == Owed(c.(error := None))
  {
    ReachableInv(c, steps);
    NothingLost(c, steps);
    var out := Exec(c, true, steps).value.out;
    assert |out| == |multiset(out)| == |multiset(PingResults(c.nodes))| == |c.nodes|;
  }

  // ----- the results, node by node

  /** `r` is what pinging `n` gave: the node's address, whether it answered, and the error if it did not. */
  predicate Carries(r: Result, n: Node) {
    && r.componentId == n.addr
    && (n.pingError.Some? ==> r.status == Fail && r.output == n.pingError.value)
    && (n.pingError.None? ==> r.status == Pass && r.output == "")
    && r.observedValue == None && r.observedUnit == "" && r.affectedEndpoints == [] && r.links == map[]
  }

  /** Result `j` is that of node `j`. */
  predicate CarriesEach(results: seq<Result>, nodes: seq<Node>) {
    |results| == |nodes| && forall j :: 0 <= j < |results| ==> Carries(results[j], nodes[j])
  }

  /** There is one result per node, in some order. */
  ghost predicate OnePerNode(results: seq<Result>, nodes: seq<Node>) {
    exists ordered :: multiset(ordered) == multiset(nodes) && CarriesEach(results, ordered)
  }

  /** The one result says that the iteration failed, and why. */
  predicate OnlyFailure(results: seq<Result>, message: string) {
    && |results| == 1
    && results[0].status == Fail && results[0].output == message
    && results[0].componentId == "" && results[0].observedValue == None && results[0].observedUnit == ""
    && results[0].affectedEndpoints == [] && results[0].links == map[]
  }

  lemma RemoveAt<T>(b: seq<T>, i: nat)
    requires i < |b|
    ensures multiset(b) == multiset(b[..i] + b[i + 1..]) + multiset{b[i]}
  {
    assert b == b[..i] + [b[i]] + b[i + 1..];
  }

  /** The head of `a` occurs in `b`, and removing it from both leaves permutations of each other. */
  lemma MatchHead<T>(a: seq<T>, b: seq<T>) returns (i: nat)
    requires multiset(a) == multiset(b) && a != []
    ensures i < |b| && b[i] == a[0]
    ensures multiset(a[..0] + a[0 + 1..]) == multiset(b[..i] + b[i + 1..])
  {
    assert a[0] in multiset(b);
    i :| 0 <= i < |b| && b[i] == a[0];
    RemoveAt(a, 0);
    RemoveAt(b, i);
    assert multiset(a[..0] + a[0 + 1..]) == multiset(a) - multiset{a[0]};
    assert multiset(b[..i] + b[i + 1..]) == multiset(b) - multiset{a[0]};
  }

  lemma PingResultsWithout(nodes: seq<Node>, i: nat)
    requires i < |nodes|
    ensures PingResults(nodes[..i] + nodes[i + 1..]) == PingResults(nodes)[..i] + PingResults(nodes)[i + 1..]
  {
  }

  /** The first result is that of some node, and the others are those of the other nodes. */
  lemma {:induction false} FirstIsFrom(results: seq<Result>, nodes: seq<Node>) returns (i: nat)
    requires multiset(results) == multiset(PingResults(nodes)) && results != []
    ensures i < |nodes| && Carries(results[0], nodes[i])
    ensures multiset(results[1..]) == multiset(PingResults(nodes[..i] + nodes[i + 1..]))
  {
    i := MatchHead(results, PingResults(nodes));
    PingResultsWithout(nodes, i);
    assert results[..0] + results[0 + 1..] == results[1..];
  }

  lemma {:induction false} PutFirst(results: seq<Result>, nodes: seq<Node>, i: nat, rest: seq<Node>)
    requires results != [] && i < |nodes| && Carries(results[0], nodes[i])
    requires multiset(rest) == multiset(nodes[..i] + nodes[i + 1..]) && CarriesEach(results[1..], rest)
    ensures multiset([nodes[i]] + rest) == multiset(nodes)
    ensures CarriesEach(results, [nodes[i]] + rest)
  {
    RemoveAt(nodes, i);
    forall j | 0 <= j < |results| ensures Carries(results[j], ([nodes[i]] + rest)[j]) {
      assert j > 0 ==> Carries(results[1..][j - 1], rest[j - 1]);
    }
  }

  /** Reordered ping results are the ping results of reordered nodes. */
  lemma {:induction false} Arrange(results: seq<Result>, nodes: seq<Node>) returns (ordered: seq<Node>)
    requires multiset(results) == multiset(PingResults(nodes))
    ensures multiset(ordered) == multiset(nodes) && CarriesEach(results, ordered)
    decreases |results|
  {
    if results == [] {
      assert |multiset(PingResults(nodes))| == 0;
      ordered := [];
    } else {
      var i := FirstIsFrom(results, nodes);
      var rest := Arrange(results[1..], nodes[..i] + nodes[i + 1..]);
      PutFirst(results, nodes, i, rest);
      ordered := [nodes[i]] + rest;
    }
  }

  /** Every schedule returns one result per yielded node, each with the node's address, its verdict and its
      error; unless the iteration failed with no node, which is then the one thing returned. */
  lemma {:induction false} ReturnsOnePerNode(c: Cluster, steps: seq<Step>, results: seq<Result>)
    requires Returns(c, steps, results)
    ensures c.nodes != [] || c.error.None? ==> OnePerNode(results, c.nodes)
    ensures c.nodes == [] && c.error.Some? ==> OnlyFailure(results, c.error.value)
  {
    ReturnsWhatIsOwed(c, steps, results);
    if c.nodes != [] || c.error.None? {
      var ordered := Arrange(results, c.nodes);
    } else {
      Singleton(results, ClusterFailure(c.error.value));
    }
  }

  lemma Singleton(results: seq<Result>, r: Result)
    requires multiset(results) == multiset([r])
    ensures results == [r]
  {
    assert |results| == |multiset(results)| == 1;
    assert results[0] in multiset(results);
  }

  /** A callback that runs undisturbed appends its result. */
  lemma Undisturbed(c: Cluster, mutex: bool, steps: seq<Step>, i: nat) returns (more: seq<Step>)
    requires Exec(c, mutex, steps).Some? && i < |c.nodes| && Exec(c, mutex, steps).value.callbacks[i].Started?
    requires mutex ==> Exec(c, mutex, steps).value.holder.None?
    ensures var s := Exec(c, mutex, steps).value;
            Exec(c, mutex, more) == Some(State(s.phase, s.callbacks[i := Over], None, s.out + [PingResult(c.nodes[i])]))
  {
    var s := Exec(c, mutex, steps).value;
    ExecSnoc(c, mutex, steps, Ping(i));
    ExecSnoc(c, mutex, steps + [Ping(i)], Lock(i));
    more := steps + [Ping(i)] + [Lock(i)];
    assert Exec(c, mutex, more).value.callbacks == s.callbacks[i := Locked];
    ExecSnoc(c, mutex, more, ReadOut(i));
    ExecSnoc(c, mutex, more + [ReadOut(i)], WriteOut(i));
    more := more + [ReadOut(i)] + [WriteOut(i)];
    assert Exec(c, mutex, more).value.callbacks == s.callbacks[i := Stored];
    ExecSnoc(c, mutex, more, Unlock(i));
    more := more + [Unlock(i)];
    assert s.callbacks[i := Stored][i := Over] == s.callbacks[i := Over];
  }

  /** `order` lists every node once. */
  ghost predicate Ordering(order: seq<nat>, n: nat) {
    && (forall m :: 0 <= m < |order| ==> order[m] < n)
    && (forall m, l :: 0 <= m < l < |order| ==> order[m] != order[l])
    && (forall i :: 0 <= i < n ==> i in order)
  }

  /** The callbacks of the first `m` nodes of `order` are over, and have appended in that order. */
  ghost predicate AppendedSoFar(c: Cluster, s: State, order: seq<nat>, m: nat)
    requires Ordering(order, |c.nodes|) && m <= |order|
  {
    && |s.callbacks| == |c.nodes| && s.phase.Iterating? && s.holder.None? && |s.out| == m
    && (forall l :: 0 <= l < m ==> s.out[l] == PingResult(c.nodes[order[l]]))
    && (forall i :: 0 <= i < |c.nodes| ==> s.callbacks[i] == if i in order[..m] then Over else Started)
  }

  lemma {:induction false} AppendInOrder(c: Cluster, order: seq<nat>, m: nat) returns (steps: seq<Step>)
    requires Ordering(order, |c.nodes|) && m <= |order|
    ensures Exec(c, true, steps).Some? && AppendedSoFar(c, Exec(c, true, steps).value, order, m)
  {
    if m == 0 {
      steps := [];
    } else {
      var before := AppendInOrder(c, order, m - 1);
      assert order[..m] == order[..m - 1] + [order[m - 1]];
      steps := Undisturbed(c, true, before, order[m - 1]);
    }
  }

  /** The converse: in whatever order the nodes are listed, some schedule returns their results in that order. */
  lemma {:induction false} AnyOrderOccurs(c: Cluster, order: seq<nat>)
    returns (steps: seq<Step>, results: seq<Result>)
    requires Ordering(order, |c.nodes|)
    requires c.nodes != [] || c.error.None?
    ensures Returns(c, steps, results) && |results| == |order|
    ensures forall m :: 0 <= m < |order| ==> Carries(results[m], c.nodes[order[m]])
  {
    steps := AppendInOrder(c, order, |order|);
    assert order[..|order|] == order;
    results := Exec(c, true, steps).value.out;
    assert c.nodes != [] ==> 0 in order;
    ExecSnoc(c, true, steps, EndForEach);
    ExecSnoc(c, true, steps + [EndForEach], Report);
    steps := steps + [EndForEach] + [Report];
  }

  // ----- progress and termination

  function CallbackWork(pc: CallbackPc): nat {
    match pc
    case Started => 5
    case Pinged => 4
    case Locked => 3
    case Read(_) => 2
    case Stored => 1
    case Over => 0
  }

  function CallbacksWork(callbacks: seq<CallbackPc>): nat {
    if callbacks == [] then 0
    else CallbacksWork(callbacks[..|callbacks| - 1]) + CallbackWork(callbacks[|callbacks| - 1])
  }

  lemma {:induction false} WorkUpdate(callbacks: seq<CallbackPc>, i: nat, pc: CallbackPc)
    requires i < |callbacks|
    ensures CallbacksWork(callbacks[i := pc])
         == CallbacksWork(callbacks) - CallbackWork(callbacks[i]) + CallbackWork(pc)
  {
    var n := |callbacks| - 1;
    if i == n {
      assert callbacks[i := pc][..n] == callbacks[..n];
    } else {
      assert callbacks[i := pc][..n] == callbacks[..n][i := pc];
      WorkUpdate(callbacks[..n], i, pc);
    }
  }

  function PhaseWork(phase: Phase): nat {
    match phase
    case Iterating => 2
    case Yielded => 1
    case Reported(_) => 0
  }

  function Work(s: State): nat {
    PhaseWork(s.phase) + CallbacksWork(s.callbacks)
  }

  /** Every step uses up one unit of work, so no schedule runs forever. */
  lemma StepSpendsWork(c: Cluster, mutex: bool, s: State, step: Step)
    requires Shaped(c, s) && Enabled(c, mutex, s, step)
    ensures Work(Apply(c, mutex, s, step)) == Work(s) - 1
  {
    match step
    case Ping(i) => WorkUpdate(s.callbacks, i, Pinged);
    case Lock(i) => WorkUpdate(s.callbacks, i, Locked);
    case ReadOut(i) => WorkUpdate(s.callbacks, i, Read(s.out));
    case WriteOut(i) => WorkUpdate(s.callbacks, i, Stored);
    case Unlock(i) => WorkUpdate(s.callbacks, i, Over);
    case _ =>
  }

  /** Until the check has reported, some step is enabled: the lock is never held by a callback that cannot move. */
  lemma Progress(c: Cluster, steps: seq<Step>) returns (step: Step)
    requires Exec(c, true, steps).Some? && !Exec(c, true, steps).value.phase.Reported?
    ensures Enabled(c, true, Exec(c, true, steps).value, step)
  {
    ReachableInv(c, steps);
    var s := Exec(c, true, steps).value;
    if s.phase.Yielded? {
      step := Report;
    } else if s.holder.Some? {
      var i := s.holder.value;
      assert Critical(s.callbacks[i]);
      step := if s.callbacks[i].Locked? then ReadOut(i) else if s.callbacks[i].Read? then WriteOut(i) else Unlock(i);
    } else if i :| 0 <= i < |c.nodes| && !s.callbacks[i].Over? {
      step := if s.callbacks[i].Started? then Ping(i) else Lock(i);
    } else {
      step := EndForEach;
    }
  }

  lemma {:induction false} FreshWork(n: nat)
    ensures CallbacksWork(seq(n, _ => Started)) == 5 * n
  {
    if n == 0 {
    } else {
      FreshWork(n - 1);
      assert seq(n, _ => Started)[..n - 1] == seq(n - 1, _ => Started);
    }
  }

  /** The steps of a whole run: five of every callback, the return of `forEach`, and the report. */
  function TotalWork(c: Cluster): nat {
    5 * |c.nodes| + 2
  }

  /** Steps taken plus work left is constant along every schedule, with or without the lock. */
  lemma {:induction false} WorkConserved(c: Cluster, mutex: bool, steps: seq<Step>)
    requires Exec(c, mutex, steps).Some?
    ensures |steps| + Work(Exec(c, mutex, steps).value) == TotalWork(c)
  {
    if steps == [] {
      FreshWork(|c.nodes|);
    } else {
      var last := |steps| - 1;
      WorkConserved(c, mutex, steps[..last]);
      StepSpendsWork(c, mutex, Exec(c, mutex, steps[..last]).value, steps[last]);
    }
  }

  predicate HasReported(c: Cluster, steps: seq<Step>) {
    Exec(c, true, steps).Some? && Exec(c, true, steps).value.phase.Reported?
  }

  lemma {:induction false} NoneLeft(callbacks: seq<CallbackPc>)
    requires forall i :: 0 <= i < |callbacks| ==> callbacks[i].Over?
    ensures CallbacksWork(callbacks) == 0
  {
    if callbacks == [] {
    } else {
      NoneLeft(callbacks[..|callbacks| - 1]);
    }
  }

  /** So no schedule exceeds the bound, and those that reach it are the ones that have reported. */
  lemma ReportedIffWorkDone(c: Cluster, steps: seq<Step>)
    requires Exec(c, true, steps).Some?
    ensures |steps| <= TotalWork(c)
    ensures HasReported(c, steps) <==> |steps| == TotalWork(c)
  {
    ReachableInv(c, steps);
    WorkConserved(c, true, steps);
    if HasReported(c, steps) {
      NoneLeft(Exec(c, true, steps).value.callbacks);
    }
  }

  lemma {:induction false} StepOn(c: Cluster, steps: seq<Step>) returns (step: Step)
    requires Exec(c, true, steps).Some? && !HasReported(c, steps)
    ensures Exec(c, true, steps + [step]).Some? && |steps| < TotalWork(c)
  {
    step := Progress(c, steps);
    ExecSnoc(c, true, steps, step);
    WorkConserved(c, true, steps + [step]);
  }

  /** Every partial schedule of the callbacks is a prefix of one that reports. */
  lemma {:induction false} Completes(c: Cluster, steps: seq<Step>) returns (all: seq<Step>)
    requires Exec(c, true, steps).Some?
    ensures steps <= all && HasReported(c, all)
    decreases TotalWork(c) - |steps|
  {
    if HasReported(c, steps) {
      all := steps;
    } else {
      var step := StepOn(c, steps);
      all := Completes(c, steps + [step]);
    }
  }

  /** The check's `Run`: callbacks interleave in any way the scheduler likes. */
  method ClusterRun(c: Cluster) returns (results: seq<Result>)
    ensures c.nodes != [] || c.error.None? ==> OnePerNode(results, c.nodes)
    ensures c.nodes == [] && c.error.Some? ==> OnlyFailure(results, c.error.value)
    ensures multiset(results) == multiset(Owed(c))
    ensures exists steps :: Returns(c, steps, results)
  {
    var s := Init(c);
    ghost var steps: seq<Step> := [];
    while !s.phase.Reported?
      invariant Exec(c, true, steps) == Some(s)
      decreases Work(s)
    {
      ghost var some := Progress(c, steps);
      var step :| Enabled(c, true, s, step);
      ExecSnoc(c, true, steps, step);
      StepSpendsWork(c, true, s, step);
      s := Apply(c, true, s, step);
      steps := steps + [step];
    }
    results := s.phase.results;
    assert Returns(c, steps, results);
    ReturnsWhatIsOwed(c, steps, results);
    ReturnsOnePerNode(c, steps, results);
  }

  // ----- why the lock is there

  /** Two callbacks both take the lock that is not there, and both read before either writes. */
  lemma BothRead(c: Cluster) returns (steps: seq<Step>)
    requires |c.nodes| >= 2
    ensures Exec(c, false, steps)
         == Some(State(Iterating, Init(c).callbacks[0 := Read([])][1 := Read([])], Some(1), []))
  {
    var start := Init(c).callbacks;
    ExecSnoc(c, false, [], Ping(0));
    ExecSnoc(c, false, [] + [Ping(0)], Ping(1));
    steps := [] + [Ping(0)] + [Ping(1)];
    ExecSnoc(c, false, steps, Lock(0));
    ExecSnoc(c, false, steps + [Lock(0)], Lock(1));
    steps := steps + [Lock(0)] + [Lock(1)];
    assert Exec(c, false, steps).value.callbacks == start[0 := Locked][1 := Locked];
    ExecSnoc(c, false, steps, ReadOut(0));
    ExecSnoc(c, false, steps + [ReadOut(0)], ReadOut(1));
    steps := steps + [ReadOut(0)] + [ReadOut(1)];
    assert Exec(c, false, steps).value.callbacks == start[0 := Read([])][1 := Read([])];
  }

  lemma BothOver(c: Cluster) returns (steps: seq<Step>)
    requires |c.nodes| >= 2
    ensures Exec(c, false, steps)
         == Some(State(Iterating, Init(c).callbacks[0 := Over][1 := Over], None, [PingResult(c.nodes[1])]))
  {
    steps := BothRead(c);
    ExecSnoc(c, false, steps, WriteOut(0));
    ExecSnoc(c, false, steps + [WriteOut(0)], WriteOut(1));
    steps := steps + [WriteOut(0)] + [WriteOut(1)];
    assert Exec(c, false, steps).value.out == [PingResult(c.nodes[1])];
    ExecSnoc(c, false, steps, Unlock(0));
    ExecSnoc(c, false, steps + [Unlock(0)], Unlock(1));
    steps := steps + [Unlock(0)] + [Unlock(1)];
    assert Exec(c, false, steps).value.callbacks == Init(c).callbacks[0 := Over][1 := Over];
  }

  /** The callbacks below `k` are over, the others have not moved, and the first result is gone. */
  ghost predicate FirstLost(c: Cluster, s: State, k: nat) {
    && 2 <= k <= |c.nodes| == |s.callbacks| && s.phase.Iterating?
    && s.out == PingResults(c.nodes[1..k])
    && (forall i :: 0 <= i < |c.nodes| ==> s.callbacks[i] == if i < k then Over else Started)
  }

  lemma {:induction false} RestOver(c: Cluster, k: nat) returns (steps: seq<Step>)
    requires 2 <= k <= |c.nodes|
    ensures Exec(c, false, steps).Some? && FirstLost(c, Exec(c, false, steps).value, k)
  {
    if k == 2 {
      steps := BothOver(c);
      assert PingResults(c.nodes[1..2]) == [PingResult(c.nodes[1])];
    } else {
      var before := RestOver(c, k - 1);
      steps := Undisturbed(c, false, before, k - 1);
      FirstLostStep(c, Exec(c, false, before).value, k);
    }
  }

  lemma FirstLostStep(c: Cluster, s: State, k: nat)
    requires 2 < k <= |c.nodes| && FirstLost(c, s, k - 1)
    ensures FirstLost(c, State(s.phase, s.callbacks[k - 1 := Over], None, s.out + [PingResult(c.nodes[k - 1])]), k)
  {
    assert PingResults(c.nodes[1..k]) == PingResults(c.nodes[1..k - 1]) + [PingResult(c.nodes[k - 1])];
  }

  /** Without the lock, a cluster of two or more nodes can be reported with one node missing. */
  lemma LostUpdateWithoutLock(c: Cluster) returns (steps: seq<Step>)
    requires |c.nodes| >= 2
    ensures Exec(c, false, steps).Some?
    ensures Exec(c, false, steps).value.phase == Reported(PingResults(c.nodes[1..]))
  {
    steps := RestOver(c, |c.nodes|);
    assert c.nodes[1..|c.nodes|] == c.nodes[1..];
    ExecSnoc(c, false, steps, EndForEach);
    ExecSnoc(c, false, steps + [EndForEach], Report);
    steps := steps + [EndForEach] + [Report];
  }

  /** A lone callback never finds the lock taken. */
  lemma LoneCallbackFindsItFree(c: Cluster, s: State, step: Step)
    requires |c.nodes| <= 1 && Inv(c, s) && Enabled(c, false, s, step)
    ensures Enabled(c, true, s, step)
  {
    if step.Lock? {
      assert !Critical(s.callbacks[0]);
    }
  }

  /** So dropping the lock allows a lone callback nothing new. */
  lemma {:induction false} LoneCallbackNeedsNoLock(c: Cluster, steps: seq<Step>)
    requires |c.nodes| <= 1 && Exec(c, false, steps).Some?
    ensures Exec(c, true, steps) == Exec(c, false, steps)
  {
    if steps == [] {
    } else {
      var last := |steps| - 1;
      LoneCallbackNeedsNoLock(c, steps[..last]);
      ReachableInv(c, steps[..last]);
      LoneCallbackFindsItFree(c, Exec(c, false, steps[..last]).value, steps[last]);
    }
  }

  /** Some schedule without the lock reports other results than those owed. */
  ghost predicate CanGoWrong(c: Cluster) {
    exists steps, results ::
      && Exec(c, false, steps).Some? && Exec(c, false, steps).value.phase == Reported(results)
      && multiset(results) != multiset(Owed(c))
  }

  /** The lock is needed exactly when the cluster has at least two nodes. */
  lemma LockNeededIffTwoNodes(c: Cluster)
    ensures CanGoWrong(c) <==> |c.nodes| >= 2
  {
    if |c.nodes| >= 2 {
      var steps := LostUpdateWithoutLock(c);
      var results := PingResults(c.nodes[1..]);
      assert |multiset(results)| == |results| < |Owed(c)| == |multiset(Owed(c))|;
    } else {
      forall steps, results | Exec(c, false, steps).Some? && Exec(c, false, steps).value.phase == Reported(results)
        ensures multiset(results) == multiset(Owed(c))
      {
        LoneCallbackNeedsNoLock(c, steps);
        ReturnsWhatIsOwed(c, steps, results);
      }
    }
  }
}
