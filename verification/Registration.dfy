/**
 The registration state machine (Register*, core/engine.go): three slices
 mutated in step, behind a guard on the reserved name.
 */
module Registration {
  import opened HealthTypes
  import opened Conversion
  import opened Grouping
  import opened Aggregation
  import opened HttpStatus
  import opened Sequential

  /** Which Register method is called. */
  datatype Scope = Health | Readiness | Liveness

  datatype Call = Call(scope: Scope, check: Check)

  datatype Slices = Slices(livez: seq<Check>, readyz: seq<Check>, healthz: seq<Check>)

  datatype Endpoint = Livez | Readyz | Healthz

  const EMPTY: Slices := Slices([], [], [])

  function SliceFor(s: Slices, e: Endpoint): seq<Check> {
    match e
    case Livez => s.livez
    case Readyz => s.readyz
    case Healthz => s.healthz
  }

  /** One call; a reserved name panics and leaves the slices alone. */
  function Register(s: Slices, call: Call): Slices {
    if call.check.name == SYSTEM_TIME then s
    else match call.scope
      case Health =>
        s.(healthz := s.healthz + [call.check])
      case Readiness =>
        s.(healthz := s.healthz + [call.check], readyz := s.readyz + [call.check])
      case Liveness =>
        Slices(s.livez + [call.check], s.readyz + [call.check], s.healthz + [call.check])
  }

  /** The slices after a sequence of calls. */
  function After(calls: seq<Call>): Slices {
    if calls == [] then EMPTY
    else Register(After(calls[..|calls| - 1]), calls[|calls| - 1])
  }

  // ----- the cascade

  /** The documented scope of each endpoint. */
  predicate InScope(scope: Scope, e: Endpoint) {
    match e
    case Livez => scope.Liveness?
    case Readyz => scope.Liveness? || scope.Readiness?
    case Healthz => true
  }

  /** The call was accepted, and its check runs on endpoint `e`. */
  predicate Admits(call: Call, e: Endpoint) {
    call.check.name != SYSTEM_TIME && InScope(call.scope, e)
  }

  /** The checks of the calls admitted to `e`, in registration order, duplicates kept. */
  function Scoped(calls: seq<Call>, e: Endpoint): seq<Check> {
    if calls == [] then []
    else
      var last := calls[|calls| - 1];
      Scoped(calls[..|calls| - 1], e) + if Admits(last, e) then [last.check] else []
  }

  /** After any sequence of calls each slice is the registration log filtered by scope,
      and no stored check uses the reserved name. */
  lemma {:induction false} Cascade(calls: seq<Call>, e: Endpoint)
    ensures SliceFor(After(calls), e) == Scoped(calls, e)
    ensures forall c :: c in SliceFor(After(calls), e) ==> c.name != SYSTEM_TIME
  {
    if calls == [] {
    } else {
      Cascade(calls[..|calls| - 1], e);
    }
  }

  // ----- probes over a registration log

  /** The probe of endpoint `e` after `calls`, when the `Run` registered by call `i` returns `outcomes[i]`. */
  function ProbeOf(calls: seq<Call>, outcomes: seq<seq<Result>>, e: Endpoint): (p: Probe)
    requires |calls| == |outcomes|
    ensures p.WellFormed()
  {
    if calls == [] then Probe([], [])
    else
      var n := |calls| - 1;
      var front := ProbeOf(calls[..n], outcomes[..n], e);
      if Admits(calls[n], e) then Extend(front, calls[n].check, outcomes[n]) else front
  }

  lemma {:induction false} ProbeRunsTheSlice(calls: seq<Call>, outcomes: seq<seq<Result>>, e: Endpoint)
    requires |calls| == |outcomes|
    ensures ProbeOf(calls, outcomes, e).checks == SliceFor(After(calls), e)
  {
    if calls == [] {
    } else {
      var n := |calls| - 1;
      ProbeRunsTheSlice(calls[..n], outcomes[..n], e);
    }
  }

  /** Each call admitted to the endpoint is in its probe, behind the admitted calls before it, with its own outcome. */
  lemma {:induction false} ProbeHolds(calls: seq<Call>, outcomes: seq<seq<Result>>, e: Endpoint, i: nat)
    requires i < |calls| == |outcomes| && Admits(calls[i], e)
    ensures var p, at := ProbeOf(calls, outcomes, e), |Scoped(calls[..i], e)|;
            at < |p.checks| && p.checks[at] == calls[i].check && p.outcomes[at] == outcomes[i]
  {
    var n := |calls| - 1;
    var front := ProbeOf(calls[..n], outcomes[..n], e);
    if i == n {
      ProbeRunsTheSlice(calls[..n], outcomes[..n], e);
      Cascade(calls[..n], e);
    } else {
      assert calls[..n][..i] == calls[..i];
      ProbeHolds(calls[..n], outcomes[..n], e, i);
    }
  }

  /** Outcomes outside the endpoint's scope do not reach the probe, whatever names they share. */
  lemma {:induction false} OnlyScopeMatters(calls: seq<Call>, o1: seq<seq<Result>>, o2: seq<seq<Result>>, e: Endpoint)
    requires |calls| == |o1| == |o2|
    requires forall i :: 0 <= i < |calls| && Admits(calls[i], e) ==> o1[i] == o2[i]
    ensures ProbeOf(calls, o1, e) == ProbeOf(calls, o2, e)
  {
    if calls == [] {
    } else {
      var n := |calls| - 1;
      OnlyScopeMatters(calls[..n], o1[..n], o2[..n], e);
    }
  }

  // ----- containment between endpoints

  /** Every scope of `inner` is a scope of `outer`: livez within readyz within healthz. */
  predicate Within(inner: Endpoint, outer: Endpoint) {
    inner == outer || inner.Livez? || outer.Healthz?
  }

  /** `a` sits inside `b` at the strictly increasing positions `at`. */
  ghost predicate EmbedsAt(a: seq<ComponentStatus>, b: seq<ComponentStatus>, at: seq<nat>) {
    && |at| == |a|
    && (forall i :: 0 <= i < |a| ==> at[i] < |b| && a[i] == b[at[i]])
    && (forall i, j :: 0 <= i < j < |at| ==> at[i] < at[j])
  }

  /** `a` is an order-preserving subsequence of `b`. */
  ghost predicate Subsequence(a: seq<ComponentStatus>, b: seq<ComponentStatus>) {
    exists at :: EmbedsAt(a, b, at)
  }

  lemma SubsequenceSelf(a: seq<ComponentStatus>)
    ensures Subsequence(a, a)
  {
    assert EmbedsAt(a, a, seq(|a|, i => i));
  }

  lemma SubsequenceGrows(a: seq<ComponentStatus>, b: seq<ComponentStatus>, x: seq<ComponentStatus>)
    requires Subsequence(a, b)
    ensures Subsequence(a, b + x) && Subsequence(a + x, b + x)
  {
    var at :| EmbedsAt(a, b, at);
    assert EmbedsAt(a, b + x, at);
    var more := at + seq(|x|, i requires 0 <= i < |x| => |b| + i);
    assert EmbedsAt(a + x, b + x, more);
  }

  /** What `p` reports under `key` is an order-preserving subsequence of what `q` does. */
  ghost predicate Nested(p: Probe, q: Probe, key: string)
    requires p.WellFormed() && q.WellFormed()
  {
    Subsequence(Lookup(Expected(p), key), Lookup(Expected(q), key))
  }

  /** Nesting survives a check that runs on both endpoints, or on the wider one only. */
  lemma NestedExtend(p: Probe, q: Probe, c: Check, returned: seq<Result>, key: string)
    requires p.WellFormed() && q.WellFormed() && Nested(p, q, key)
    ensures Nested(p, Extend(q, c, returned), key)
    ensures Nested(Extend(p, c, returned), Extend(q, c, returned), key)
  {
    var x := RunOneEntries(c, returned, 0);
    ExpectedExtend(p, c, returned);
    ExpectedExtend(q, c, returned);
    AppendAt(Expected(p), c.name, x, key);
    AppendAt(Expected(q), c.name, x, key);
    SubsequenceGrows(Lookup(Expected(p), key), Lookup(Expected(q), key), x);
  }

  /** With outcomes held fixed, what an endpoint reports under a key is an order-preserving
      subsequence of what a wider endpoint reports under it. */
  lemma {:induction false} Containment(calls: seq<Call>, outcomes: seq<seq<Result>>, inner: Endpoint,
                                       outer: Endpoint, key: string)
    requires |calls| == |outcomes| && Within(inner, outer)
    ensures Nested(ProbeOf(calls, outcomes, inner), ProbeOf(calls, outcomes, outer), key)
  {
    var p', q' := ProbeOf(calls, outcomes, inner), ProbeOf(calls, outcomes, outer);
    if calls == [] {
      SubsequenceSelf(Lookup(Expected(p'), key));
    } else {
      var n := |calls| - 1;
      var p, q := ProbeOf(calls[..n], outcomes[..n], inner), ProbeOf(calls[..n], outcomes[..n], outer);
      Containment(calls[..n], outcomes[..n], inner, outer, key);
      NestedExtend(p, q, calls[n].check, outcomes[n], key);
      assert q' == q ==> p' == p;
      assert p' == p || p' == Extend(p, calls[n].check, outcomes[n]);
      assert q' == q || q' == Extend(q, calls[n].check, outcomes[n]);
    }
  }

  lemma ContainmentOfStatus(m1: ChecksMap, m2: ChecksMap, st: Status)
    requires forall key :: Subsequence(Lookup(m1, key), Lookup(m2, key))
    ensures AnyStatus(m1, st) ==> AnyStatus(m2, st)
  {
    if key, i :| key in m1 && 0 <= i < |m1[key]| && m1[key][i].status == st {
      assert Subsequence(Lookup(m1, key), Lookup(m2, key));
      var at :| EmbedsAt(Lookup(m1, key), Lookup(m2, key), at);
      assert Lookup(m1, key)[i] == Lookup(m2, key)[at[i]];
      assert key in m2 && m2[key][at[i]].status == st;
    }
  }

  /** The wider the endpoint, the worse its status: livez <= readyz <= healthz. */
  lemma {:induction false} SeverityGrowsOutward(calls: seq<Call>, outcomes: seq<seq<Result>>, inner: Endpoint,
                                                outer: Endpoint)
    requires |calls| == |outcomes| && Within(inner, outer)
    ensures Severity(Overall(Expected(ProbeOf(calls, outcomes, inner))))
         <= Severity(Overall(Expected(ProbeOf(calls, outcomes, outer))))
  {
    var m1, m2 := Expected(ProbeOf(calls, outcomes, inner)), Expected(ProbeOf(calls, outcomes, outer));
    forall key ensures Subsequence(Lookup(m1, key), Lookup(m2, key)) {
      Containment(calls, outcomes, inner, outer, key);
    }
    ContainmentOfStatus(m1, m2, Fail);
    ContainmentOfStatus(m1, m2, Warn);
  }

  // ----- which registrations decide the status

  /** Some check in the scope of `e` observed `st`. */
  ghost predicate ObservedInScope(calls: seq<Call>, outcomes: seq<seq<Result>>, e: Endpoint, st: Status)
    requires |calls| == |outcomes|
  {
    exists i :: 0 <= i < |calls| && Admits(calls[i], e) && Observes(calls[i].check, outcomes[i], st)
  }

  lemma {:induction false} ScopeDecides(calls: seq<Call>, outcomes: seq<seq<Result>>, e: Endpoint, st: Status)
    requires |calls| == |outcomes|
    ensures Observed(ProbeOf(calls, outcomes, e), st) <==> ObservedInScope(calls, outcomes, e, st)
  {
    if calls == [] {
    } else {
      var n := |calls| - 1;
      ScopeDecides(calls[..n], outcomes[..n], e, st);
      ObservedExtend(ProbeOf(calls[..n], outcomes[..n], e), calls[n].check, outcomes[n], st);
      ObservedInScopeSnoc(calls, outcomes, e, st);
    }
  }

  lemma ObservedInScopeSnoc(calls: seq<Call>, outcomes: seq<seq<Result>>, e: Endpoint, st: Status)
    requires |calls| == |outcomes| > 0
    ensures var n := |calls| - 1;
            ObservedInScope(calls, outcomes, e, st) <==>
            ObservedInScope(calls[..n], outcomes[..n], e, st)
            || (Admits(calls[n], e) && Observes(calls[n].check, outcomes[n], st))
  {
    var n := |calls| - 1;
    if i :| 0 <= i < n && Admits(calls[..n][i], e) && Observes(calls[..n][i].check, outcomes[..n][i], st) {
      assert Admits(calls[i], e) && Observes(calls[i].check, outcomes[i], st);
    }
    if i :| 0 <= i < |calls| && Admits(calls[i], e) && Observes(calls[i].check, outcomes[i], st) {
      if i < n {
        assert Admits(calls[..n][i], e) && Observes(calls[..n][i].check, outcomes[..n][i], st);
      }
    }
  }

  /** The status of an endpoint, read off the registration log. */
  lemma {:induction false} StatusFromLog(calls: seq<Call>, outcomes: seq<seq<Result>>, e: Endpoint)
    requires |calls| == |outcomes|
    ensures Overall(Expected(ProbeOf(calls, outcomes, e)))
         == Rule(ObservedInScope(calls, outcomes, e, Fail), ObservedInScope(calls, outcomes, e, Warn))
  {
    var p := ProbeOf(calls, outcomes, e);
    StatusesAreObserved(p, Fail);
    StatusesAreObserved(p, Warn);
    ScopeDecides(calls, outcomes, e, Fail);
    ScopeDecides(calls, outcomes, e, Warn);
  }

  /** `o2` is `o1` with some observations made worse. */
  predicate Worsened(o1: seq<seq<Result>>, o2: seq<seq<Result>>) {
    && |o1| == |o2|
    && (forall i :: 0 <= i < |o1| ==> |o1[i]| == |o2[i]|)
    && (forall i, j :: 0 <= i < |o1| && 0 <= j < |o1[i]| ==> Severity(o1[i][j].status) <= Severity(o2[i][j].status))
  }

  lemma WorsenedObserves(calls: seq<Call>, o1: seq<seq<Result>>, o2: seq<seq<Result>>, e: Endpoint, st: Status)
    requires |calls| == |o1| && Worsened(o1, o2) && (st == Fail || st == Warn)
    requires ObservedInScope(calls, o1, e, st)
    ensures ObservedInScope(calls, o2, e, Fail) || ObservedInScope(calls, o2, e, st)
  {
    var i :| 0 <= i < |calls| && Admits(calls[i], e) && Observes(calls[i].check, o1[i], st);
    var c := calls[i].check;
    if c.run.NilRun? {
      assert Observes(c, o2[i], Fail);
    } else {
      var j :| 0 <= j < |o1[i]| && o1[i][j].status == st;
      assert Severity(st) <= Severity(o2[i][j].status);
      assert Observes(c, o2[i], o2[i][j].status);
    }
  }

  /** Making observations worse never improves any endpoint. */
  lemma {:induction false} WorseNeverHelps(calls: seq<Call>, o1: seq<seq<Result>>, o2: seq<seq<Result>>, e: Endpoint)
    requires |calls| == |o1| && Worsened(o1, o2)
    ensures Severity(Overall(Expected(ProbeOf(calls, o1, e)))) <= Severity(Overall(Expected(ProbeOf(calls, o2, e))))
  {
    StatusFromLog(calls, o1, e);
    StatusFromLog(calls, o2, e);
    if ObservedInScope(calls, o1, e, Fail) {
      WorsenedObserves(calls, o1, o2, e, Fail);
    }
    if ObservedInScope(calls, o1, e, Warn) {
      WorsenedObserves(calls, o1, o2, e, Warn);
    }
  }

  /** Further registrations never improve any endpoint. */
  lemma {:induction false} MoreNeverHelps(calls: seq<Call>, outcomes: seq<seq<Result>>, m: nat, e: Endpoint)
    requires m <= |calls| == |outcomes|
    ensures Severity(Overall(Expected(ProbeOf(calls[..m], outcomes[..m], e))))
         <= Severity(Overall(Expected(ProbeOf(calls, outcomes, e))))
  {
    StatusFromLog(calls[..m], outcomes[..m], e);
    StatusFromLog(calls, outcomes, e);
    forall st ensures ObservedInScope(calls[..m], outcomes[..m], e, st) ==> ObservedInScope(calls, outcomes, e, st) {
      if i :| 0 <= i < m && Admits(calls[..m][i], e) && Observes(calls[..m][i].check, outcomes[..m][i], st) {
        assert Admits(calls[i], e) && Observes(calls[i].check, outcomes[i], st);
      }
    }
  }

  // ----- which registrations decide the keys

  /** Some check called `name` in the scope of `e` reported something. */
  ghost predicate ReportedInScope(calls: seq<Call>, outcomes: seq<seq<Result>>, e: Endpoint, name: string)
    requires |calls| == |outcomes|
  {
    exists i :: 0 <= i < |calls| && Admits(calls[i], e) && calls[i].check.name == name
      && (calls[i].check.run.NilRun? || outcomes[i] != [])
  }

  lemma ReportedInScopeSnoc(calls: seq<Call>, outcomes: seq<seq<Result>>, e: Endpoint, name: string)
    requires |calls| == |outcomes| > 0
    ensures var n := |calls| - 1;
            ReportedInScope(calls, outcomes, e, name) <==>
            ReportedInScope(calls[..n], outcomes[..n], e, name)
            || (Admits(calls[n], e) && calls[n].check.name == name
                && (calls[n].check.run.NilRun? || outcomes[n] != []))
  {
    var n := |calls| - 1;
    if i :| 0 <= i < |calls| && Admits(calls[i], e) && calls[i].check.name == name
            && (calls[i].check.run.NilRun? || outcomes[i] != []) {
      if i < n {
        assert Admits(calls[..n][i], e) && (calls[..n][i].check.run.NilRun? || outcomes[..n][i] != []);
      }
    }
    if i :| 0 <= i < n && Admits(calls[..n][i], e) && calls[..n][i].check.name == name
            && (calls[..n][i].check.run.NilRun? || outcomes[..n][i] != []) {
      assert Admits(calls[i], e) && (calls[i].check.run.NilRun? || outcomes[i] != []);
    }
  }

  /** The keys of an endpoint's response, read off the registration log. */
  lemma {:induction false} KeysFromLog(calls: seq<Call>, outcomes: seq<seq<Result>>, e: Endpoint, name: string)
    requires |calls| == |outcomes|
    ensures name in Expected(ProbeOf(calls, outcomes, e)) <==>
            name == SYSTEM_TIME || ReportedInScope(calls, outcomes, e, name)
  {
    if calls == [] {
    } else {
      var n := |calls| - 1;
      var c, front := calls[n].check, ProbeOf(calls[..n], outcomes[..n], e);
      KeysFromLog(calls[..n], outcomes[..n], e, name);
      ReportedInScopeSnoc(calls, outcomes, e, name);
      ExpectedExtend(front, c, outcomes[n]);
      AppendAt(Expected(front), c.name, RunOneEntries(c, outcomes[n], 0), name);
      EntriesAreFaithful(c, outcomes[n], 0);
    }
  }

  // ----- permuted outcomes, renamed checks

  /** Outcomes that differ only in order give probes that differ only in order. */
  lemma {:induction false} ProbePermutes(calls: seq<Call>, o1: seq<seq<Result>>, o2: seq<seq<Result>>, e: Endpoint)
    requires |calls| == |o1| == |o2|
    requires forall i :: 0 <= i < |calls| ==> multiset(o1[i]) == multiset(o2[i])
    ensures var p, q := ProbeOf(calls, o1, e), ProbeOf(calls, o2, e);
            && p.checks == q.checks
            && forall i :: 0 <= i < |p.outcomes| ==> multiset(p.outcomes[i]) == multiset(q.outcomes[i])
  {
    if calls == [] {
    } else {
      var n := |calls| - 1;
      ProbePermutes(calls[..n], o1[..n], o2[..n], e);
    }
  }

  /** The call with its check renamed; a call that panics stays one that panics. */
  function RenamedCall(call: Call, f: string -> string): Call {
    if call.check.name == SYSTEM_TIME then call
    else call.(check := call.check.(name := f(call.check.name)))
  }

  function RenamedCalls(calls: seq<Call>, f: string -> string): (r: seq<Call>)
    ensures |r| == |calls|
    ensures forall i :: 0 <= i < |calls| ==> r[i] == RenamedCall(calls[i], f)
  {
    seq(|calls|, i requires 0 <= i < |calls| => RenamedCall(calls[i], f))
  }

  /** No accepted check is renamed to the reserved name. */
  ghost predicate KeepsAccepted(calls: seq<Call>, f: string -> string) {
    forall i :: 0 <= i < |calls| && calls[i].check.name != SYSTEM_TIME ==> f(calls[i].check.name) != SYSTEM_TIME
  }

  lemma RenamedExtend(p: Probe, c: Check, returned: seq<Result>, f: string -> string)
    requires p.WellFormed()
    ensures Renamed(Extend(p, c, returned), f) == Extend(Renamed(p, f), c.(name := f(c.name)), returned)
  {
    assert Renamed(Extend(p, c, returned), f).checks == Renamed(p, f).checks + [c.(name := f(c.name))];
  }

  /** Registering under other names gives the renamed probe. */
  lemma {:induction false} ProbeOfRenamed(calls: seq<Call>, outcomes: seq<seq<Result>>, e: Endpoint,
                                          f: string -> string)
    requires |calls| == |outcomes|
    requires KeepsAccepted(calls, f)
    ensures ProbeOf(RenamedCalls(calls, f), outcomes, e) == Renamed(ProbeOf(calls, outcomes, e), f)
  {
    if calls == [] {
    } else {
      var n := |calls| - 1;
      assert RenamedCalls(calls, f)[..n] == RenamedCalls(calls[..n], f);
      ProbeOfRenamed(calls[..n], outcomes[..n], e, f);
      RenamedExtend(ProbeOf(calls[..n], outcomes[..n], e), calls[n].check, outcomes[n], f);
    }
  }
}
