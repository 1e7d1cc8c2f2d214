/**
 One probe, specified sequentially: heartbeat, then every check in
 registration order. The concurrent runner of module ForkJoin refines this.
 */
module Sequential {
  import opened HealthTypes
  import opened Conversion
  import opened Grouping
  import opened Aggregation

  /** The checks of one invocation, and what each one's `Run` returns in it. */
  datatype Probe = Probe(checks: seq<Check>, outcomes: seq<seq<Result>>) {
    predicate WellFormed() { |checks| == |outcomes| }
  }

  /** The clock readings of one invocation: one for the heartbeat, one per check. */
  datatype Readings = Readings(heartbeat: Timestamp, tasks: seq<Timestamp>)

  function SlotOf(p: Probe, i: nat, now: Timestamp): seq<ComponentStatus>
    requires p.WellFormed() && i < |p.checks|
  {
    RunOneEntries(p.checks[i], p.outcomes[i], now)
  }

  function SlotsOf(p: Probe, times: seq<Timestamp>): (slots: Slots)
    requires p.WellFormed() && |times| == |p.checks|
    ensures |slots| == |p.checks|
    ensures forall i :: 0 <= i < |slots| ==> slots[i] == SlotOf(p, i, times[i])
  {
    seq(|p.checks|, i requires 0 <= i < |p.checks| => SlotOf(p, i, times[i]))
  }

  /** The map a probe returns when run sequentially with the given clock readings. */
  function SequentialMap(p: Probe, clock: Readings): ChecksMap
    requires p.WellFormed() && |clock.tasks| == |p.checks|
  {
    Grouped(Heartbeat(clock.heartbeat), p.checks, SlotsOf(p, clock.tasks))
  }

  function Zeros(n: nat): (times: seq<Timestamp>)
    ensures |times| == n && forall i :: 0 <= i < n ==> times[i] == 0
  {
    seq(n, _ => 0)
  }

  /** The map a probe returns, up to timestamps. */
  function Expected(p: Probe): ChecksMap
    requires p.WellFormed()
  {
    SequentialMap(p, Readings(0, Zeros(|p.checks|)))
  }

  lemma SequentialUntimed(p: Probe, clock: Readings)
    requires p.WellFormed() && |clock.tasks| == |p.checks|
    ensures UntimedMap(SequentialMap(p, clock)) == Expected(p)
    ensures Overall(SequentialMap(p, clock)) == Overall(Expected(p))
  {
    var slots := SlotsOf(p, clock.tasks);
    var bare := SlotsOf(p, Zeros(|p.checks|));
    forall i | 0 <= i < |slots| ensures UntimedList(slots[i]) == bare[i] {
      assert |UntimedList(slots[i])| == |bare[i]|;
      forall j | 0 <= j < |bare[i]| ensures UntimedList(slots[i])[j] == bare[i][j] {
      }
    }
    GroupedUntimed(Heartbeat(clock.heartbeat), p.checks, slots, bare);
    UntimedStatus(SequentialMap(p, clock));
  }

  // ----- one more check

  function Extend(p: Probe, c: Check, returned: seq<Result>): Probe {
    Probe(p.checks + [c], p.outcomes + [returned])
  }

  lemma {:induction false} SlotsExtend(p: Probe, c: Check, returned: seq<Result>)
    requires p.WellFormed()
    ensures var n := |p.checks|;
            SlotsOf(Extend(p, c, returned), Zeros(n + 1)) == SlotsOf(p, Zeros(n)) + [RunOneEntries(c, returned, 0)]
  {
    var a, b := SlotsOf(Extend(p, c, returned), Zeros(|p.checks| + 1)), SlotsOf(p, Zeros(|p.checks|));
    forall i | 0 <= i < |a| ensures a[i] == (b + [RunOneEntries(c, returned, 0)])[i] {
      assert i < |b| ==> b[i] == SlotOf(p, i, 0);
    }
  }

  lemma {:induction false} GroupedSnoc(heartbeat: ComponentStatus, checks: seq<Check>, slots: Slots,
                                       c: Check, list: seq<ComponentStatus>)
    requires |checks| == |slots|
    ensures Grouped(heartbeat, checks + [c], slots + [list]) == Append(Grouped(heartbeat, checks, slots), c.name, list)
  {
    assert (checks + [c])[..|checks|] == checks && (slots + [list])[..|slots|] == slots;
  }

  lemma {:induction false} ExpectedExtend(p: Probe, c: Check, returned: seq<Result>)
    requires p.WellFormed()
    ensures Expected(Extend(p, c, returned)) == Append(Expected(p), c.name, RunOneEntries(c, returned, 0))
  {
    SlotsExtend(p, c, returned);
    GroupedSnoc(Heartbeat(0), p.checks, SlotsOf(p, Zeros(|p.checks|)), c, RunOneEntries(c, returned, 0));
  }

  /** Some check of the probe observed status `st`; a nil `Run` counts as one observed failure. */
  ghost predicate Observed(p: Probe, st: Status)
    requires p.WellFormed()
  {
    exists i :: 0 <= i < |p.checks| && Observes(p.checks[i], p.outcomes[i], st)
  }

  lemma EntriesObserve(c: Check, returned: seq<Result>, now: Timestamp, st: Status)
    ensures AnyIn(RunOneEntries(c, returned, now), st) <==> Observes(c, returned, st)
  {
    var entries := RunOneEntries(c, returned, now);
    EntriesAreFaithful(c, returned, now);
    if j :| 0 <= j < |entries| && entries[j].status == st {
      assert EntryOf(entries[j], c, returned, j, now);
    }
    if Observes(c, returned, st) {
      var j :| 0 <= j < |entries| && (c.run.NilRun? || returned[j].status == st);
      assert EntryOf(entries[j], c, returned, j, now);
    }
  }

  /** A status other than pass is in the response exactly when some check observed it. */
  lemma {:induction false} StatusesAreObserved(p: Probe, st: Status)
    requires p.WellFormed()
    ensures AnyStatus(Expected(p), st) <==> st == Pass || Observed(p, st)
    decreases |p.checks|
  {
    if p.checks == [] {
      var base: ChecksMap := Expected(p);
      assert base[SYSTEM_TIME][0].status == Pass;
    } else {
      var n := |p.checks| - 1;
      var front := Probe(p.checks[..n], p.outcomes[..n]);
      assert p == Extend(front, p.checks[n], p.outcomes[n]);
      StatusesAreObserved(front, st);
      ExpectedExtend(front, p.checks[n], p.outcomes[n]);
      AppendStatus(Expected(front), p.checks[n].name, RunOneEntries(p.checks[n], p.outcomes[n], 0), st);
      EntriesObserve(p.checks[n], p.outcomes[n], 0, st);
      ObservedExtend(front, p.checks[n], p.outcomes[n], st);
    }
  }

  lemma ObservedExtend(p: Probe, c: Check, returned: seq<Result>, st: Status)
    requires p.WellFormed()
    ensures Observed(Extend(p, c, returned), st) <==> Observed(p, st) || Observes(c, returned, st)
  {
    var p' := Extend(p, c, returned);
    var n := |p.checks|;
    if i :| 0 <= i < n && Observes(p.checks[i], p.outcomes[i], st) {
      assert Observes(p'.checks[i], p'.outcomes[i], st);
    }
    if Observes(c, returned, st) {
      assert Observes(p'.checks[n], p'.outcomes[n], st);
    }
    if i :| 0 <= i < n + 1 && Observes(p'.checks[i], p'.outcomes[i], st) {
      assert i < n ==> Observes(p.checks[i], p.outcomes[i], st);
    }
  }

  // ----- every slot and every list, in terms of what the checks returned

  /** Slot `i` holds, in order, exactly what check `i` returned. */
  lemma {:induction false} SlotIsFaithful(p: Probe, times: seq<Timestamp>, i: nat)
    requires p.WellFormed() && |times| == |p.checks| && i < |p.checks|
    ensures |SlotsOf(p, times)[i]| == EntryCount(p.checks[i], p.outcomes[i])
    ensures forall j :: 0 <= j < EntryCount(p.checks[i], p.outcomes[i]) ==>
              EntryOf(SlotsOf(p, times)[i][j], p.checks[i], p.outcomes[i], j, times[i])
  {
    EntriesAreFaithful(p.checks[i], p.outcomes[i], times[i]);
  }

  /** How many entries the first `n` checks have together. */
  function EntryTotal(p: Probe, n: nat): nat
    requires n <= |p.checks| == |p.outcomes|
  {
    if n == 0 then 0 else EntryTotal(p, n - 1) + EntryCount(p.checks[n - 1], p.outcomes[n - 1])
  }

  /** How many entries those of the first `n` checks that are called `name` have together. */
  function Ahead(p: Probe, name: string, n: nat): nat
    requires n <= |p.checks| == |p.outcomes|
  {
    if n == 0 then 0
    else Ahead(p, name, n - 1) +
         if p.checks[n - 1].name == name then EntryCount(p.checks[n - 1], p.outcomes[n - 1]) else 0
  }

  /** Slot `i` has as many entries as check `i` returned. */
  ghost predicate Sized(p: Probe, slots: Slots) {
    && |p.checks| == |p.outcomes| == |slots|
    && forall i :: 0 <= i < |slots| ==> |slots[i]| == EntryCount(p.checks[i], p.outcomes[i])
  }

  lemma {:induction false} SlotsAreSized(p: Probe, times: seq<Timestamp>)
    requires p.WellFormed() && |times| == |p.checks|
    ensures Sized(p, SlotsOf(p, times))
  {
    forall i | 0 <= i < |p.checks| ensures |SlotsOf(p, times)[i]| == EntryCount(p.checks[i], p.outcomes[i]) {
      SlotIsFaithful(p, times, i);
    }
  }

  lemma {:induction false} LengthAhead(p: Probe, slots: Slots, name: string, n: nat)
    requires Sized(p, slots) && n <= |slots|
    ensures |EntriesFor(p.checks[..n], slots[..n], name)| == Ahead(p, name, n)
  {
    if n == 0 {
    } else {
      LengthAhead(p, slots, name, n - 1);
      EntriesForRound(p.checks, slots, name, n - 1);
    }
  }

  lemma {:induction false} SlotInPlace(p: Probe, slots: Slots, i: nat, j: nat)
    requires Sized(p, slots) && i < |slots| && j < |slots[i]|
    ensures var list := EntriesFor(p.checks, slots, p.checks[i].name);
            var at := Ahead(p, p.checks[i].name, i) + j;
            at < |list| && list[at] == slots[i][j]
  {
    var name := p.checks[i].name;
    LengthAhead(p, slots, name, i);
    EntriesForRound(p.checks, slots, name, i);
    EntriesForGrows(p.checks, slots, name, i + 1, |slots|);
    assert p.checks[..|slots|] == p.checks && slots[..|slots|] == slots;
  }

  lemma {:induction false} TotalOfSlots(p: Probe, slots: Slots, n: nat)
    requires Sized(p, slots) && n <= |slots|
    ensures TotalLength(slots[..n]) == EntryTotal(p, n)
  {
    if n == 0 {
    } else {
      TotalOfSlots(p, slots, n - 1);
      assert slots[..n][..n - 1] == slots[..n - 1];
    }
  }

  /** How many entries the heartbeat adds under `name`. */
  function HeartbeatAhead(name: string): nat {
    if name == SYSTEM_TIME then 1 else 0
  }

  /** The length of the list under a key. */
  lemma {:induction false} ListLength(p: Probe, clock: Readings, name: string)
    requires p.WellFormed() && |clock.tasks| == |p.checks|
    ensures |Lookup(SequentialMap(p, clock), name)| == HeartbeatAhead(name) + Ahead(p, name, |p.checks|)
  {
    var slots := SlotsOf(p, clock.tasks);
    GroupedLists(Heartbeat(clock.heartbeat), p.checks, slots, name);
    SlotsAreSized(p, clock.tasks);
    LengthAhead(p, slots, name, |p.checks|);
    assert p.checks[..|p.checks|] == p.checks && slots[..|slots|] == slots;
  }

  /** The heartbeat comes first under its key, and is alone there when no check uses the reserved name. */
  lemma {:induction false} HeartbeatFirst(p: Probe, clock: Readings)
    requires p.WellFormed() && |clock.tasks| == |p.checks|
    ensures var out := SequentialMap(p, clock);
            && SYSTEM_TIME in out && out[SYSTEM_TIME] != []
            && IsHeartbeat(out[SYSTEM_TIME][0], clock.heartbeat)
            && ((forall i :: 0 <= i < |p.checks| ==> p.checks[i].name != SYSTEM_TIME) ==> |out[SYSTEM_TIME]| == 1)
  {
    GroupedMeaning(Heartbeat(clock.heartbeat), p.checks, SlotsOf(p, clock.tasks), SYSTEM_TIME);
    HeartbeatAlone(Heartbeat(clock.heartbeat), p.checks, SlotsOf(p, clock.tasks));
  }

  /** The keys of the map. */
  lemma {:induction false} KeysOfProbe(p: Probe, clock: Readings, name: string)
    requires p.WellFormed() && |clock.tasks| == |p.checks|
    ensures name in SequentialMap(p, clock) <==>
            name == SYSTEM_TIME || exists i :: 0 <= i < |p.checks| && p.checks[i].name == name
                                     && (p.checks[i].run.NilRun? || p.outcomes[i] != [])
  {
    var slots := SlotsOf(p, clock.tasks);
    GroupedKeys(Heartbeat(clock.heartbeat), p.checks, slots, name);
    SlotsAreSized(p, clock.tasks);
    forall i | 0 <= i < |p.checks| ensures slots[i] != [] <==> p.checks[i].run.NilRun? || p.outcomes[i] != [] {
      assert |slots[i]| == EntryCount(p.checks[i], p.outcomes[i]);
    }
  }

  lemma {:induction false} InPlaceUnderKey(p: Probe, heartbeat: ComponentStatus, slots: Slots, i: nat, j: nat)
    requires Sized(p, slots) && i < |slots| && j < |slots[i]|
    ensures var list := Lookup(Grouped(heartbeat, p.checks, slots), p.checks[i].name);
            var at := HeartbeatAhead(p.checks[i].name) + Ahead(p, p.checks[i].name, i) + j;
            at < |list| && list[at] == slots[i][j]
  {
    GroupedLists(heartbeat, p.checks, slots, p.checks[i].name);
    SlotInPlace(p, slots, i, j);
  }

  /** Where each observation is: under its check's name, after the heartbeat if that is there, after
      everything checks of that name registered before it returned, in the order returned. */
  lemma {:induction false} EntryInPlace(p: Probe, clock: Readings, i: nat, j: nat)
    requires p.WellFormed() && |clock.tasks| == |p.checks| && i < |p.checks|
    requires j < EntryCount(p.checks[i], p.outcomes[i])
    ensures var list := Lookup(SequentialMap(p, clock), p.checks[i].name);
            var at := HeartbeatAhead(p.checks[i].name) + Ahead(p, p.checks[i].name, i) + j;
            at < |list| && EntryOf(list[at], p.checks[i], p.outcomes[i], j, clock.tasks[i])
  {
    SlotsAreSized(p, clock.tasks);
    SlotIsFaithful(p, clock.tasks, i);
    InPlaceUnderKey(p, Heartbeat(clock.heartbeat), SlotsOf(p, clock.tasks), i, j);
  }

  // ----- suppression

  /** `cs` is entry `j` of check `i`, which is called `name`, at the time that check was read off. */
  ghost predicate ComesFrom(p: Probe, times: seq<Timestamp>, name: string, cs: ComponentStatus, i: int, j: int)
    requires p.WellFormed() && |times| == |p.checks|
  {
    && 0 <= i < |p.checks| && p.checks[i].name == name
    && EntryOf(cs, p.checks[i], p.outcomes[i], j, times[i])
  }

  lemma EntriesComeFrom(p: Probe, times: seq<Timestamp>, name: string, cs: ComponentStatus)
    requires p.WellFormed() && |times| == |p.checks|
    requires cs in EntriesFor(p.checks, SlotsOf(p, times), name)
    ensures Suppressed(cs) && exists i, j :: ComesFrom(p, times, name, cs, i, j)
  {
    var slots := SlotsOf(p, times);
    EntriesForMembership(p.checks, slots, name, cs);
    var i :| 0 <= i < |p.checks| && p.checks[i].name == name && cs in slots[i];
    var j :| 0 <= j < |slots[i]| && slots[i][j] == cs;
    SlotIsFaithful(p, times, i);
    assert ComesFrom(p, times, name, cs, i, j);
  }

  /** Every entry is suppressed when it passes, and is either the heartbeat or
      otherwise a faithful report of an observation of a check with its name. */
  lemma SuppressionHolds(p: Probe, clock: Readings, name: string, k: nat)
    requires p.WellFormed() && |clock.tasks| == |p.checks|
    requires k < |Lookup(SequentialMap(p, clock), name)|
    ensures var cs := Lookup(SequentialMap(p, clock), name)[k];
            && Suppressed(cs)
            && ((name == SYSTEM_TIME && k == 0 && IsHeartbeat(cs, clock.heartbeat))
                || exists i, j :: ComesFrom(p, clock.tasks, name, cs, i, j))
  {
    var slots := SlotsOf(p, clock.tasks);
    GroupedMeaning(Heartbeat(clock.heartbeat), p.checks, slots, name);
    var cs := Lookup(SequentialMap(p, clock), name)[k];
    if name != SYSTEM_TIME || k > 0 {
      assert cs in EntriesFor(p.checks, slots, name);
      EntriesComeFrom(p, clock.tasks, name, cs);
    }
  }

  /** The probe's slots with the diagnostics left in. */
  function LeakySlots(p: Probe, times: seq<Timestamp>): (slots: Slots)
    requires p.WellFormed() && |times| == |p.checks|
    ensures |slots| == |p.checks|
    ensures forall i :: 0 <= i < |slots| ==>
              slots[i] == Unsuppressed(p.checks[i], Observations(p.checks[i], p.outcomes[i]), times[i])
  {
    seq(|p.checks|, i requires 0 <= i < |p.checks| =>
      Unsuppressed(p.checks[i], Observations(p.checks[i], p.outcomes[i]), times[i]))
  }

  /** Passing observations included. */
  lemma {:induction false} LeakyKeepsDiagnostics(p: Probe, times: seq<Timestamp>, i: nat, j: nat)
    requires p.WellFormed() && |times| == |p.checks| && i < |p.checks|
    requires !p.checks[i].run.NilRun? && j < |p.outcomes[i]|
    ensures |LeakySlots(p, times)[i]| == |p.outcomes[i]|
    ensures var cs, r := LeakySlots(p, times)[i][j], p.outcomes[i][j];
            Reports(cs, p.checks[i], r) && cs.output == r.output && cs.affectedEndpoints == r.affectedEndpoints
  {
  }

  lemma {:induction false} SameStatuses(heartbeat: ComponentStatus, checks: seq<Check>, a: Slots, b: Slots, st: Status)
    requires |checks| == |a| == |b|
    requires forall i :: 0 <= i < |a| ==> |a[i]| == |b[i]|
    requires forall i, j :: 0 <= i < |a| && 0 <= j < |a[i]| ==> a[i][j].status == b[i][j].status
    ensures AnyStatus(Grouped(heartbeat, checks, a), st) <==> AnyStatus(Grouped(heartbeat, checks, b), st)
  {
    if checks == [] {
    } else {
      var n := |checks| - 1;
      SameStatuses(heartbeat, checks[..n], a[..n], b[..n], st);
      AppendStatus(Grouped(heartbeat, checks[..n], a[..n]), checks[n].name, a[n], st);
      AppendStatus(Grouped(heartbeat, checks[..n], b[..n]), checks[n].name, b[n], st);
      if AnyIn(a[n], st) {
        var j :| 0 <= j < |a[n]| && a[n][j].status == st;
        assert b[n][j].status == st;
      }
      if AnyIn(b[n], st) {
        var j :| 0 <= j < |b[n]| && b[n][j].status == st;
        assert a[n][j].status == st;
      }
    }
  }

  /** Suppression never changes the aggregated status. */
  lemma SuppressionKeepsStatus(p: Probe, clock: Readings)
    requires p.WellFormed() && |clock.tasks| == |p.checks|
    ensures Overall(SequentialMap(p, clock))
         == Overall(Grouped(Heartbeat(clock.heartbeat), p.checks, LeakySlots(p, clock.tasks)))
  {
    var a, b := SlotsOf(p, clock.tasks), LeakySlots(p, clock.tasks);
    forall st
      ensures AnyStatus(Grouped(Heartbeat(clock.heartbeat), p.checks, a), st)
         <==> AnyStatus(Grouped(Heartbeat(clock.heartbeat), p.checks, b), st)
    {
      SameStatuses(Heartbeat(clock.heartbeat), p.checks, a, b, st);
    }
  }

  // ----- naming

  function Renamed(p: Probe, f: string -> string): (r: Probe)
    ensures |r.checks| == |p.checks| && r.outcomes == p.outcomes
    ensures forall i :: 0 <= i < |p.checks| ==> r.checks[i] == p.checks[i].(name := f(p.checks[i].name))
  {
    p.(checks := seq(|p.checks|, i requires 0 <= i < |p.checks| => p.checks[i].(name := f(p.checks[i].name))))
  }

  /** Renaming the checks, even so that keys merge, moves entries between keys and
      changes neither the bag of entries nor the status. */
  lemma NamingIsIrrelevant(p: Probe, f: string -> string, clock: Readings)
    requires p.WellFormed() && |clock.tasks| == |p.checks|
    ensures AllEntries(SequentialMap(Renamed(p, f), clock)) == AllEntries(SequentialMap(p, clock))
    ensures Overall(SequentialMap(Renamed(p, f), clock)) == Overall(SequentialMap(p, clock))
  {
    var r := Renamed(p, f);
    var slots, slots' := SlotsOf(p, clock.tasks), SlotsOf(r, clock.tasks);
    forall i | 0 <= i < |slots| ensures slots'[i] == slots[i] {
      assert Observations(r.checks[i], r.outcomes[i]) == Observations(p.checks[i], p.outcomes[i]);
    }
    assert slots' == slots;
    GroupingConserves(Heartbeat(clock.heartbeat), p.checks, slots);
    GroupingConserves(Heartbeat(clock.heartbeat), r.checks, slots');
    OverallIgnoresKeys(SequentialMap(r, clock), SequentialMap(p, clock));
  }
}
