/**
 The sequential pass that groups the slots by check name (runChecks,
 core/engine.go), and what the resulting map contains.
 */
module Grouping {
  import opened HealthTypes

  type Slots = seq<seq<ComponentStatus>>

  /** One round of the grouping loop: an empty slot is skipped, any other is appended under its name. */
  function Append(out: ChecksMap, name: string, list: seq<ComponentStatus>): ChecksMap {
    if list == [] then out else out[name := Lookup(out, name) + list]
  }

  /** What the slot `list` of a check called `name` adds under `key`. */
  function Part(name: string, list: seq<ComponentStatus>, key: string): seq<ComponentStatus> {
    if key == name then list else []
  }

  /** One round touches the check's own key, and only when there is something to append. */
  lemma AppendAt(out: ChecksMap, name: string, list: seq<ComponentStatus>, key: string)
    ensures Lookup(Append(out, name, list), key) == Lookup(out, key) + Part(name, list, key)
    ensures key in Append(out, name, list) <==> key in out || (key == name && list != [])
  {
    if list == [] || key != name {
      assert Lookup(out, key) + [] == Lookup(out, key);
    }
  }

  /** The map after the heartbeat and all rounds, in registration order. */
  function Grouped(heartbeat: ComponentStatus, checks: seq<Check>, slots: Slots): ChecksMap
    requires |checks| == |slots|
  {
    if checks == [] then map[SYSTEM_TIME := [heartbeat]]
    else
      var n := |checks| - 1;
      Append(Grouped(heartbeat, checks[..n], slots[..n]), checks[n].name, slots[n])
  }

  /** The map after one more round of the loop. */
  lemma GroupedRound(heartbeat: ComponentStatus, checks: seq<Check>, slots: Slots, k: nat)
    requires |checks| == |slots| && k < |checks|
    ensures Grouped(heartbeat, checks[..k + 1], slots[..k + 1])
         == Append(Grouped(heartbeat, checks[..k], slots[..k]), checks[k].name, slots[k])
  {
    assert checks[..k + 1][..k] == checks[..k];
    assert slots[..k + 1][..k] == slots[..k];
  }

  // ----- what the map holds, key by key

  /** The registration-order concatenation of the slots of the checks called `name`. */
  function EntriesFor(checks: seq<Check>, slots: Slots, name: string): seq<ComponentStatus>
    requires |checks| == |slots|
  {
    if checks == [] then []
    else
      var n := |checks| - 1;
      EntriesFor(checks[..n], slots[..n], name) + Part(checks[n].name, slots[n], name)
  }

  /** The concatenation after one more check. */
  lemma EntriesForRound(checks: seq<Check>, slots: Slots, name: string, k: nat)
    requires |checks| == |slots| && k < |checks|
    ensures EntriesFor(checks[..k + 1], slots[..k + 1], name)
         == EntriesFor(checks[..k], slots[..k], name) + Part(checks[k].name, slots[k], name)
  {
    assert checks[..k + 1][..k] == checks[..k];
    assert slots[..k + 1][..k] == slots[..k];
  }

  /** Some check called `name` reported something. */
  ghost predicate Reported(checks: seq<Check>, slots: Slots, name: string)
    requires |checks| == |slots|
  {
    exists i :: 0 <= i < |checks| && checks[i].name == name && slots[i] != []
  }

  lemma ReportedSnoc(checks: seq<Check>, slots: Slots, name: string)
    requires |checks| == |slots| > 0
    ensures var n := |checks| - 1;
            Reported(checks, slots, name) <==>
            Reported(checks[..n], slots[..n], name) || (checks[n].name == name && slots[n] != [])
  {
    var n := |checks| - 1;
    if Reported(checks[..n], slots[..n], name) {
      var i :| 0 <= i < n && checks[..n][i].name == name && slots[..n][i] != [];
      assert checks[i].name == name && slots[i] != [];
    }
    if Reported(checks, slots, name) {
      var i :| 0 <= i < |checks| && checks[i].name == name && slots[i] != [];
      if i < n {
        assert checks[..n][i].name == name && slots[..n][i] != [];
      }
    }
  }

  lemma {:induction false} GroupedKeys(heartbeat: ComponentStatus, checks: seq<Check>, slots: Slots, name: string)
    requires |checks| == |slots|
    ensures name in Grouped(heartbeat, checks, slots) <==> name == SYSTEM_TIME || Reported(checks, slots, name)
  {
    if checks == [] {
    } else {
      var n := |checks| - 1;
      GroupedKeys(heartbeat, checks[..n], slots[..n], name);
      AppendAt(Grouped(heartbeat, checks[..n], slots[..n]), checks[n].name, slots[n], name);
      ReportedSnoc(checks, slots, name);
    }
  }

  lemma Associate(a: seq<ComponentStatus>, b: seq<ComponentStatus>, c: seq<ComponentStatus>)
    ensures a + b + c == a + (b + c)
  {
  }

  lemma {:induction false} GroupedLists(heartbeat: ComponentStatus, checks: seq<Check>, slots: Slots, name: string)
    requires |checks| == |slots|
    ensures Lookup(Grouped(heartbeat, checks, slots), name) ==
            Part(SYSTEM_TIME, [heartbeat], name) + EntriesFor(checks, slots, name)
  {
    var own := Part(SYSTEM_TIME, [heartbeat], name);
    if checks == [] {
      assert own + [] == own;
    } else {
      var n := |checks| - 1;
      GroupedLists(heartbeat, checks[..n], slots[..n], name);
      AppendAt(Grouped(heartbeat, checks[..n], slots[..n]), checks[n].name, slots[n], name);
      Associate(own, EntriesFor(checks[..n], slots[..n], name), Part(checks[n].name, slots[n], name));
    }
  }

  /** Later checks only append. */
  lemma {:induction false} EntriesForGrows(checks: seq<Check>, slots: Slots, name: string, m: nat, n: nat)
    requires |checks| == |slots| && m <= n <= |checks|
    ensures EntriesFor(checks[..m], slots[..m], name) <= EntriesFor(checks[..n], slots[..n], name)
  {
    if m == n {
    } else {
      EntriesForGrows(checks, slots, name, m, n - 1);
      EntriesForRound(checks, slots, name, n - 1);
    }
  }

  /** Every key of the grouped map, and the exact list under it. */
  lemma {:induction false} GroupedMeaning(heartbeat: ComponentStatus, checks: seq<Check>, slots: Slots, name: string)
    requires |checks| == |slots|
    ensures name in Grouped(heartbeat, checks, slots) <==> name == SYSTEM_TIME || Reported(checks, slots, name)
    ensures Lookup(Grouped(heartbeat, checks, slots), name) ==
            (if name == SYSTEM_TIME then [heartbeat] else []) + EntriesFor(checks, slots, name)
  {
    GroupedKeys(heartbeat, checks, slots, name);
    GroupedLists(heartbeat, checks, slots, name);
  }

  lemma {:induction false} EntriesForEmpty(checks: seq<Check>, slots: Slots, name: string)
    requires |checks| == |slots|
    ensures EntriesFor(checks, slots, name) == [] <==> !Reported(checks, slots, name)
  {
    if checks == [] {
    } else {
      var n := |checks| - 1;
      EntriesForEmpty(checks[..n], slots[..n], name);
      ReportedSnoc(checks, slots, name);
    }
  }

  lemma {:induction false} EntriesForMembership(checks: seq<Check>, slots: Slots, name: string, cs: ComponentStatus)
    requires |checks| == |slots|
    ensures cs in EntriesFor(checks, slots, name) <==>
            exists i :: 0 <= i < |checks| && checks[i].name == name && cs in slots[i]
  {
    if checks == [] {
    } else {
      var n := |checks| - 1;
      EntriesForMembership(checks[..n], slots[..n], name, cs);
      if i :| 0 <= i < n && checks[..n][i].name == name && cs in slots[..n][i] {
        assert checks[i].name == name && cs in slots[i];
      }
      if i :| 0 <= i < |checks| && checks[i].name == name && cs in slots[i] {
        assert i == n || (checks[..n][i].name == name && cs in slots[..n][i]);
      }
    }
  }

  /** The heartbeat key holds the heartbeat alone exactly when no check using the
      reserved name reported anything; the registration guards make that so. */
  lemma {:induction false} HeartbeatAlone(heartbeat: ComponentStatus, checks: seq<Check>, slots: Slots)
    requires |checks| == |slots|
    ensures var out := Grouped(heartbeat, checks, slots);
            && SYSTEM_TIME in out
            && (out[SYSTEM_TIME] == [heartbeat] <==>
                forall i :: 0 <= i < |checks| && checks[i].name == SYSTEM_TIME ==> slots[i] == [])
  {
    GroupedMeaning(heartbeat, checks, slots, SYSTEM_TIME);
    EntriesForEmpty(checks, slots, SYSTEM_TIME);
    var rest := EntriesFor(checks, slots, SYSTEM_TIME);
    assert |[heartbeat] + rest| == 1 + |rest|;
    assert rest == [] ==> [heartbeat] + rest == [heartbeat];
  }

  // ----- what the map holds, as one bag

  /** Every entry of the map, whatever its key. */
  ghost function AllEntries(m: ChecksMap): multiset<ComponentStatus>
    decreases |m|
  {
    if m == map[] then multiset{}
    else
      var name :| name in m;
      assert m.Keys == (m - {name}).Keys + {name};
      multiset(m[name]) + AllEntries(m - {name})
  }

  lemma RemoveKey(m: ChecksMap, name: string)
    requires name in m
    ensures |m - {name}| == |m| - 1
    ensures forall other :: other in m - {name} <==> other in m && other != name
  {
    assert m.Keys == (m - {name}).Keys + {name};
  }

  lemma {:induction false} AllEntriesPick(m: ChecksMap, name: string)
    requires name in m
    ensures AllEntries(m) == multiset(m[name]) + AllEntries(m - {name})
    decreases |m|
  {
    var first :| first in m && AllEntries(m) == multiset(m[first]) + AllEntries(m - {first});
    if first != name {
      RemoveKey(m, first);
      RemoveKey(m, name);
      var rest := (m - {first}) - {name};
      assert rest == (m - {name}) - {first};
      AllEntriesPick(m - {first}, name);
      AllEntriesPick(m - {name}, first);
      assert AllEntries(m - {first}) == multiset(m[name]) + AllEntries(rest);
      assert AllEntries(m - {name}) == multiset(m[first]) + AllEntries(rest);
    }
  }

  /** Replacing the list under one key exchanges that key's entries. */
  lemma AssignEntries(out: ChecksMap, name: string, list: seq<ComponentStatus>)
    ensures AllEntries(out[name := list]) == AllEntries(out - {name}) + multiset(list)
    ensures AllEntries(out) == AllEntries(out - {name}) + multiset(Lookup(out, name))
  {
    AllEntriesPick(out[name := list], name);
    assert out[name := list] - {name} == out - {name};
    if name in out {
      AllEntriesPick(out, name);
    } else {
      assert out - {name} == out;
    }
  }

  lemma AppendEntries(out: ChecksMap, name: string, list: seq<ComponentStatus>)
    ensures AllEntries(Append(out, name, list)) == AllEntries(out) + multiset(list)
  {
    AssignEntries(out, name, Lookup(out, name) + list);
  }

  lemma {:induction false} EntriesMembership(m: ChecksMap, cs: ComponentStatus)
    ensures cs in AllEntries(m) <==> exists name :: name in m && cs in m[name]
    decreases |m|
  {
    if m == map[] {
    } else {
      var first :| first in m && AllEntries(m) == multiset(m[first]) + AllEntries(m - {first});
      var rest := m - {first};
      assert m.Keys == rest.Keys + {first};
      EntriesMembership(rest, cs);
      if name :| name in m && cs in m[name] {
        assert name == first || (name in rest && cs in rest[name]);
      }
      if name :| name in rest && cs in rest[name] {
        assert name in m && cs in m[name];
      }
    }
  }

  function SlotEntries(slots: Slots): multiset<ComponentStatus> {
    if slots == [] then multiset{}
    else SlotEntries(slots[..|slots| - 1]) + multiset(slots[|slots| - 1])
  }

  function TotalLength(slots: Slots): nat {
    if slots == [] then 0
    else TotalLength(slots[..|slots| - 1]) + |slots[|slots| - 1]|
  }

  /** Grouping neither loses, duplicates nor invents an entry, whatever the names. */
  lemma {:induction false} GroupingConserves(heartbeat: ComponentStatus, checks: seq<Check>, slots: Slots)
    requires |checks| == |slots|
    ensures var out := Grouped(heartbeat, checks, slots);
            && AllEntries(out) == multiset{heartbeat} + SlotEntries(slots)
            && |AllEntries(out)| == 1 + TotalLength(slots)
  {
    if checks == [] {
      var m: ChecksMap := map[SYSTEM_TIME := [heartbeat]];
      AllEntriesPick(m, SYSTEM_TIME);
      assert m - {SYSTEM_TIME} == map[];
    } else {
      var n := |checks| - 1;
      GroupingConserves(heartbeat, checks[..n], slots[..n]);
      AppendEntries(Grouped(heartbeat, checks[..n], slots[..n]), checks[n].name, slots[n]);
    }
  }

  /** Grouping commutes with forgetting the clock. */
  lemma {:induction false} GroupedUntimed(heartbeat: ComponentStatus, checks: seq<Check>, slots: Slots, bare: Slots)
    requires |checks| == |slots| == |bare|
    requires forall i :: 0 <= i < |slots| ==> UntimedList(slots[i]) == bare[i]
    ensures UntimedMap(Grouped(heartbeat, checks, slots)) == Grouped(Untimed(heartbeat), checks, bare)
  {
    if checks == [] {
      assert UntimedList([heartbeat]) == [Untimed(heartbeat)];
    } else {
      var n := |checks| - 1;
      var out := Grouped(heartbeat, checks[..n], slots[..n]);
      var name := checks[n].name;
      GroupedUntimed(heartbeat, checks[..n], slots[..n], bare[..n]);
      assert UntimedList(slots[n]) == bare[n];
      assert UntimedList([]) == [];
      assert UntimedList(Lookup(out, name) + slots[n]) == UntimedList(Lookup(out, name)) + UntimedList(slots[n]);
      assert Lookup(UntimedMap(out), name) == UntimedList(Lookup(out, name));
    }
  }

  // ----- the order of entries under a key

  /** The maps have the same keys, and under each key the same entries in some order. */
  ghost predicate SameUpToOrder(m1: ChecksMap, m2: ChecksMap) {
    forall name :: (name in m1 <==> name in m2) && multiset(Lookup(m1, name)) == multiset(Lookup(m2, name))
  }

  lemma AppendSame(m1: ChecksMap, m2: ChecksMap, name: string, a: seq<ComponentStatus>, b: seq<ComponentStatus>)
    requires SameUpToOrder(m1, m2) && multiset(a) == multiset(b)
    ensures SameUpToOrder(Append(m1, name, a), Append(m2, name, b))
  {
    assert |a| == |multiset(a)| == |multiset(b)| == |b|;
    forall key
      ensures key in Append(m1, name, a) <==> key in Append(m2, name, b)
      ensures multiset(Lookup(Append(m1, name, a), key)) == multiset(Lookup(Append(m2, name, b), key))
    {
      AppendAt(m1, name, a, key);
      AppendAt(m2, name, b, key);
    }
  }

  /** Reordering the entries within slots reorders them within keys, and moves none to another key. */
  lemma {:induction false} GroupedSame(heartbeat: ComponentStatus, checks: seq<Check>, a: Slots, b: Slots)
    requires |checks| == |a| == |b|
    requires forall i :: 0 <= i < |a| ==> multiset(a[i]) == multiset(b[i])
    ensures SameUpToOrder(Grouped(heartbeat, checks, a), Grouped(heartbeat, checks, b))
  {
    if checks == [] {
    } else {
      var n := |checks| - 1;
      GroupedSame(heartbeat, checks[..n], a[..n], b[..n]);
      AppendSame(Grouped(heartbeat, checks[..n], a[..n]), Grouped(heartbeat, checks[..n], b[..n]),
                 checks[n].name, a[n], b[n]);
    }
  }

  lemma {:induction false} SameEntries(m1: ChecksMap, m2: ChecksMap)
    requires SameUpToOrder(m1, m2)
    ensures AllEntries(m1) == AllEntries(m2)
    decreases |m1|
  {
    if m1 == map[] {
      assert m2 == map[];
    } else {
      var name :| name in m1;
      RemoveKey(m1, name);
      RemoveKey(m2, name);
      assert multiset(Lookup(m1, name)) == multiset(Lookup(m2, name));
      SameWithout(m1, m2, name);
      SameEntries(m1 - {name}, m2 - {name});
      AllEntriesPick(m1, name);
      AllEntriesPick(m2, name);
    }
  }

  lemma SameWithout(m1: ChecksMap, m2: ChecksMap, name: string)
    requires SameUpToOrder(m1, m2)
    ensures SameUpToOrder(m1 - {name}, m2 - {name})
  {
    forall key
      ensures key in m1 - {name} <==> key in m2 - {name}
      ensures multiset(Lookup(m1 - {name}, key)) == multiset(Lookup(m2 - {name}, key))
    {
      assert multiset(Lookup(m1, key)) == multiset(Lookup(m2, key));
    }
  }
}
