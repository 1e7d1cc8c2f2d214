/**
 The reduction of a checks map to one status (aggregate, core/engine.go).
 Go iterates a map in any order and `aggregate` returns early on the first
 failure; the answer depends on neither.
 */
module Aggregation {
  import opened HealthTypes
  import opened HttpStatus
  import opened Grouping

  /** Some entry, under some key, has status `st`. */
  ghost predicate AnyStatus(m: ChecksMap, st: Status) {
    exists name, i :: name in m && 0 <= i < |m[name]| && m[name][i].status == st
  }

  /** The strict rule: any failure fails, else any warning warns, else everything passes. */
  ghost function Overall(m: ChecksMap): Status {
    if AnyStatus(m, Fail) then Fail
    else if AnyStatus(m, Warn) then Warn
    else Pass
  }

  ghost predicate AnyIn(list: seq<ComponentStatus>, st: Status) {
    exists i :: 0 <= i < |list| && list[i].status == st
  }

  // ----- the fold as written, over one iteration order

  /** The inner loop; `Fail` stands for the early return. */
  function AggregateList(list: seq<ComponentStatus>, overall: Status): Status {
    if list == [] then overall
    else match list[0].status
      case Fail => Fail
      case Warn => AggregateList(list[1..], Warn)
      case _ => AggregateList(list[1..], overall)
  }

  /** The outer loop, visiting the keys in the order given. */
  function AggregateInOrder(order: seq<string>, m: ChecksMap, overall: Status): Status
    requires forall name :: name in order ==> name in m
  {
    if order == [] then overall
    else
      var next := AggregateList(m[order[0]], overall);
      if next == Fail then Fail else AggregateInOrder(order[1..], m, next)
  }

  /** An order in which Go may range over `m`: every key, once. */
  ghost predicate IterationOrder(order: seq<string>, m: ChecksMap) {
    && (forall name :: name in order <==> name in m)
    && (forall i, j :: 0 <= i < j < |order| ==> order[i] != order[j])
  }

  ghost function Rule(fails: bool, warns: bool): Status {
    if fails then Fail else if warns then Warn else Pass
  }

  lemma {:induction false} AggregateListMeaning(list: seq<ComponentStatus>, overall: Status)
    requires overall == Pass || overall == Warn
    ensures AggregateList(list, overall) == Rule(AnyIn(list, Fail), overall == Warn || AnyIn(list, Warn))
  {
    if list == [] {
    } else {
      forall st ensures AnyIn(list, st) <==> list[0].status == st || AnyIn(list[1..], st) {
        if i :| 0 <= i < |list| && list[i].status == st {
          assert i == 0 || list[1..][i - 1].status == st;
        }
        if i :| 0 <= i < |list[1..]| && list[1..][i].status == st {
          assert list[i + 1].status == st;
        }
      }
      if list[0].status != Fail {
        AggregateListMeaning(list[1..], if list[0].status == Warn then Warn else overall);
      }
    }
  }

  ghost predicate AnyAt(order: seq<string>, m: ChecksMap, st: Status) {
    exists name :: name in order && name in m && AnyIn(m[name], st)
  }

  lemma {:induction false} AggregateInOrderMeaning(order: seq<string>, m: ChecksMap, overall: Status)
    requires forall name :: name in order ==> name in m
    requires overall == Pass || overall == Warn
    ensures AggregateInOrder(order, m, overall)
         == Rule(AnyAt(order, m, Fail), overall == Warn || AnyAt(order, m, Warn))
  {
    if order == [] {
    } else {
      forall st ensures AnyAt(order, m, st) <==> AnyIn(m[order[0]], st) || AnyAt(order[1..], m, st) {
        if AnyIn(m[order[0]], st) {
          assert order[0] in order;
        }
        if name :| name in order[1..] && name in m && AnyIn(m[name], st) {
          assert name in order;
        }
        if name :| name in order && name in m && AnyIn(m[name], st) {
          assert name == order[0] || name in order[1..];
        }
      }
      AggregateListMeaning(m[order[0]], overall);
      var next := AggregateList(m[order[0]], overall);
      if next != Fail {
        AggregateInOrderMeaning(order[1..], m, next);
      }
    }
  }

  /** Whatever order the map is ranged over in, the early-exit fold computes the strict rule. */
  lemma AggregationOrderFree(order: seq<string>, m: ChecksMap)
    requires IterationOrder(order, m)
    ensures AggregateInOrder(order, m, Pass) == Overall(m)
  {
    AggregateInOrderMeaning(order, m, Pass);
    forall st ensures AnyAt(order, m, st) <==> AnyStatus(m, st) {
      AnyStatusByKey(m, st);
    }
  }

  lemma AnyStatusByKey(m: ChecksMap, st: Status)
    ensures AnyStatus(m, st) <==> exists name :: name in m && AnyIn(m[name], st)
  {
    if name, i :| name in m && 0 <= i < |m[name]| && m[name][i].status == st {
      assert name in m && AnyIn(m[name], st);
    }
    if name :| name in m && AnyIn(m[name], st) {
      var i :| 0 <= i < |m[name]| && m[name][i].status == st;
    }
  }

  // ----- algebra of the strict rule

  /** Aggregating a split map is joining the parts. */
  lemma AggregationJoins(m1: ChecksMap, m2: ChecksMap)
    requires m1.Keys !! m2.Keys
    ensures Overall(m1 + m2) == Worse(Overall(m1), Overall(m2))
  {
    var m := m1 + m2;
    forall st ensures AnyStatus(m, st) <==> AnyStatus(m1, st) || AnyStatus(m2, st) {
      if name, i :| name in m1 && 0 <= i < |m1[name]| && m1[name][i].status == st {
        assert name in m && m[name][i].status == st;
      }
      if name, i :| name in m2 && 0 <= i < |m2[name]| && m2[name][i].status == st {
        assert name in m && m[name][i].status == st;
      }
      if name, i :| name in m && 0 <= i < |m[name]| && m[name][i].status == st {
        assert name in m1 || name in m2;
      }
    }
  }

  lemma AnyStatusInEntries(m: ChecksMap, st: Status)
    ensures AnyStatus(m, st) <==> exists cs :: cs in AllEntries(m) && cs.status == st
  {
    if name, i :| name in m && 0 <= i < |m[name]| && m[name][i].status == st {
      EntriesMembership(m, m[name][i]);
      assert m[name][i] in AllEntries(m);
    }
    if cs :| cs in AllEntries(m) && cs.status == st {
      EntriesMembership(m, cs);
      var name :| name in m && cs in m[name];
      var i :| 0 <= i < |m[name]| && m[name][i] == cs;
      assert m[name][i].status == st;
    }
  }

  /** The status depends on the bag of entries alone, not on the keys they sit under or their order. */
  lemma OverallIgnoresKeys(m1: ChecksMap, m2: ChecksMap)
    requires AllEntries(m1) == AllEntries(m2)
    ensures Overall(m1) == Overall(m2)
  {
    forall st ensures AnyStatus(m1, st) <==> AnyStatus(m2, st) {
      AnyStatusInEntries(m1, st);
      AnyStatusInEntries(m2, st);
    }
  }

  /** What one round of grouping does to the statuses present. */
  lemma AppendStatus(out: ChecksMap, name: string, list: seq<ComponentStatus>, st: Status)
    ensures AnyStatus(Append(out, name, list), st) <==> AnyStatus(out, st) || AnyIn(list, st)
  {
    AppendEntries(out, name, list);
    AnyStatusInEntries(out, st);
    AnyStatusInEntries(Append(out, name, list), st);
    if i :| 0 <= i < |list| && list[i].status == st {
      assert list[i] in AllEntries(Append(out, name, list));
    }
    if cs :| cs in AllEntries(Append(out, name, list)) && cs.status == st {
      assert cs in AllEntries(out) || cs in list;
    }
  }

  lemma UntimedStatus(m: ChecksMap)
    ensures Overall(UntimedMap(m)) == Overall(m)
  {
    var u := UntimedMap(m);
    forall st ensures AnyStatus(u, st) <==> AnyStatus(m, st) {
      if name, i :| name in m && 0 <= i < |m[name]| && m[name][i].status == st {
        assert name in u && u[name][i].status == st;
      }
      if name, i :| name in u && 0 <= i < |u[name]| && u[name][i].status == st {
        assert name in m && m[name][i].status == st;
      }
    }
  }
}
