/**
 What one check contributes to a response (runOne, core/engine.go): the
 conversion of observations into component statuses, with the suppression of
 diagnostics on passing observations.
 */
module Conversion {
  import opened HealthTypes

  const NO_RUN: Result :=
    Result("", Fail, None, "", "check has no Run function", [], map[])

  /** The implicit per-response entry. */
  function Heartbeat(now: Timestamp): ComponentStatus {
    ComponentStatus("", "system", None, "", Pass, [], now, "", map[])
  }

  /** The observations runOne works on, when `Run` (if there is one) returned `returned`. */
  function Observations(c: Check, returned: seq<Result>): seq<Result> {
    if c.run.NilRun? then [NO_RUN] else returned
  }

  /** The check observed status `st`, a nil `Run` counting as one observed failure. */
  ghost predicate Observes(c: Check, returned: seq<Result>, st: Status) {
    if c.run.NilRun? then st == Fail
    else exists j :: 0 <= j < |returned| && returned[j].status == st
  }

  /** The fields copied from the check and the observation, before suppression. */
  function CopyFields(c: Check, r: Result, now: Timestamp): ComponentStatus {
    ComponentStatus(r.componentId, c.componentType, r.observedValue, r.observedUnit,
                    r.status, r.affectedEndpoints, now, r.output, r.links)
  }

  function Convert(c: Check, r: Result, now: Timestamp): ComponentStatus {
    var cs := CopyFields(c, r, now);
    if cs.status == Pass then cs.(output := "", affectedEndpoints := []) else cs
  }

  function Converted(c: Check, rs: seq<Result>, now: Timestamp): (out: seq<ComponentStatus>)
    ensures |out| == |rs|
    ensures forall j :: 0 <= j < |rs| ==> out[j] == Convert(c, rs[j], now)
  {
    seq(|rs|, j requires 0 <= j < |rs| => Convert(c, rs[j], now))
  }

  /** The same observations with their diagnostics left in. */
  function Unsuppressed(c: Check, rs: seq<Result>, now: Timestamp): (out: seq<ComponentStatus>)
    ensures |out| == |rs|
    ensures forall j :: 0 <= j < |rs| ==> out[j] == CopyFields(c, rs[j], now)
  {
    seq(|rs|, j requires 0 <= j < |rs| => CopyFields(c, rs[j], now))
  }

  /** A check's entries for one probe. */
  function RunOneEntries(c: Check, returned: seq<Result>, now: Timestamp): seq<ComponentStatus> {
    Converted(c, Observations(c, returned), now)
  }

  /** Sections 4.6 and 4.8 of draft-inadarei-api-health-check-06: a passing entry
      carries neither diagnostics nor affected endpoints. */
  predicate Suppressed(cs: ComponentStatus) {
    cs.status == Pass ==> cs.output == "" && cs.affectedEndpoints == []
  }

  /** `cs` reports `r`: all of it when `r` does not pass, all but the suppressed fields when it does. */
  predicate Reports(cs: ComponentStatus, c: Check, r: Result) {
    && cs.componentId == r.componentId
    && cs.componentType == c.componentType
    && cs.status == r.status
    && cs.observedValue == r.observedValue
    && cs.observedUnit == r.observedUnit
    && cs.links == r.links
    && (r.status != Pass ==> cs.output == r.output && cs.affectedEndpoints == r.affectedEndpoints)
  }

  /** How many entries a check has in a response. */
  function EntryCount(c: Check, returned: seq<Result>): nat {
    if c.run.NilRun? then 1 else |returned|
  }

  /** `cs` is entry `j` of a check whose `Run` returned `returned`, stamped `now`: it reports the `j`-th
      observation, or says that there is no `Run`. No two statuses are both that entry. */
  predicate EntryOf(cs: ComponentStatus, c: Check, returned: seq<Result>, j: int, now: Timestamp) {
    && cs.time == now
    && Suppressed(cs)
    && if c.run.NilRun? then
         && j == 0 && cs.status == Fail && cs.output == "check has no Run function"
         && cs.componentId == "" && cs.componentType == c.componentType
         && cs.observedValue == None && cs.observedUnit == ""
         && cs.affectedEndpoints == [] && cs.links == map[]
       else
         0 <= j < |returned| && Reports(cs, c, returned[j])
  }

  /** A check's entries are its observations, one by one and in order. */
  lemma {:induction false} EntriesAreFaithful(c: Check, returned: seq<Result>, now: Timestamp)
    ensures |RunOneEntries(c, returned, now)| == EntryCount(c, returned)
    ensures forall j :: 0 <= j < EntryCount(c, returned) ==>
              EntryOf(RunOneEntries(c, returned, now)[j], c, returned, j, now)
  {
  }

  lemma {:induction false} EntryIsUnique(a: ComponentStatus, b: ComponentStatus, c: Check, returned: seq<Result>,
                                         j: int, now: Timestamp)
    requires EntryOf(a, c, returned, j, now) && EntryOf(b, c, returned, j, now)
    ensures a == b
  {
  }

  /** `cs` is the heartbeat entry, stamped `now`. */
  predicate IsHeartbeat(cs: ComponentStatus, now: Timestamp) {
    && cs.status == Pass && cs.componentType == "system" && cs.time == now
    && cs.componentId == "" && cs.observedValue == None && cs.observedUnit == ""
    && cs.output == "" && cs.affectedEndpoints == [] && cs.links == map[]
  }
}
