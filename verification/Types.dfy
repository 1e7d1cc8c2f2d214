/**
 The values that flow through the health library: checks, the observations
 they return, and the response payload (core/check.go, core/status.go).
 */
module HealthTypes {

  datatype Option<+T> = None | Some(value: T)

  /** The status strings. `Unknown` is any string other than the three canonical
      ones; the library neither produces nor rejects it. */
  datatype Status = Pass | Warn | Fail | Unknown(text: string)

  /** A clock reading. Only its identity matters, never its formatting. */
  type Timestamp = nat

  /** One observation of a check. A nil slice and an empty slice are both `[]`. */
  datatype Result = Result(
    componentId: string,
    status: Status,
    observedValue: Option<string>,
    observedUnit: string,
    output: string,
    affectedEndpoints: seq<string>,
    links: map<string, string>)

  /** The `Run` function value of a check: nil, or some function. What the
      function returns is supplied by the environment, once per invocation. */
  datatype Run = NilRun | Func(id: nat)

  datatype Check = Check(name: string, componentType: string, timeout: int, run: Run)

  datatype ComponentStatus = ComponentStatus(
    componentId: string,
    componentType: string,
    observedValue: Option<string>,
    observedUnit: string,
    status: Status,
    affectedEndpoints: seq<string>,
    time: Timestamp,
    output: string,
    links: map<string, string>)

  type ChecksMap = map<string, seq<ComponentStatus>>

  datatype HealthResponse = HealthResponse(
    status: Status,
    serviceId: string,
    description: string,
    checks: ChecksMap)

  /** The reserved key of the heartbeat entry. */
  const SYSTEM_TIME: string := "system:time"

  /** Go's `m[name]` on a missing key yields the nil slice. */
  function Lookup(m: ChecksMap, name: string): seq<ComponentStatus> {
    if name in m then m[name] else []
  }

  // ----- comparison up to timestamps

  function Untimed(cs: ComponentStatus): ComponentStatus {
    cs.(time := 0)
  }

  function UntimedList(list: seq<ComponentStatus>): (r: seq<ComponentStatus>)
    ensures |r| == |list|
    ensures forall i :: 0 <= i < |list| ==> r[i] == Untimed(list[i])
  {
    seq(|list|, i requires 0 <= i < |list| => Untimed(list[i]))
  }

  function UntimedMap(m: ChecksMap): ChecksMap {
    map name | name in m :: UntimedList(m[name])
  }

  function UntimedResponse(r: HealthResponse): HealthResponse {
    r.(checks := UntimedMap(r.checks))
  }
}
