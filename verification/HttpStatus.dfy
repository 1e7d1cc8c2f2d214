/** The last link between a status and the wire (core/status.go, adapters/http/handlers.go). */
module HttpStatus {
  import opened HealthTypes

  /** An unknown status must not take a service out of rotation, so only `Fail` is a 503. */
  function HTTPStatusCode(s: Status): (code: int)
    ensures code == 503 <==> s == Fail
    ensures code == 200 <==> s != Fail
  {
    match s
    case Fail => 503
    case _ => 200
  }

  /** The code `write` puts on the wire; `encodes` says whether JSON encoding succeeded. */
  function WrittenCode(encodes: bool, response: HealthResponse): (code: int)
    ensures code == 503 <==> encodes && response.status == Fail
    ensures code == 200 <==> encodes && response.status != Fail
    ensures code == 500 <==> !encodes
  {
    if !encodes then 500 else HTTPStatusCode(response.status)
  }

  /** How bad a status is for aggregation; unknown statuses count as passing. */
  function Severity(s: Status): nat {
    match s
    case Fail => 2
    case Warn => 1
    case _ => 0
  }

  /** The worse of two aggregated statuses. */
  function Worse(a: Status, b: Status): Status {
    if Severity(a) < Severity(b) then b else a
  }
}
