/** Small helpers of the command line: the verdict text of an assertion, a
    field read with a placeholder, and the exit status a request ends with. */
module Cli {

  /** `passOrfail(result)`. */
  function PassOrFail(result: bool): (r: string)
    ensures r == "PASS" <==> result
    ensures r == "FAIL" <==> !result
  {
    if result then "PASS" else "FAIL"
  }

  /** The placeholder `get_field` gives for a missing key. */
  const MISSING: string := "***MISSING***"

  /** `get_field(d, key)`: the value under `key`, or the placeholder. */
  function GetField(d: map<string, string>, key: string): (r: string)
    ensures key in d ==> r == d[key]
    ensures key !in d ==> r == MISSING
  {
    if key !in d then MISSING else d[key]
  }

  /** What comes back from a request: no contact at all, or a status code. */
  datatype Reply = Unreachable | Status(code: int)

  /** The exit status of a command after one request: 2 when the server could
      not be contacted (`a8_get` and the others), 3 when the status is not one
      the command accepts (`fail_unless`), 0 when it goes on. */
  function ExitStatus(reply: Reply, accepted: seq<int>): (r: nat)
    ensures r == 0 <==> reply.Status? && reply.code in accepted
    ensures r == 2 <==> reply.Unreachable?
    ensures r == 0 || r == 2 || r == 3
  {
    match reply
    case Unreachable => 2
    case Status(code) => if code in accepted then 0 else 3
  }
}
