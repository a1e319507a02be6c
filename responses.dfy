/** How the job reads the cluster's answers: the HTTP status and body of an
    existence check or of a creation request, or a failure to get an answer
    at all. */
module Responses {
  import opened Strings

  /** What one request to the cluster gives back. */
  datatype Reply =
    | Unreachable(reason: string)          // transport error or timeout: no response
    | Response(status: int, body: string)  // an HTTP response

  /** The errors the job can see, each with what the source puts in its message. */
  datatype Error =
    | Transport(reason: string)            // the client call itself failed
    | CheckFailed(status: int)             // existence check answered with an error status
    | CreateFailed(status: int, body: string)
    | RetriesExhausted                     // retry was given no attempt at all

  /** The outcome of one attempt of a retried operation, with the value the
      operation hands back to its caller when it succeeds. */
  datatype Attempt<+T> = Ok(value: T) | Fail(error: Error)

  const STATUS_BAD_REQUEST := 400
  const STATUS_NOT_FOUND := 404
  const ALREADY_EXISTS_MARKER := "resource_already_exists_exception"

  /** The client library's notion of an error response: any status above 299. */
  predicate IsErrorStatus(status: int)
  {
    status > 299
  }

  /** indexExists: 404 means absent, any other error status is an error, and
      every other answer means present. */
  function ExistsOutcome(reply: Reply): (r: Attempt<bool>)
    ensures r == Ok(false) <==> reply.Response? && reply.status == STATUS_NOT_FOUND
    ensures r == Ok(true) <==> reply.Response? && !IsErrorStatus(reply.status)
    ensures r.Fail? <==>
      reply.Unreachable? || (reply.status != STATUS_NOT_FOUND && IsErrorStatus(reply.status))
    ensures reply.Unreachable? ==> r == Fail(Transport(reply.reason))
    ensures reply.Response? && r.Fail? ==> r.error == CheckFailed(reply.status)
  {
    match reply
    case Unreachable(reason) => Fail(Transport(reason))
    case Response(status, _) =>
      if status == STATUS_NOT_FOUND then Ok(false)
      else if IsErrorStatus(status) then Fail(CheckFailed(status))
      else Ok(true)
  }

  /** The conflict answer: the index is already there. */
  predicate IsAlreadyExists(reply: Reply)
  {
    reply.Response? && reply.status == STATUS_BAD_REQUEST && Contains(reply.body, ALREADY_EXISTS_MARKER)
  }

  /** createIndexWithMapping: a non-error status is success, and so is the
      conflict answer; every other error status is a failure carrying the
      status and the body. */
  function CreateOutcome(reply: Reply): (r: Attempt<()>)
    ensures r.Ok? <==> reply.Response? && (!IsErrorStatus(reply.status) || IsAlreadyExists(reply))
    ensures reply.Unreachable? ==> r == Fail(Transport(reply.reason))
    ensures reply.Response? && r.Fail? ==> r.error == CreateFailed(reply.status, reply.body)
  {
    match reply
    case Unreachable(reason) => Fail(Transport(reason))
    case Response(status, body) =>
      if IsErrorStatus(status) then
        if status == STATUS_BAD_REQUEST && Contains(body, ALREADY_EXISTS_MARKER) then Ok(())
        else Fail(CreateFailed(status, body))
      else Ok(())
  }

  /** Conflict tolerance: "already exists" is indistinguishable from a fresh
      creation, so retried or concurrent creations of one index all succeed.
      The marker has to be in the body of a 400: the same body under any other
      error status is a failure. */
  lemma ConflictIsSuccess(prefix: string, suffix: string, other: int)
    requires IsErrorStatus(other) && other != STATUS_BAD_REQUEST
    ensures CreateOutcome(Response(400, prefix + ALREADY_EXISTS_MARKER + suffix)) == CreateOutcome(Response(200, ""))
    ensures CreateOutcome(Response(other, prefix + ALREADY_EXISTS_MARKER + suffix)).Fail?
    ensures CreateOutcome(Response(400, "")).Fail?
  {
    var body := prefix + ALREADY_EXISTS_MARKER + suffix;
    assert OccursAt(body, ALREADY_EXISTS_MARKER, |prefix|) by {
      assert body[|prefix|..|prefix| + |ALREADY_EXISTS_MARKER|] == ALREADY_EXISTS_MARKER;
    }
  }
}
