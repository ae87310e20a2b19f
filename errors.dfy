/** The error handlers of the application: a fixed table from HTTP status to a JSON body
    `{success: false, error: <code>, message: <text>}`. */
module Errors {
  import opened Wrappers

  /** The five statuses that have a registered handler. */
  datatype Status = BadRequest | NotFound | MethodNotAllowed | Unprocessable | InternalServerError

  /** The numeric HTTP status of each handler. */
  function Code(s: Status): int
  {
    match s
    case BadRequest => 400
    case NotFound => 404
    case MethodNotAllowed => 405
    case Unprocessable => 422
    case InternalServerError => 500
  }

  /** The fixed human-readable message each handler sends. */
  function Message(s: Status): string
  {
    match s
    case BadRequest => "bad request"
    case NotFound => "resource not found"
    case MethodNotAllowed => "Method Not allowed"
    case Unprocessable => "unprocessable"
    case InternalServerError => "Internal server error"
  }

  /** The handler registered for a numeric status, if any. */
  function HandlerFor(code: int): (r: Option<Status>)
    ensures r.Some? <==> code in {400, 404, 405, 422, 500}
    ensures r.Some? ==> Code(r.value) == code
  {
    if code == 400 then Some(BadRequest)
    else if code == 404 then Some(NotFound)
    else if code == 405 then Some(MethodNotAllowed)
    else if code == 422 then Some(Unprocessable)
    else if code == 500 then Some(InternalServerError)
    else None
  }

  datatype ErrorBody = ErrorBody(success: bool, error: int, message: string)

  /** The JSON body an error handler returns; the HTTP status of the response is `Code(s)`. */
  function ErrorResponse(s: Status): (b: ErrorBody)
    ensures !b.success
    ensures HandlerFor(b.error) == Some(s)
  {
    ErrorBody(false, Code(s), Message(s))
  }

  /** The body carries nothing but the status: two error bodies are equal exactly when their
      statuses are, and the message alone identifies the status. */
  lemma ErrorBodyDeterminesStatus(s: Status, t: Status)
    ensures ErrorResponse(s) == ErrorResponse(t) <==> s == t
    ensures Message(s) == Message(t) ==> s == t
  {
  }
}
