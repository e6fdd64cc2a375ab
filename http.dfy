/** Values shared by both variants of the service: optional values, results
    that carry either a payload or an error, and the error kinds the handlers
    report together with the HTTP status each one is answered with. */
module Http {

  datatype Option<+T> = None | Some(value: T) {
    /** The value, or `default` when there is none. */
    function GetOr(default: T): T {
      if Some? then value else default
    }
  }

  datatype Result<+T, +E> = Ok(value: T) | Err(error: E)

  /** The error kinds the handlers raise as HTTPException. */
  datatype ApiError =
    | BadRequest   // 400: integrity failure other than a duplicate, or an update with no fields
    | NotFound     // 404: no such id, or a soft-delete of an already deleted row
    | Conflict     // 409: the e-mail is already held by a row
    | Internal     // 500: any other failure, caught by the handler's last `except`

  /** The status code of the HTTPException raised for an error kind. Every
      kind is a client error except Internal, the only server error. */
  function StatusCode(e: ApiError): (code: int)
    ensures 400 <= code < 600
    ensures code >= 500 <==> e == Internal
  {
    match e
    case BadRequest => 400
    case NotFound => 404
    case Conflict => 409
    case Internal => 500
  }
}
