/** Value wrappers shared by every module: an optional value (a nullable
    column or a JSON `null`), the presence of a field in a request body,
    and the outcome of a handler. */
module Common {

  datatype Option<+T> = None | Some(value: T)

  /** Whether a request body mentioned a field at all. `Present(None)` is a
      field sent as JSON `null`, which is not the same as leaving it out. */
  datatype Field<+T> = Omitted | Present(value: T)

  /** The errors the handlers report, with the HTTP status each maps to. */
  datatype ApiError =
    | NotFound              // 404: no row with the requested id
    | Unprocessable         // 422: the body does not match the request schema
    | IntegrityError        // 500: the database refused the commit (NOT NULL)
    | BadRequest(detail: string)  // 400: a precondition of the handler failed
    | ResponseInvalid       // 500: the stored row does not fit the response schema
    | BadGateway(detail: string)  // 502: the upstream AI service failed

  datatype Result<+T> = Ok(value: T) | Err(error: ApiError)

  function StatusCode(e: ApiError): (code: nat)
    ensures 400 <= code < 600
    ensures code == 404 <==> e.NotFound?
  {
    match e
    case NotFound => 404
    case Unprocessable => 422
    case IntegrityError => 500
    case BadRequest(_) => 400
    case ResponseInvalid => 500
    case BadGateway(_) => 502
  }
}
