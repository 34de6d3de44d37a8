/** Optional values, HTTP-style failures and results shared by every module. */
module Outcomes {

  /** A nullable value (a SQL NULL column, an absent query parameter). */
  datatype Option<+T> = None | Some(value: T)

  /** The HTTP errors the endpoints raise. */
  datatype Failure =
    | NotFound        // 404
    | BadRequest      // 400
    | Unauthorized    // 401
    | Forbidden       // 403
    | Unprocessable   // 422, request body rejected by schema validation
    | InternalError   // 500, an uncaught exception or a database error
  {
    /** The HTTP status code sent to the client. */
    function Code(): int {
      match this
      case NotFound => 404
      case BadRequest => 400
      case Unauthorized => 401
      case Forbidden => 403
      case Unprocessable => 422
      case InternalError => 500
    }
  }

  /** Either a value or an error. */
  datatype Result<+T, +E> = Success(value: T) | Failure(error: E)

  /** The outcome of an endpoint: a value or an HTTP error. */
  type Response<T> = Result<T, Failure>
}
