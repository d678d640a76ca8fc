/** The optional values, results and HTTP errors shared by every module of the model. */
module Wrappers {

  /** A value that may be missing: JavaScript's `undefined`/`null`, a row that was not found. */
  datatype Option<+T> = None | Some(value: T) {
    function GetOr(default: T): T {
      match this
      case Some(v) => v
      case None => default
    }
  }

  /** The outcome of a request handler: a value, or the error it hands to `next`. */
  datatype Result<+T, +E> = Ok(value: T) | Err(error: E)

  /** What an Express error handler renders: an HTTP status and a message. */
  datatype HttpError = HttpError(status: int, message: string)
}
