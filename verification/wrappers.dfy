/** Option and Result, the two failure-carrying shapes the model needs. */
module Wrappers {

  /** A value that may be absent (a JavaScript `undefined`). */
  datatype Option<+T> = None | Some(value: T)

  /** The outcome of a request handler: a value, or an HTTP status with its message. */
  datatype Result<+T> = Ok(value: T) | Failure(status: int, message: string)
}
