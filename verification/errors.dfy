/** Error values and the two failure-compatible wrappers the model uses. */
module Errors {

  /** An error as Go's `error` interface carries it: only its message is observable. */
  datatype Error = Error(message: string)

  datatype Option<+T> = None | Some(value: T)

  /** A value or the error that prevented it (Go's `(T, error)` return pair). */
  datatype Result<+T> = Ok(value: T) | Err(error: Error)
}
