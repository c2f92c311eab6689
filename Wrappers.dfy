/** Option, Result and Outcome: the error returns of the Go code, as values. */
module Wrappers {

  datatype Option<+T> = None | Some(value: T)

  datatype Result<+T, +E> = Ok(value: T) | Err(error: E)

  /** The outcome of an operation that returns only an error (Go's `error`). */
  datatype Outcome<+E> = Pass | Fail(error: E)
}
