/** Failure-carrying values used throughout the model: Go's `(*T, error)`
    returns and its `(nil, nil)` "no row" convention. */
module Wrappers {

  /** `None` is Go's nil pointer returned with a nil error: the row is absent. */
  datatype Option<+T> = None | Some(value: T)

  /** A value or the error that the Go code returns instead of it. */
  datatype Result<+T, +E> = Ok(value: T) | Err(error: E)

  /** An operation that returns only an error (Go's bare `error`). */
  datatype Outcome<+E> = Pass | Fail(error: E)
}
