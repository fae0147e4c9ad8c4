/** Failure-compatible wrappers: the Go pattern `(value, error)` becomes a Result,
    and a bare `error` return becomes an Option of the error. */
module Wrappers {

  datatype Option<+T> = None | Some(value: T)

  datatype Result<+T, +E> = Success(value: T) | Failure(error: E)
}
