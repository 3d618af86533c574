/** Failure-compatible wrappers used for the Go `(value, error)` returns. */
module Wrappers {

  /** A value that may be missing; `None` stands for Go's nil error. */
  datatype Option<+T> = None | Some(value: T)

  /** A value or the error that was returned in its place. */
  datatype Result<+T, +E> = Success(value: T) | Failure(error: E)
}
