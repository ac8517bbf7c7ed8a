/** Failure-compatible wrappers used across the model: `Option` for "may be
    absent" and `Result` for the Go `(value, error)` return pairs. */
module Wrappers {

  datatype Option<+T> = None | Some(value: T)

  datatype Result<+T, +E> = Success(value: T) | Failure(error: E)
}
