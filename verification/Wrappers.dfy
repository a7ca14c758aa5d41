/** Failure-compatible result types shared by every module of the model. */
module Wrappers {

  /** An optional value: Go's nil pointer or "not found" result. */
  datatype Option<+T> = None | Some(value: T)

  /** A value or an error, as in Go's `(T, error)` return pairs. */
  datatype Result<+R, +E> = Success(value: R) | Failure(error: E)
}
