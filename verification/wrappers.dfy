/** Failure-carrying result types shared by the parser and the role reconciler. */
module Wrappers {

  /** A value that may be absent: Go's `(value, ok bool)` pair. */
  datatype Option<+T> = None | Some(value: T)

  /** A value or an error: Go's `(value, err error)` pair. */
  datatype Result<+T, +E> = Success(value: T) | Failure(error: E)
}
