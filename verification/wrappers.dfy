/** Failure-compatible wrappers: an optional value (a Go pointer that may be
    nil) and a value-or-error pair (a Go `(T, error)` result). */
module Wrappers {

  datatype Option<+T> = None | Some(value: T)

  datatype Result<+T, +E> = Success(value: T) | Failure(error: E)
}
