/** Failure-carrying values used where the program returns an error or a nil pointer. */
module Wrappers {

  /** A value that may be absent (a Go pointer that may be nil). */
  datatype Option<+T> = None | Some(value: T)

  /** Either a value or an error (a Go `(error, value)` pair where exactly one side is meaningful). */
  datatype Result<+R, +E> = Success(value: R) | Failure(error: E)
}
