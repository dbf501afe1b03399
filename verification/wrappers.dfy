/** Failure-compatible wrappers shared by the whole model. */
module Wrappers {

  /** A value that may be absent: SQL NULL, a pandas NaN, a missing group. */
  datatype Option<+T> = None | Some(value: T)

  /** A computation that yields a value or an error. */
  datatype Result<+T, +E> = Success(value: T) | Failure(error: E)

  /** A computation that yields nothing but may fail. */
  datatype Outcome<+E> = Pass | Fail(error: E)
}
