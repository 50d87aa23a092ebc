/** Failure-compatible wrappers used by the Miller-Rabin model. */
module Wrappers {

  /** A value that may be absent. */
  datatype Option<+T> = None | Some(value: T)

  /** A value, or the error that prevented computing it (a thrown exception). */
  datatype Result<+T, +E> = Success(value: T) | Failure(error: E)
}
