/** Failure-carrying result types used by the search model. */
module Wrappers {

  /** A value that may be missing. */
  datatype Option<+T> = None | Some(value: T)

  /** Either a computed value or the error raised instead of it. */
  datatype Result<+T, +E> = Success(value: T) | Failure(error: E)
}
