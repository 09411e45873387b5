/** Failure-carrying values shared by the modules of the authentication source. */
module Wrappers {

  /** A value that may be absent (PHP's `null` / an unset key). */
  datatype Option<+T> = None | Some(value: T)

  /** The outcome of an operation that either yields a value or throws. */
  datatype Result<+R, +E> = Success(value: R) | Failure(error: E)
}
