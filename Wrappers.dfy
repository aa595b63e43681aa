/** Optional values and success-or-failure results, as used by the catalogue's operations. */
module Wrappers {

  /** A value that may be absent (JavaScript's `undefined`). */
  datatype Option<+T> = None | Some(value: T)

  /** The outcome of an operation: a value, or the error it failed with. */
  datatype Result<+R, +E> = Success(value: R) | Failure(error: E)
}
