/** Optional values and results with an error, shared by the other modules. */
module Wrappers {

  /** A value that may be missing (JavaScript `null` or `undefined`). */
  datatype Option<+T> = None | Some(value: T)

  /** The outcome of a call that may throw: a value, or the message of the error thrown. */
  datatype Result<+R, +E> = Success(value: R) | Failure(error: E)
}
