/** Optional values and success-or-failure results, used for the scorer's
    optional `expected` argument and for the error it raises when that
    argument is missing. */
module Wrappers {

  /** A value that may be absent (Python's `None`). */
  datatype Option<+T> = None | Some(value: T)

  /** The outcome of a call: a value, or the error the call raised. */
  datatype Result<+R, +E> = Success(value: R) | Failure(error: E)
}
