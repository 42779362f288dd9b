/** Stand-ins for JavaScript's `undefined` and for exceptions. */
module Wrappers {

  /** A value that may be `undefined`. */
  datatype Option<+T> = None | Some(value: T)

  /** What a call into user code produced: a value, or an exception it threw. */
  datatype Result<+R, +E> = Success(value: R) | Failure(error: E)
}
