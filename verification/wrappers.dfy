/**
  Failure-carrying result types. The Python utilities signal errors by raising
  (KeyError, TypeError); the model returns a `Failure` instead.
 */
module Wrappers {

  /** An optional value: Python's `None` or a present value. */
  datatype Option<+T> = None | Some(value: T)

  /** Either a value or the error the source would raise. */
  datatype Result<+R, +E> = Success(value: R) | Failure(error: E)
}
