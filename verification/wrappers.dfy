/** Failure-carrying datatypes used throughout the model. */
module Wrappers {

  /** A value that may be absent: Python's `None`, or an exception that was caught. */
  datatype Option<+T> = None | Some(value: T)

  /** The result of an assertion-style check: it passes or fails with a reason. */
  datatype Outcome<+E> = Pass | Fail(error: E)

  /** A value or the exception raised instead of producing it. */
  datatype Result<+R, +E> = Success(value: R) | Failure(error: E)
}
