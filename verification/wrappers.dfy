/** Failure-carrying result types shared by the contest model. */
module Wrappers {

  /** A value that may be absent (a JavaScript `undefined` or `null`). */
  datatype Option<+T> = None | Some(value: T)

  /** The outcome of an operation that either yields a value or throws an error. */
  datatype Result<+R, +E> = Success(value: R) | Failure(error: E)

  /** The outcome of an operation whose only result is whether it threw. */
  datatype Outcome<+E> = Pass | Fail(error: E)
}
