/** Failure-carrying result types used by the form service model. */
module Wrappers {

  datatype Option<+T> = None | Some(value: T)

  /** A computed value, or the error that stopped the computation. */
  datatype Result<+R, +E> = Success(value: R) | Failure(error: E)

  /** The outcome of an operation that changes state and returns nothing else. */
  datatype Outcome<+E> = Pass | Fail(error: E)
}
