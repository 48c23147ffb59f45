/** Failure-carrying result types shared by the two models. */
module Wrappers {


  /** A value, or the error the source raises instead of producing one. */
  datatype Result<+T, +E> = Success(value: T) | Failure(error: E)

  /** The outcome of an operation that returns nothing but may raise. */
  datatype Outcome<+E> = Pass | Fail(error: E)
}
