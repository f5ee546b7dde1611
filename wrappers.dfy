/** Failure-compatible result types shared by the modules of this model. */
module Wrappers {

  datatype Option<+T> = None | Some(value: T)

  /** The value of an operation that either succeeds or raises an exception. */
  datatype Result<+R, +E> = Success(value: R) | Failure(error: E)
}
