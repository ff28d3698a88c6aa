/** Option, Result and Outcome: the error paths of the machine, as values. */
module Wrappers {

  datatype Option<+T> = None | Some(value: T)

  datatype Result<+R, +E> = Success(value: R) | Failure(error: E)

  /** A check that either passes or fails with an error (a void function that may throw). */
  datatype Outcome<+E> = Pass | Fail(error: E)
}
