/** Failure-carrying result types shared by the modules of this model. */
module Wrappers {

  datatype Option<+T> = None | Some(value: T)

  /** A computation that either produces a value or stops with an error
      (the script's unhandled exceptions). */
  datatype Result<+R, +E> = Success(value: R) | Failure(error: E)
}
