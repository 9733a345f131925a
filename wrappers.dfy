/** Failure-compatible result types shared by the modules of this model. */
module Wrappers {

  datatype Option<+T> = None | Some(value: T)

  /** The value of a call that either returns normally or throws. */
  datatype Result<+T, +E> = Success(value: T) | Failure(error: E)
}
