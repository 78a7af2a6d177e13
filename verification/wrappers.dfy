/** Failure-carrying values shared by the rest of the model. */
module Wrappers {

  datatype Option<+T> = None | Some(value: T)

  /** The outcome of a computation that may throw: `Failure` carries the error message. */
  datatype Result<+R> = Success(value: R) | Failure(error: string)
}
