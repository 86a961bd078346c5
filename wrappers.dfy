/** Option, Result and Outcome: the error paths of the model (Python exceptions). */
module Wrappers {

  datatype Option<+T> = None | Some(value: T)

  datatype Result<+R, +E> = Success(value: R) | Failure(error: E)

  /** The outcome of a Python call that returns None or raises. */
  datatype Outcome<+E> = Pass | Fail(error: E)
}
