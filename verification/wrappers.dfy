/** The Option, Result and Outcome datatypes shared by the other modules. */
module Wrappers {

  datatype Option<+T> = None | Some(value: T)

  datatype Result<+T, +E> = Success(value: T) | Failure(error: E)

  /** The outcome of a command that returns nothing on success. */
  datatype Outcome<+E> = Pass | Fail(error: E)
}
