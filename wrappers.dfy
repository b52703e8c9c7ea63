/** Option, Result and Outcome: the error paths of the database and HTTP layers. */
module Wrappers {
  datatype Option<+T> = None | Some(value: T)

  datatype Result<+R, +E> = Success(value: R) | Failure(error: E)

  /** A statement that either takes effect (Pass) or raises an error and takes no effect (Fail). */
  datatype Outcome<+E> = Pass | Fail(error: E)
}
