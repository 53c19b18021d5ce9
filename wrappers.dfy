/** Failure-carrying datatypes shared by the whole model. */
module Wrappers {

  /** A value that may be missing (JavaScript `null`). */
  datatype Option<+T> = None | Some(value: T)

  /** A computation that returns a value or throws an error. */
  datatype Result<+T, +E> = Ok(value: T) | Err(error: E)

  /** A check that passes or throws an error (a guard without a value). */
  datatype Outcome<+E> = Pass | Fail(error: E)
}
