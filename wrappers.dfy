/** Failure-carrying values: the model's stand-in for null references and for
    the exceptions the service throws. */
module Wrappers {

  /** A value that may be absent (a C# `null`). */
  datatype Option<+T> = None | Some(value: T)

  /** Either a computed value or the error that the service would throw. */
  datatype Result<+T, +E> = Ok(value: T) | Err(error: E)

  /** An operation that returns nothing on success, or the error it throws. */
  datatype Outcome<+E> = Pass | Fail(error: E)
}
