/** Option, Result and Outcome values used for the handlers' error returns. */
module Wrappers {

  /** A value that may be absent (JavaScript `undefined`/`null`, or a missing row). */
  datatype Option<+T> = None | Some(value: T)

  /** Either a success value or the error a handler throws. */
  datatype Result<+T, +E> = Ok(value: T) | Err(error: E)

  /** Success without a value, or the error a validation step raises. */
  datatype Outcome<+E> = Pass | Fail(error: E)
}
