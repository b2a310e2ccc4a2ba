/** Failure-compatible wrappers shared by the buffer and the SASL models. */
module Wrappers {

  /** A value that may be absent: Java's nullable reference. */
  datatype Option<+T> = None | Some(value: T)

  /** A value or the error that the operation raised instead. */
  datatype Result<+T, +E> = Ok(value: T) | Err(error: E)

  /** Success or the error that the operation raised; for operations returning nothing. */
  datatype Outcome<+E> = Pass | Fail(error: E)
}
