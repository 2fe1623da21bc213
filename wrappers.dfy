/** Result and outcome values standing for the Java methods' return-or-throw behaviour. */
module Wrappers {

  /** A value, or the error an operation would throw instead of returning it. */
  datatype Result<+T, +E> = Ok(value: T) | Err(error: E)

  /** Success of an operation that returns nothing, or the error it would throw. */
  datatype Outcome<+E> = Pass | Fail(error: E)
}
