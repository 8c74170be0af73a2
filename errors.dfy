/** The exceptions the drivers raise before touching the bus, and the result shapes
    that carry them. */
module Errors {

  /** `ValueError` for a bad channel, position, brightness, colour shape or precision;
      `OverflowError` for a packed colour that does not fit three bytes. */
  datatype Error = ValueError | OverflowError

  /** The result of an operation that returns a value or raises. */
  datatype Result<T> = Success(value: T) | Failure(error: Error)

  /** The result of an operation that returns nothing or raises. */
  datatype Outcome = Pass | Fail(error: Error)
}
