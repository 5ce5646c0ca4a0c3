/** The result of an operation that may raise a Python exception. */
module Wrappers {

  /** `Err` stands for a raised Python exception; it carries the exception's message. */
  datatype Result<+T, +E> = Ok(value: T) | Err(error: E)
}
