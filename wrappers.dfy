/** The optional-value and success-or-error types shared by the other modules. */
module Wrappers {

  /** A value that may be absent: JavaScript's `undefined`/`null` next to a present value. */
  datatype Option<+T> = None | Some(value: T)

  /** The outcome of an operation that either yields a value or throws. */
  datatype Result<+T, +E> = Ok(value: T) | Err(error: E)
}
