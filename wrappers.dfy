/** Failure-compatible wrappers shared by the whole model. */
module Wrappers {

  /** `None` stands for JavaScript's `null`/`undefined` (or NaN where a number is parsed). */
  datatype Option<+T> = None | Some(value: T)

  /** The outcome of an operation that can throw: `Err` is the exception. */
  datatype Result<+T, +E> = Ok(value: T) | Err(error: E)
}
