/** Failure-compatible helper datatypes used throughout the model. */
module Wrappers {

  /** Python's `None` / a present value. */
  datatype Option<+T> = None | Some(value: T)

  /** The result of a call that returns nothing but may raise. */
  datatype Outcome<+E> = Pass | Fail(error: E)

  /** The result of a call that returns a value or raises. */
  datatype Result<+R, +E> = Ok(value: R) | Err(error: E)
}
