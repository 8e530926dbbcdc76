/** Failure-compatible wrappers used throughout the model in place of Java's `null`
    and of thrown exceptions. */
module Wrappers {

  /** `Some(v)` for a present value, `None` where the source has `null` or an empty `Optional`. */
  datatype Option<+T> = None | Some(value: T)

  /** `Ok(v)` for a normal return, `Err(e)` for an exception that ends the operation. */
  datatype Result<+T, +E> = Ok(value: T) | Err(error: E)
}
