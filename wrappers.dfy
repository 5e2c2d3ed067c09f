/** Option and Result values used where the Python code returns None-like
    values or raises. */
module Wrappers {

  datatype Option<+T> = None | Some(value: T)

  /** The outcome of an operation that either succeeds with a value or
      fails with an error, in place of a raised exception. */
  datatype Result<+R, +E> = Ok(value: R) | Err(error: E)
}
