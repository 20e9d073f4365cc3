/** Option and Result, the two shapes the workflow loader returns. */
module Wrappers {

  datatype Option<+T> = None | Some(value: T)

  /** Success with a value, or failure with an error value. */
  datatype Result<+T, +E> = Ok(value: T) | Err(error: E)
}
