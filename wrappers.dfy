/** Option and Result, the shapes of JavaScript's `null` returns and thrown errors in this model. */
module Wrappers {

  datatype Option<+T> = None | Some(value: T)

  datatype Result<+T, +E> = Ok(value: T) | Err(error: E)
}
