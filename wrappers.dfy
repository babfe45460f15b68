/** Option and Result, the two failure-carrying types the model uses. */
module Wrappers {

  datatype Option<+T> = None | Some(value: T)

  /** `Err` carries the error a compile step reports (`compile::Result`). */
  datatype Result<+T, +E> = Ok(value: T) | Err(error: E)
}
