/** Option and Result values, shaped after the Rust types the decoder returns. */
module Wrappers {

  datatype Option<+T> = None | Some(value: T)

  /** `Ok` carries the computed value, `Err` the reason the computation stopped. */
  datatype Result<+T, +E> = Ok(value: T) | Err(error: E)
}
