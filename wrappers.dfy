/** Option and Result, the two failure-carrying shapes the program uses. */
module Wrappers {

  datatype Option<+T> = None | Some(value: T)

  /** Rust's `Result`: `Err` carries the error value. */
  datatype Result<+T, +E> = Ok(value: T) | Err(error: E)
}
