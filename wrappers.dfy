/** Option and Result, the two failure-carrying shapes the driver's Rust code returns. */
module Wrappers {

  datatype Option<+T> = None | Some(value: T)

  datatype Result<+T, +E> = Ok(value: T) | Err(error: E)

  /** The unit value `()` of a `Result<(), E>`. */
  datatype Unit = Unit
}
