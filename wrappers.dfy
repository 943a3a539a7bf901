/** Option and Result, the two failure-carrying shapes the server's Rust code returns. */
module Wrappers {

  datatype Option<+T> = None | Some(value: T)

  /** `Result<R, E>`: `Success` carries the value, `Failure` the error. */
  datatype Result<+R, +E> = Success(value: R) | Failure(error: E)
}
