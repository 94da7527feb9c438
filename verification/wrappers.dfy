/** Failure-carrying results shared by the Geffe and RSA models. */
module Wrappers {

  datatype Option<+T> = None | Some(value: T)

  /** The outcome of an operation that the source aborts with an exception or an early return. */
  datatype Result<+R, +E> = Ok(value: R) | Err(error: E)
}
