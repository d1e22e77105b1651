/** Option and Result, the two failure-carrying shapes the model needs. */
module Wrappers {

  /** A value that may be absent (the nil pointer of the source). */
  datatype Option<+T> = None | Some(value: T)

  /** A value, or the error that stopped its computation. */
  datatype Result<+R, +E> = Success(value: R) | Failure(error: E)
}
