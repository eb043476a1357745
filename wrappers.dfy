/** Option and Result, the stock failure-carrying datatypes used across the model. */
module Wrappers {

  /** A value that may be absent: SQL NULL and Python None. */
  datatype Option<+T> = None | Some(value: T)

  /** The outcome of an operation that can raise: a value, or the error it raised. */
  datatype Result<+R, +E> = Success(value: R) | Failure(error: E)
}
