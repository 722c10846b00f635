/** Option and Result: "undefined" values and error returns. */
module Wrappers {

  /** A value that may be undefined; `None` plays the role of pandas' NaN. */
  datatype Option<+T> = None | Some(value: T)

  /** The outcome of an operation that can raise an error. */
  datatype Result<+R, +E> = Success(value: R) | Failure(error: E)
}
