/** Failure-carrying values: Go's `(value, error)` pairs and nil-able errors. */
module Wrappers {

  /** A value that may be absent; `None` stands for Go's nil error. */
  datatype Option<+T> = None | Some(value: T)

  /** Either a value or the error that stopped its computation. */
  datatype Result<+R, +E> = Success(value: R) | Failure(error: E)
}
