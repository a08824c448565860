/** Option and Result values shared by the modules of this model. */
module Wrappers {

  /** A value that may be missing: Python's `None` or a present value. */
  datatype Option<+T> = None | Some(value: T)

  /** The outcome of an operation that may raise: a value or the error raised. */
  datatype Result<+R, +E> = Success(value: R) | Failure(error: E)
}
