/** Failure-carrying wrappers used for the patcher's `None` returns and aborted runs. */
module Wrappers {

  /** A value that may be missing, as Python's `None`-or-value returns. */
  datatype Option<+T> = None | Some(value: T)

  /** Either a computed value or the reason it could not be computed. */
  datatype Result<+R, +E> = Success(value: R) | Failure(error: E)
}
