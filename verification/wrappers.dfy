/** Value-or-absent and value-or-error wrappers shared by the other modules. */
module Wrappers {

  /** Python's `None` versus a present value. */
  datatype Option<+T> = None | Some(value: T)

  /** A computation that either succeeds or raises the error carried in `Failure`. */
  datatype Result<+R, +E> = Success(value: R) | Failure(error: E)
}
