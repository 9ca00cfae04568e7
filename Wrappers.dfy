/** Success/failure wrappers used to model the exceptions the library throws. */
module Wrappers {

  datatype Option<+T> = None | Some(value: T)

  /** A value, or the exception that the modelled call throws instead of returning. */
  datatype Result<+T, +E> = Success(value: T) | Failure(error: E)

  /** A call that returns nothing, or the exception it throws. */
  datatype Outcome<+E> = Pass | Fail(error: E)
}
