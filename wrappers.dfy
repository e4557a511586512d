/** Absence markers and error-carrying results, used where the Python code
    returns None or raises. */
module Wrappers {

  /** Python's `None` versus a present value. */
  datatype Option<+T> = None | Some(value: T)

  /** A returned value, or the exception the Python code raises instead. */
  datatype Result<+R, +E> = Success(value: R) | Failure(error: E)
}
