/** Python's `None`-or-value results and raised exceptions, as datatypes. */
module Wrappers {

  /** A value or Python's `None`. */
  datatype Option<+T> = None | Some(value: T)

  /** A value, or the error a Python call raises instead of returning. */
  datatype Result<+R, +E> = Success(value: R) | Failure(error: E)
}
