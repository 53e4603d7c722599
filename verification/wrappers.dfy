/** Nullable values and failing computations. */
module Wrappers {

  /** A value that may be missing: pandas' NaN/None in a column becomes None. */
  datatype Option<+T> = None | Some(value: T) {

    /** The carried value, or `default` when missing. */
    function GetOr(default: T): T {
      match this
      case Some(v) => v
      case None => default
    }
  }

  /** The outcome of a computation that can abort with an error. */
  datatype Result<+R, +E> = Success(value: R) | Failure(error: E)
}
