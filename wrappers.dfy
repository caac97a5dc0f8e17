/** Optional values and success/failure results, as the rest of the model uses them. */
module Wrappers {

  /** A value that may be absent: JSON `null` or a missing key in a response. */
  datatype Option<+T> = None | Some(value: T) {
    function GetOr(default: T): T {
      match this
      case Some(v) => v
      case None => default
    }
  }

  /** The outcome of an operation that either produces a value or raises an error. */
  datatype Result<+T, +E> = Success(value: T) | Failure(error: E)
}
