/** Optional values and success/failure results, used for replies that may be
    missing and for operations that can be rejected. */
module Wrappers {

  /** A value that may be absent (a failed request, a missing JSON key). */
  datatype Option<+T> = None | Some(value: T) {

    /** The value, or `default` when it is absent (Python's `dict.get(key, default)`). */
    function GetOr(default: T): T {
      match this
      case Some(v) => v
      case None => default
    }
  }

  /** Either a value or the reason the operation was rejected. */
  datatype Result<+R, +E> = Success(value: R) | Failure(error: E)
}
