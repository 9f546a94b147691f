/** Optional values and results with an error, standing in for Python's `None`
    and for the exceptions the modelled code can raise. */
module Wrappers {

  /** A value that may be absent: a missing dictionary key, or `None`. */
  datatype Option<+T> = None | Some(value: T) {

    /** The value, or `default` when absent (Python's `d.get(key, default)`). */
    function GetOr(default: T): T {
      match this
      case Some(v) => v
      case None => default
    }
  }

  /** The outcome of an operation that can raise. */
  datatype Result<+T, +E> = Success(value: T) | Failure(error: E)
}
