/** Optional values and success-or-error results, standing in for Python's
    `dict.get` defaults and raised exceptions. */
module Results {

  /** A value that may be absent, such as a missing key of a JSON record. */
  datatype Option<+T> = None | Some(value: T) {

    /** The value, or `default` when absent: Python's `d.get(key, default)`. */
    function GetOr(default: T): T {
      match this
      case Some(v) => v
      case None => default
    }
  }

  /** The outcome of a step that either returns a value or raises. */
  datatype Result<+T, +E> = Success(value: T) | Failure(error: E)
}
