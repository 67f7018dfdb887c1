/** Optional values and exception results. */
module Wrappers {

  /** An optional value: a dictionary lookup that may miss. */
  datatype Option<+T> = None | Some(value: T) {

    /** The wrapped value, or `default` when there is none (Python's `dict.get(key, default)`). */
    function GetOr(default: T): T
    {
      match this
      case Some(v) => v
      case None => default
    }
  }

  /** A computation that either succeeds or raises an exception. */
  datatype Result<+R, +E> = Ok(value: R) | Err(error: E)
}
