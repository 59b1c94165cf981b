/** Optional values and error-carrying results, shared by every module of the model. */
module Wrappers {

  /** A value that may be absent: Python's `None` or a missing dictionary key. */
  datatype Option<+T> = None | Some(value: T) {
    /** Python's `d.get(key, default)`: the value when present, the default otherwise. */
    function GetOr(default: T): T {
      if Some? then value else default
    }
  }

  /** The outcome of an operation that either succeeds with a value or reports an error. */
  datatype Result<+T, +E> = Ok(value: T) | Err(error: E)
}
