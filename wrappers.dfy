/** Optional values and success-or-error results, used wherever the Swift code
    has an optional (`T?`) or a throwing call. */
module Wrappers {

  datatype Option<+T> = None | Some(value: T) {
    /** The `??` operator: the wrapped value, or `default` when absent. */
    function GetOr(default: T): T {
      match this
      case Some(v) => v
      case None => default
    }
  }

  datatype Result<+T, +E> = Ok(value: T) | Err(error: E)
}
