/** Optional value used for navigation outputs. */
module Wrappers {

  /** An optional value: `None` when there is nothing, `Some(v)` otherwise. */
  datatype Option<+T> = None | Some(value: T) {

    /** The wrapped value, or `default` when there is none. */
    function GetOr(default: T): T {
      match this
      case Some(v) => v
      case None => default
    }
  }
}
