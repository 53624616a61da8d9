/** Optional values, used for every field or result the source may leave as `None`. */
module Wrappers {

  datatype Option<+T> = None | Some(value: T) {

    /** The present value, or `default` for `None`: how `duration_ms or 0` reads a missing duration. */
    function GetOr(default: T): T {
      match this
      case Some(v) => v
      case None => default
    }
  }
}
