/** Optional values: `None` stands for JavaScript's `undefined` (a missing
    record field) or, as the result of parsing, for `NaN`. */
module Wrappers {

  datatype Option<+T> = None | Some(value: T) {

    /** The value, or the given default when there is none. */
    function GetOr(default: T): T {
      match this
      case Some(v) => v
      case None => default
    }
  }
}
