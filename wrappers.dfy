/** Optional values: JavaScript's `undefined`/`null` results and optional fields. */
module Wrappers {

  datatype Option<+T> = None | Some(value: T) {

    /** The carried value, or a default when absent. */
    function GetOr(default: T): T {
      match this
      case Some(v) => v
      case None => default
    }
  }
}
