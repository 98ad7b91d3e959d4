/** Optional values: a JavaScript property or attribute that may be
    `null`/`undefined` is modelled as `None`. */
module Wrappers {

  datatype Option<+T> = None | Some(value: T) {

    /** The wrapped value, or `default` when absent (JavaScript's `v || default`
        for values that are never falsy except when absent). */
    function GetOr(default: T): T {
      match this
      case Some(v) => v
      case None => default
    }
  }
}
