/** Optional values, for Python's `None`. */
module Wrappers {

  datatype Option<T> = None | Some(value: T) {

    /** The encapsulated value, or `default` for None. */
    function GetOr(default: T): T {
      match this
      case Some(v) => v
      case None => default
    }
  }
}
