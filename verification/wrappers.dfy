/** The Some/None wrapper used for Python's `Optional` values and `None` returns. */
module Wrappers {

  datatype Option<+T> = None | Some(value: T) {

    /** The wrapped value, or `default` for None (Python's `x or default` on optionals). */
    function GetOr(default: T): T {
      match this
      case Some(v) => v
      case None => default
    }
  }
}
