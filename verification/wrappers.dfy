/** The optional-value type used wherever the plugin passes or returns a
    possibly-null reference (a missing zone key, a missing marker, an
    unparsable number). */
module Wrappers {

  datatype Option<+T> = None | Some(value: T) {

    /** The wrapped value, or `default` when there is none. */
    function GetOr(default: T): T {
      match this
      case Some(v) => v
      case None => default
    }
  }
}
