/** The Option type used for Python's "value or exception" results. */
module Wrappers {

  datatype Option<+T> = None | Some(value: T) {

    /** The value held by Some, or `default` for None. */
    function GetOr(default: T): T
    {
      match this
      case Some(v) => v
      case None => default
    }
  }
}
