/** The optional value of the source: `null`, `undefined` or a missing map entry. */
module Wrappers {

  datatype Option<+T> = None | Some(value: T) {

    /** The value if present, else `default` (the source's `x ?? d` and `x || d`). */
    function GetOr(default: T): T
    {
      match this
      case Some(v) => v
      case None => default
    }
  }
}
