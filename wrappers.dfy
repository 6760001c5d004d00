/** The optional value used for nullable columns, optional request fields and
    lookups that may find nothing (Python's `Optional[...]` / `None`). */
module Wrappers {

  datatype Option<+T> = None | Some(value: T) {

    /** The value if present, otherwise `default` (Python's `x if x is not None else default`). */
    function GetOr(default: T): T {
      match this
      case Some(v) => v
      case None => default
    }
  }
}
