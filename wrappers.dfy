/** The optional value used for lookups that may find nothing (Python's `None`). */
module Wrappers {

  datatype Option<+T> = None | Some(value: T) {

    /** The value held in Some, or the given default. */
    function GetOr(default: T): T {
      match this
      case Some(v) => v
      case None => default
    }

    /** This value when present, else the other one. */
    function OrElse(other: Option<T>): Option<T> {
      if Some? then this else other
    }
  }
}
