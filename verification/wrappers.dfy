/** The Some/None datatype used for an edge score that the spatial join
    may have left unset (a missing value in the edge table). */
module Wrappers {

  datatype Option<+T> = None | Some(value: T) {

    /** Returns the value held in Some, or `default` when None. */
    function GetOr(default: T): T {
      if Some? then value else default
    }
  }
}
