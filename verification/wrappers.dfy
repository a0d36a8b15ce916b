/** The optional value used wherever the program reads something that may be
    absent: a missing response header, a URL that does not parse, a lookup
    that finds nothing. */
module Wrappers {

  datatype Option<+T> = None | Some(value: T) {

    /** Returns the value, or `default` when there is none. */
    function GetOr(default: T): T {
      match this
      case Some(v) => v
      case None => default
    }
  }
}
