/** The optional value returned by the user service (java.util.Optional). */
module Wrappers {

  datatype Option<+T> = None | Some(value: T) {

    /** Optional.orElse */
    function GetOr(default: T): T {
      match this
      case Some(v) => v
      case None => default
    }
  }
}
