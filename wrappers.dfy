/** The optional value used wherever the server reads something that may be
    `undefined`: an empty lobby's host, a missing dictionary entry, the turn
    holder of a game with no players. */
module Wrappers {

  datatype Option<+T> = None | Some(value: T) {

    /** The value, or `default` when there is none (JavaScript's `x || default`). */
    function GetOr(default: T): T {
      match this
      case Some(v) => v
      case None => default
    }
  }
}
