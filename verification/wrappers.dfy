/** The optional value used throughout the model: `None` stands for the
    absent value of a Swift optional (and, for the colour decoder, for the
    gray fallback). */
module Wrappers {

  datatype Option<+T> = None | Some(value: T) {

    /** The wrapped value, or `default` when there is none. */
    function GetOr(default: T): T {
      match this
      case Some(v) => v
      case None => default
    }
  }
}
