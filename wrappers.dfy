/** The optional and error-carrying values that stand in for the source's nullable references
    and thrown exceptions. */
module Wrappers {

  /** A nullable reference or nullable value: `None` is C#'s `null`. */
  datatype Option<+T> = None | Some(value: T) {

    /** The value, or `default` when there is none (C#'s `??`). */
    function GetOr(default: T): T {
      match this
      case Some(v) => v
      case None => default
    }
  }

  /** The outcome of an operation that either yields a value or throws. */
  datatype Result<+R, +E> = Success(value: R) | Failure(error: E)
}
