/** Failure-carrying datatypes shared by every module of the model. */
module Wrappers {

  /** A value that may be missing: an absent file, a NULL column, an unset setting. */
  datatype Option<+T> = None | Some(value: T) {

    /** The carried value, or `default` when there is none. */
    function GetOr(default: T): T {
      match this
      case Some(v) => v
      case None => default
    }
  }

  /** The outcome of an operation that can fail with an error value. */
  datatype Result<+T, +E> = Ok(value: T) | Err(error: E)

  /** The unit value, for operations whose success carries nothing. */
  datatype Unit = Unit
}
