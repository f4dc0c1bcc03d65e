/** An optional value, and the outcome of an operation that may throw. */
module Wrappers {

  /** An optional value; `None` also stands for JavaScript's `undefined`. */
  datatype Option<+T> = None | Some(value: T) {

    /** The value, or `default` when there is none. */
    function GetOr(default: T): T {
      match this
      case Some(v) => v
      case None => default
    }
  }

  /** The outcome of an operation that returns normally or throws an `Error` with a message. */
  datatype Result<+T> = Ok(value: T) | Err(error: string)
}
