/** Optional values and throwing computations, as the quiz model needs them. */
module Wrappers {

  /** A value that may be absent: a record field that is `undefined`, or the
      `NaN` that `parseInt` returns when it finds no digits. */
  datatype Option<+T> = None | Some(value: T) {

    /** The JavaScript idiom `x || default` for a string-valued `x`. */
    function GetOr(default: T): T {
      match this
      case Some(v) => v
      case None => default
    }
  }

  /** The outcome of a computation that may throw; `Err` carries the thrown
      error's `message`. */
  datatype Result<+T> = Ok(value: T) | Err(message: string)
}
