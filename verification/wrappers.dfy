/** Failure-carrying value types shared by every module of the model.
    `Option` stands for Kotlin's nullable types, `Result` for a call that either
    returns or throws. */
module Wrappers {

  /** A Kotlin `T?`: `None` is `null`. */
  datatype Option<+T> = None | Some(value: T) {

    /** The wrapped value, or `default` when absent (Kotlin's `?:`). */
    function GetOr(default: T): T {
      match this
      case Some(v) => v
      case None => default
    }
  }

  /** Either a returned value or the message of the exception the call threw. */
  datatype Result<+T> = Ok(value: T) | Err(message: string)
}
