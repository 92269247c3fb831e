/** Optional values and failing results, used for JavaScript `undefined`/`null`
    and for the services' thrown errors. */
module Wrappers {

  /** `None` stands for an absent (`undefined` or `null`) value. */
  datatype Option<+T> = None | Some(value: T) {

    /** The value, or `default` when absent (JavaScript `x ?? default`). */
    function GetOr(default: T): T {
      match this
      case Some(v) => v
      case None => default
    }
  }

  /** A call that either returns a value or throws an `Error` with a message. */
  datatype Result<+T> = Ok(value: T) | Err(message: string)
}
