/** Optional values and fallible results shared by every module of the model. */
module Wrappers {

  /** A value that may be absent: JavaScript's `null`/`undefined`. */
  datatype Option<+T> = None | Some(value: T) {

    /** The wrapped value, or `default` when absent. */
    function GetOr(default: T): T {
      match this
      case Some(v) => v
      case None => default
    }
  }

  /**
   * The outcome of a step that can throw: `Err` stands for a rejected
   * `fetchJson` promise that is not caught on the way to the caller.
   */
  datatype Result<+T> = Ok(value: T) | Err(reason: string)
}
