/** Optional values and results with an error, as the renderer code uses
    `null`/`undefined` and thrown exceptions. */
module Wrappers {

  datatype Option<+T> = None | Some(value: T) {
    /** `x ?? d` / `x || d` on an optional value */
    function GetOr(default: T): T {
      match this
      case Some(v) => v
      case None => default
    }
  }

  datatype Result<+T, +E> = Ok(value: T) | Err(error: E)
}
