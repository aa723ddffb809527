/** Option and Result, used for Python's None and for exceptions that end a request. */
module Wrappers {

  datatype Option<+T> = None | Some(value: T) {
    function GetOr(default: T): T {
      match this
      case Some(v) => v
      case None => default
    }
  }

  /** A computation that either produced a value or raised the named Python exception. */
  datatype Result<+T> = Ok(value: T) | Err(error: string)
}
