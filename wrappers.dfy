/** Option: an optional value, used for absent XML attributes and for
    results that may be missing. */
module Wrappers {

  datatype Option<+T> = None | Some(value: T) {

    /** The value, or `default` when absent. */
    function GetOr(default: T): T {
      match this
      case Some(v) => v
      case None => default
    }
  }

  /** Outcome of an operation that can be refused. */
  datatype Result<+T> = Ok(value: T) | Err(error: string)
}
