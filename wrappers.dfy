/** Option and Result values used by the controllers' models. */
module Wrappers {

  /** A value that may be absent (an undefined field or query parameter). */
  datatype Option<+T> = None | Some(value: T) {

    /** The carried value, or `default` when absent. */
    function GetOr(default: T): T {
      match this
      case Some(v) => v
      case None => default
    }
  }

  /** Either a response body or the error the controller answers with. */
  datatype Result<+T, +E> = Ok(value: T) | Err(error: E)
}
