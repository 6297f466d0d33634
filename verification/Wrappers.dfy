/** Result types shared by the model's modules. */
module Wrappers {

  /** A value that may be absent: the source's `Option` and Python's `None`. */
  datatype Option<+T> = None | Some(value: T) {
    function GetOr(default: T): T {
      match this
      case Some(v) => v
      case None => default
    }
  }

  /** The source's `Result`, and a Python function that may raise. */
  datatype Result<+T, +E> = Ok(value: T) | Err(error: E)
}
