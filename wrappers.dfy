/** Option and Result values used for Python's None and for raised exceptions. */
module Wrappers {

  datatype Option<+T> = None | Some(value: T) {
    function GetOr(default: T): T {
      match this
      case Some(v) => v
      case None => default
    }
  }

  /** The outcome of Python code that may raise: `Err` stands for any exception. */
  datatype Result<+T> = Ok(value: T) | Err
}
