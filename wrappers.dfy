/** The absent-or-present value and the success-or-error value used by every layer. */
module Wrappers {

  /** A value that may be absent (Python's `Optional[...]`, `None` being the absence). */
  datatype Option<+T> = None | Some(value: T) {
    /** The carried value, or `default` when absent (`x if x is not None else default`). */
    function GetOr(default: T): T {
      match this
      case Some(v) => v
      case None => default
    }
  }

  /** The outcome of an operation that may raise: `Ok` carries the result, `Err` the raised error. */
  datatype Result<+T, +E> = Ok(value: T) | Err(error: E)
}
