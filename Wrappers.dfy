/** The option and result types shared by the modules of this project. */
module Wrappers {

  /** An optional value: a JSON property that may be absent or null. */
  datatype Option<+T> = None | Some(value: T) {
    /** The value held, or `default` when there is none. */
    function GetOr(default: T): T {
      match this
      case Some(v) => v
      case None => default
    }
  }

  /** A value or the error that prevented computing it. */
  datatype Result<+R, +E> = Ok(value: R) | Err(error: E)

  /** Success, or the error an operation reported while it still changed state. */
  datatype Outcome<+E> = Pass | Fail(error: E)
}
