/** Failure-compatible helper datatypes shared by every module of the model. */
module Wrappers {

  /** The model's rendering of Python's `None`-or-value. */
  datatype Option<+T> = None | Some(value: T) {

    /** Returns the wrapped value, or `default` when there is none. */
    function GetOr(default: T): T {
      match this
      case Some(v) => v
      case None => default
    }
  }

  /** The result of a call into code this model does not see (a library, the
      operating system, a foreign routine): either it returned a value or it
      raised an exception. */
  datatype Outcome<+T> = Returned(value: T) | Raised
}
