/** Option for a nullable reference, Outcome for a call that may throw. */
module Wrappers {

  /** A value that may be absent; stands for a C# nullable reference (`string?`). */
  datatype Option<+T> = None | Some(value: T) {

    /** Returns the wrapped value, or `default` when absent. */
    function GetOr(default: T): T {
      match this
      case Some(v) => v
      case None => default
    }
  }

  /** The outcome of a check that either passes or fails with an error value;
      stands for a C# method that returns normally or throws. */
  datatype Outcome<+E> = Pass | Fail(error: E)
}
