/** Option and Result types used throughout the model.
    A `Failure` stands for the two ways the Python engine stops a session:
    an explicit `sys.exit(...)` (`Exit`) or an uncaught exception such as a
    KeyError, IndexError, AttributeError or TypeError (`Crash`). */
module Wrappers {

  datatype Option<+T> = None | Some(value: T) {
    function GetOr(default: T): T {
      match this
      case Some(v) => v
      case None => default
    }
  }

  datatype Failure = Exit(message: string) | Crash(message: string)

  datatype Result<+T> = Ok(value: T) | Err(failure: Failure) {
    predicate IsFailure() { Err? }

    function PropagateFailure<U>(): Result<U>
      requires Err?
    {
      Err(failure)
    }

    function Extract(): T
      requires Ok?
    {
      value
    }
  }
}
