/** Failure-compatible result types shared by the model, and the faults the
    Python code can raise on the modelled paths. */
module Wrappers {

  datatype Option<+T> = None | Some(value: T)

  /** Success carries the value; Failure carries the fault that escaped. */
  datatype Result<+T, +E> = Success(value: T) | Failure(error: E) {

    predicate IsFailure() {
      Failure?
    }

    function PropagateFailure<U>(): Result<U, E>
      requires Failure?
    {
      Failure(error)
    }

    function Extract(): T
      requires Success?
    {
      value
    }
  }

  /** The exceptions of app.py that the model follows:
      - EmptyDeck: `list.pop` on an exhausted deck (IndexError);
      - NotInList: `list.remove` of a player that is not registered (ValueError);
      - SendRuntimeError: a RuntimeError raised by a socket send outside `broadcast`. */
  datatype Fault = EmptyDeck | NotInList | SendRuntimeError
}
