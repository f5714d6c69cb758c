/** Option, Result and Outcome: the absent values and the exceptions of the
    code modelled here, written as values. */
module Wrappers {

  datatype Option<+T> = None | Some(value: T)

  datatype Result<+T, +E> = Ok(value: T) | Err(error: E) {
    predicate IsFailure() { Err? }

    function PropagateFailure<U>(): Result<U, E>
      requires Err?
    {
      Err(error)
    }

    function Extract(): T
      requires Ok?
    {
      value
    }
  }

  /** The outcome of an operation that only changes state: it completes, or it throws. */
  datatype Outcome<+E> = Pass | Fail(error: E)
}
