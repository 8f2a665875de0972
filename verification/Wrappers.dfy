/** Failure values shared by every module. */
module Wrappers {

  datatype Option<+T> = None | Some(value: T)

  datatype Result<+T, +E> = Ok(value: T) | Err(error: E) {
    predicate IsFailure() {
      Err?
    }

    function PropagateFailure<U>(): Result<U, E>
      requires Err?
    {
      Err(error)
    }

    function Extract(): T
      requires Ok?
    {
      value
    }
  }

  /** A check that yields nothing but may fail. */
  function Need<E>(condition: bool, error: E): Result<(), E> {
    if condition then Ok(()) else Err(error)
  }
}
