/**
  Failure-compatible wrappers used throughout the model: `Option` stands for
  the "unset" (NaN) sentinel of the original program, `Result` for a
  computation that may end the program with an error.
 */
module Results {

  datatype Option<+T> = None | Some(value: T)

  datatype Result<+T, +E> = Ok(value: T) | Err(error: E) {

    predicate IsFailure() {
      Err?
    }

    function PropagateFailure<U>(): Result<U, E>
      requires Err?
    {
      Err(error)
    }

    function Extract(): T
      requires Ok?
    {
      value
    }
  }
}
