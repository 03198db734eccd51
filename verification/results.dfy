/** Failure-compatible wrappers used to model the fail-fast exceptions of the
    scanner and of the link merge. */
module Results {

  datatype Option<+T> = None | Some(value: T)

  /** `Ok` carries the value computed; `Err` carries the kind of exception thrown. */
  datatype Result<+T, +E> = Ok(value: T) | Err(error: E) {

    predicate IsFailure() {
      Err?
    }

    function PropagateFailure<U>(): Result<U, E>
      requires Err?
    {
      Err(error)
    }

    function Extract(): T
      requires Ok?
    {
      value
    }
  }
}
