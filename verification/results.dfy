/** Failure-compatible result and option types shared by every module of the model. */
module Results {

  /** Either a value or the error the source raises instead. */
  datatype Result<+T, +E> = Ok(value: T) | Err(error: E) {

    predicate IsFailure() {
      Err?
    }

    function PropagateFailure<U>(): Result<U, E>
      requires Err?
    {
      Err(error)
    }

    function Extract(): T
      requires Ok?
    {
      value
    }
  }

  /** A value that may be absent, e.g. a failed name lookup. */
  datatype Option<+T> = None | Some(value: T)
}
