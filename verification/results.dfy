/** Failure-carrying results shared by every operation that can raise a PETSc error code. */
module Results {

  /** Either the value an operation produced or the error it raised. */
  datatype Result<+T, +E> = Ok(value: T) | Err(error: E) {

    predicate IsFailure() {
      Err?
    }

    function PropagateFailure<U>(): Result<U, E>
      requires Err?
    {
      Err(error)
    }

    function Extract(): T
      requires Ok?
    {
      value
    }
  }

  /** A value that may be absent, as a C pointer that may be null. */
  datatype Option<+T> = None | Some(value: T)

  /** An operation that either passes its guards or raises an error, with no value. */
  datatype Outcome<+E> = Pass | Fail(error: E)
}
