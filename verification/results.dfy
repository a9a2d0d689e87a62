/** Outcomes of the modelled operations: a value, or the Python exception the
    source raises. Messages are not modelled, only the exception class. */
module Results {

  /** The exception classes raised by the modelled code. `AssertionFailure`
      stands for an `assert` statement of the source firing, `BareException`
      for a `raise Exception(...)`. */
  datatype Error =
    | ValueError
    | IndexError
    | TypeError
    | NotImplementedError
    | ZeroDivisionError
    | JaxprTypeError
    | AssertionFailure
    | BareException
    | StopIteration

  datatype Option<+T> = None | Some(value: T)

  datatype Result<+T> = Ok(value: T) | Err(error: Error) {
    predicate IsFailure() {
      Err?
    }

    function PropagateFailure<U>(): Result<U>
      requires Err?
    {
      Err(error)
    }

    function Extract(): T
      requires Ok?
    {
      value
    }
  }
}
