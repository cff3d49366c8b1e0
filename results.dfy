/** The exceptions the modelled Python code can raise, as values. */
module Results {

  /** The Python exception class a failing call raises. */
  datatype ErrorKind = ValueError | IndexError

  datatype Result<T> = Ok(value: T) | Err(error: ErrorKind) {
    predicate IsFailure() {
      Err?
    }

    function PropagateFailure<U>(): Result<U>
      requires Err?
    {
      Err(error)
    }

    function Extract(): T
      requires Ok?
    {
      value
    }
  }
}
