/** The exceptions the package raises, and the value-or-exception type
    every fallible operation of the model returns. */
module Results {

  /** The Python exception classes raised by the package's own code. */
  datatype Error =
    | TypeError
    | ValueError
    | AttributeError
      /** SecureStorageKeyError (a ValueError subclass) naming the offending option slot. */
    | SecureStorageKeyError(slot: string)

  datatype Option<+T> = None | Some(value: T)

  /** A value, or the exception that was raised instead. */
  datatype Result<+T> = Ok(value: T) | Err(error: Error) {

    predicate IsFailure() {
      Err?
    }

    function PropagateFailure<U>(): Result<U>
      requires Err?
    {
      Err(error)
    }

    function Extract(): T
      requires Ok?
    {
      value
    }
  }
}
