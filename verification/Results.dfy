/** The exceptions the Python sources raise, as values.  Every operation that
    can raise returns a `Result`; the `:-` operator propagates the first error
    exactly as an uncaught exception would. */
module Results {

  datatype Error =
    | ValueError(message: string)
    | TypeError(message: string)
    /** a list or bytes index past the end (the message is not modelled) */
    | IndexError
    /** a dictionary lookup with an unknown key */
    | KeyError
    /** `i % 0` */
    | ZeroDivisionError

  datatype Result<+T> = Ok(value: T) | Err(error: Error) {

    predicate IsFailure() {
      Err?
    }

    function PropagateFailure<U>(): Result<U>
      requires Err?
    {
      Err(error)
    }

    function Extract(): T
      requires Ok?
    {
      value
    }
  }
}
