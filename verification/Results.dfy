/** Failure-compatible results shared by every parser of the model. */
module Results {

  datatype Option<+T> = None | Some(value: T) {
    predicate IsFailure() {
      None?
    }

    function PropagateFailure<U>(): Option<U>
      requires None?
    {
      None
    }

    function Extract(): T
      requires Some?
    {
      value
    }
  }

  /** The variants of the library's error type that the modelled operations return. */
  datatype Error =
    | InvalidHeader
    | InvalidHeaderType(headerType: nat)
    | EmptyRegion
    | InvalidCrashLog
    | NoCrashLogFound

  datatype Result<+T> = Ok(value: T) | Err(error: Error) {
    predicate IsFailure() {
      Err?
    }

    function PropagateFailure<U>(): Result<U>
      requires Err?
    {
      Err(error)
    }

    function Extract(): T
      requires Ok?
    {
      value
    }
  }
}
