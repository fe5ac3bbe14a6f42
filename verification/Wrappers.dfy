/** The failure types every operation returns. */
module Wrappers {

  datatype Option<+T> = None | Some(value: T)

  /** The source's error enum, without the text its variants carry. */
  datatype Error =
    | InvalidLength
    | InvalidPoint
    | InvalidScalar
    | MismatchedLengths
    | IndexOutOfRange
    | TooMany
    | VerificationFailed
    | SignerFailed
    | Unsupported
    | MalformedContainer

  datatype Result<+T> = Ok(value: T) | Err(error: Error) {
    predicate IsFailure() { Err? }

    function PropagateFailure<U>(): Result<U>
      requires Err?
    {
      Err(error)
    }

    function Extract(): T
      requires Ok?
    {
      value
    }
  }

  /** `?` on a check that yields nothing. */
  function Need(condition: bool, error: Error): Result<()> {
    if condition then Ok(()) else Err(error)
  }
}
