/** Success and failure values: the exceptions, nulls and early returns of the modelled code. */
module Results {

  datatype Option<+T> = None | Some(value: T)

  /** What the code throws. TypeError stands for reading a coordinate of the point at infinity. */
  datatype Failure =
    | NoModularInverse
    | TypeError
    | InvalidPrivateKey
    | InvalidPublicKey
    | InvalidPublicKeyFormat
    | PointNotOnCurve
    | InvalidSharedSecret
    | NonceFailure
    | BadKeyLength
    | BadIvLength
    | BadCiphertextLength
    | InvalidHex
    | MissingKeys
    | MissingIvSegment

  datatype Result<+T> = Ok(value: T) | Err(failure: Failure) {
    predicate IsFailure() {
      Err?
    }

    function PropagateFailure<U>(): Result<U>
      requires Err?
    {
      Err(failure)
    }

    function Extract(): T
      requires Ok?
    {
      value
    }
  }
}
