/** Failure-carrying values shared by every module of the runtime model.

    The Java runtime signals failure by throwing: its own `NaturalException`
    (with a message naming the reason) or one of the JDK's unchecked
    exceptions. Here every throw becomes an `Err` carrying which of those it
    was, and Java's `null` becomes `None`. */
module Results {

  /** A value that may be absent: Java's nullable reference. */
  datatype Option<+T> = None | Some(value: T) {
    function GetOr(default: T): T {
      match this
      case Some(v) => v
      case None => default
    }
  }

  /** Why the runtime itself threw a `NaturalException`. */
  datatype Reason =
    | UnsupportedDynamicMask
    | UnsupportedMaskValue(c: char)
    | InvalidEncodedText
    | RecordNotFound
    | InvalidKeyValue
    | UnsupportedStringEditMask
    | InputDoesNotMatchEditMask
    | ScalarSlice
    | StringDoesNotFitParts

  /** Every exception the modelled code can raise. */
  datatype Error =
    | NaturalException(reason: Reason)
    | IndexOutOfBounds
    | NullPointer
    | NumberFormat
    | IllegalArgument
    | IllegalFormat
    | NegativeArraySize

  /** Either the value a Java method returns or the exception it throws. */
  datatype Result<+T> = Ok(value: T) | Err(error: Error) {
    predicate IsFailure() {
      Err?
    }

    function PropagateFailure<U>(): Result<U>
      requires Err?
    {
      Err(error)
    }

    function Extract(): T
      requires Ok?
    {
      value
    }
  }
}
