/**
 * Failure-carrying values for the image editor model.
 *
 * Every exception the editor's core can raise is an `Error`; `Kind` says which
 * Java exception class the original throws for it, so contracts can state
 * "fails with IllegalArgumentException" without modelling exceptions.
 */
module Results {

  /** The Java exception classes the core raises. */
  datatype ExceptionKind = IllegalArgument | IllegalState | IO

  datatype Error =
    // image construction and pixel access
    | InvalidDimensions
    | InvalidMaxValue
    | CoordinatesOutOfRange
    | ColorOutOfRange
    // a null argument where an image is required
    | NullImage
    // the name-to-image store
    | EmptyName
    | NoSuchImage
    | DuplicateName
    // the P3 text reader
    | EndOfInput
    | BadMagic
    | NotANumber
    // file and codec boundary
    | UnsupportedFormat
    | CannotOpen
    | DecodeFailed
    | EncodeFailed
    // an I/O failure re-raised by the load and save commands
    | LoadFailed(cause: Error)
    | SaveFailed(cause: Error)
  {
    /** The Java exception class thrown for this error. */
    function Kind(): ExceptionKind {
      match this
      case DuplicateName | LoadFailed(_) | SaveFailed(_) => IllegalState
      case EndOfInput | BadMagic | CannotOpen | DecodeFailed | EncodeFailed => IO
      case _ => IllegalArgument
    }
  }

  /** A Java reference that may be null. */
  datatype Option<+T> = None | Some(value: T)

  /** The value of a call that either returns or throws. */
  datatype Result<+T> = Ok(value: T) | Err(error: Error) {
    predicate IsFailure() {
      Err?
    }

    function PropagateFailure<U>(): Result<U>
      requires Err?
    {
      Err(error)
    }

    function Extract(): T
      requires Ok?
    {
      value
    }
  }
}
