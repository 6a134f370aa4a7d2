/** Errors the services return, and the result types that carry them.
    The first eight are the sentinel errors of the service package; the last
    three stand for failures the store itself reports and the services pass
    on unchanged. */
module Errors {

  datatype Error =
    | NotFound                     // ErrNotFound
    | AlreadyExists                // ErrAlreadyExists
    | RelatedResourceExists        // ErrRelatedResourceExists
    | NoTicketsAvailable           // ErrNoTicketsAvailable
    | ShowtimeNotExist             // ErrShowtimeNotExist
    | AlreadyReserved              // ErrAlreadyReserved
    | ShowtimeSeatNotExist         // ErrShowtimeSeatNotExist
    | ShowtimeSeatStatusNotChange  // ErrShowtimeSeatStatusNotChange
    | RecordNotFound               // the store's own "record not found", not mapped by the caller
    | DuplicateKey                 // a unique index refused a write
    | CheckViolation               // a check constraint refused a write

  datatype Option<+T> = None | Some(value: T)

  /** A value, or the error that replaced it. A failed transactional
      operation carries no state: whatever it wrote is rolled back. */
  datatype Result<+T> = Ok(value: T) | Err(error: Error) {
    function ToOutcome(): Outcome {
      match this
      case Ok(_) => Success
      case Err(e) => Failure(e)
    }
  }

  /** What a Go function returning only `error` returns: nil or an error. */
  datatype Outcome = Success | Failure(error: Error)
}
