/** The enumerations of src/utils/enums.ts: the three seat statuses and the
    validation errors the repository raises. */
module Enums {

  /** `SeatStatus`: the status stored in a seat record. */
  datatype SeatStatus = Available | Held | Reserved

  /** The literal each status is stored as. */
  function StatusText(status: SeatStatus): string
  {
    match status
    case Available => "available"
    case Held => "held"
    case Reserved => "reserved"
  }

  /** `ValidationMessages`: every error the repository throws. */
  datatype ValidationMessage =
    | TotalSeatsInvalid
    | InvalidUserIdFormat
    | SeatNotAvailableOrHeld
    | CannotReserveSeat
    | CannotRefreshHold
    | TransactionFailed

  /** The message text carried by the thrown error. */
  function MessageText(m: ValidationMessage): string
  {
    match m
    case TotalSeatsInvalid => "Total seats must be between 10 and 1,000."
    case InvalidUserIdFormat => "Invalid userId format. Must be a valid UUID."
    case SeatNotAvailableOrHeld => "Seat not available or already held"
    case CannotReserveSeat => "Cannot reserve seat: not held by user"
    case CannotRefreshHold => "Cannot refresh hold: not held by user"
    case TransactionFailed => "Transaction failed"
  }

  /** Distinct statuses are stored as distinct literals, so a stored record
      can always be read back to the status that was written. */
  lemma StatusTextInjective(a: SeatStatus, b: SeatStatus)
    ensures StatusText(a) == StatusText(b) ==> a == b
  {
  }

  /** Distinct errors carry distinct messages, so a caller can tell them apart
      by the message alone. */
  lemma MessageTextInjective(a: ValidationMessage, b: ValidationMessage)
    ensures MessageText(a) == MessageText(b) ==> a == b
  {
  }
}
