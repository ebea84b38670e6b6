/** The records of src/types/index.ts, with the Option and Result wrappers the
    model uses for JavaScript's `null`/`undefined` and for thrown errors. */
module Types {
  import opened Enums

  datatype Option<T> = None | Some(value: T)

  /** An operation either returns a value or throws one of the validation
      errors. */
  datatype Result<T> = Ok(value: T) | Err(error: ValidationMessage)

  /** `SeatInfo`: the record stored per seat; `userId` is `null` for a free
      seat. */
  datatype SeatInfo = SeatInfo(status: SeatStatus, userId: Option<string>)

  /** `EventOperationResult`: the payload of a successful hold, reserve or
      refresh. */
  datatype EventOperationResult = EventOperationResult(status: string, seatId: string, userId: string)

  /** `EventCreationResult`: the payload of a successful createEvent. */
  datatype EventCreationResult = EventCreationResult(id: string, totalSeats: int)

  /** The status of a parsed record: a missing record parses as `{}`, whose
      `status` is `undefined`. */
  function StatusOf(record: Option<SeatInfo>): Option<SeatStatus>
  {
    if record.Some? then Some(record.value.status) else None
  }

  /** The owner of a parsed record: `undefined` for a missing record and
      `null` for a free seat are both None. */
  function HolderOf(record: Option<SeatInfo>): Option<string>
  {
    if record.Some? then record.value.userId else None
  }

  /** A seat record respects ownership: it names a user exactly when the seat
      is held or reserved. */
  predicate WellFormed(info: SeatInfo)
  {
    info.userId.Some? <==> info.status != Available
  }
}
