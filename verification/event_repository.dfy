/** The repository of src/domains/events/repositories/eventRepository.ts as
    code over the store object: each operation sends the same commands as the
    source (in the same order, except that createEvent's concurrent updates
    are sent one seat after another), and is proved to have exactly the
    outcome the seat lifecycle specifies. */
module EventRepository {
  import opened Enums
  import opened Types
  import opened Validators
  import opened SeatLabels
  import opened KeyValueStore
  import opened SeatLifecycle

  method UpdateSeatStatus(db: Store, eventId: string, seatId: string, status: SeatStatus, userId: Option<string>)
    modifies db
    ensures db.State() == SeatUpdated(old(db.State()), eventId, seatId, status, userId)
    ensures db.trace == old(db.trace) + UpdateCommands(eventId, seatId, status, userId)
    ensures SeatInvariant(old(db.State())) && WellFormed(SeatInfo(status, userId)) ==> SeatInvariant(db.State())
  {
    ghost var before := db.State();
    var write := HSet(EventKey(eventId), seatId, SeatInfo(status, userId));
    var membership := if status == Available then SAdd(AvailableSeatsKey(eventId), seatId)
                      else SRem(AvailableSeatsKey(eventId), seatId);
    db.HSet(EventKey(eventId), seatId, SeatInfo(status, userId));
    if status == Available {
      db.SAdd(AvailableSeatsKey(eventId), seatId);
    } else {
      db.SRem(AvailableSeatsKey(eventId), seatId);
    }
    ApplyWritesPair(before, write, membership);
    if SeatInvariant(before) && WellFormed(SeatInfo(status, userId)) {
      UpdatePreservesInvariant(before, eventId, seatId, status, userId);
    }
  }

  /** createEvent; the fresh identifier the generator would return is a
      parameter. */
  method CreateEvent(db: Store, eventId: string, totalSeats: int) returns (r: Result<EventCreationResult>)
    modifies db
    ensures var step := Create(old(db.State()), eventId, totalSeats);
      r == step.result && db.State() == step.next && db.trace == old(db.trace) + step.issued
    ensures SeatInvariant(old(db.State())) ==> SeatInvariant(db.State())
  {
    if !IsTotalSeatsValid(totalSeats) {
      return Err(TotalSeatsInvalid);
    }
    var i := 0;
    while i < totalSeats
      invariant 0 <= i <= totalSeats
      invariant db.State() == InitSeats(old(db.State()), eventId, i)
      invariant db.trace == old(db.trace) + InitCommands(eventId, i)
    {
      UpdateSeatStatus(db, eventId, SeatLabel(i + 1), Available, None);
      i := i + 1;
    }
    if SeatInvariant(old(db.State())) {
      InitSeatsPreservesInvariant(old(db.State()), eventId, totalSeats);
    }
    r := Ok(EventCreationResult(eventId, totalSeats));
  }

  method ListAvailableSeats(db: Store, eventId: string) returns (seats: seq<string>)
    modifies db`trace
    ensures forall s :: s in seats <==> s in AvailableSeats(db.State(), eventId)
    ensures forall i, j :: 0 <= i < j < |seats| ==> seats[i] != seats[j]
    ensures db.trace == old(db.trace) + [SMembers(AvailableSeatsKey(eventId))]
  {
    seats := db.SMembers(AvailableSeatsKey(eventId));
  }

  method GetSeatStatus(db: Store, eventId: string, seatId: string) returns (info: Option<SeatInfo>)
    modifies db`trace
    ensures info == Record(db.State(), eventId, seatId)
    ensures db.trace == old(db.trace) + [HGet(EventKey(eventId), seatId)]
  {
    info := db.HGet(EventKey(eventId), seatId);
  }

  /** holdSeat; `concurrentWrite` says that another client wrote the watched
      record hash between WATCH and EXEC. */
  method HoldSeat(db: Store, eventId: string, seatId: string, userId: string, validate: UuidValidator,
                  concurrentWrite: bool) returns (r: Result<EventOperationResult>)
    modifies db
    ensures var step := Hold(old(db.State()), eventId, seatId, userId, validate, concurrentWrite);
      r == step.result && db.State() == step.next && db.trace == old(db.trace) + step.issued
    ensures SeatInvariant(old(db.State())) ==> SeatInvariant(db.State())
  {
    if SeatInvariant(db.State()) {
      HoldPreservesInvariant(db.State(), eventId, seatId, userId, validate, concurrentWrite);
    }
    if !IsUserIdValid(validate, userId) {
      return Err(InvalidUserIdFormat);
    }
    db.Watch(EventKey(eventId));
    var seatStatus := db.HGet(EventKey(eventId), seatId);
    if !IsSeatAvailable(StatusOf(seatStatus)) {
      db.Unwatch();
      return Err(SeatNotAvailableOrHeld);
    }
    var multi := UpdateCommands(eventId, seatId, Held, Some(userId)) + [SetEx(HoldKey(eventId, seatId), HoldSeconds, Held)];
    var results := db.Exec(multi, concurrentWrite);
    if !IsTransactionSuccessful(results) {
      return Err(TransactionFailed);
    }
    return Ok(Success(seatId, userId));
  }

  method ReserveSeat(db: Store, eventId: string, seatId: string, userId: string, validate: UuidValidator,
                     concurrentWrite: bool) returns (r: Result<EventOperationResult>)
    modifies db
    ensures var step := Reserve(old(db.State()), eventId, seatId, userId, validate, concurrentWrite);
      r == step.result && db.State() == step.next && db.trace == old(db.trace) + step.issued
    ensures SeatInvariant(old(db.State())) ==> SeatInvariant(db.State())
  {
    if SeatInvariant(db.State()) {
      ReservePreservesInvariant(db.State(), eventId, seatId, userId, validate, concurrentWrite);
    }
    if !IsUserIdValid(validate, userId) {
      return Err(InvalidUserIdFormat);
    }
    db.Watch(EventKey(eventId));
    var seatStatus := db.HGet(EventKey(eventId), seatId);
    if !IsSeatHeldByUser(StatusOf(seatStatus), userId, HolderOf(seatStatus)) {
      db.Unwatch();
      return Err(CannotReserveSeat);
    }
    var multi := [HSet(EventKey(eventId), seatId, SeatInfo(Reserved, Some(userId)))];
    var results := db.Exec(multi, concurrentWrite);
    if !IsTransactionSuccessful(results) {
      return Err(TransactionFailed);
    }
    return Ok(Success(seatId, userId));
  }

  method RefreshHold(db: Store, eventId: string, seatId: string, userId: string, validate: UuidValidator,
                     concurrentWrite: bool) returns (r: Result<EventOperationResult>)
    modifies db
    ensures var step := Refresh(old(db.State()), eventId, seatId, userId, validate, concurrentWrite);
      r == step.result && db.State() == step.next && db.trace == old(db.trace) + step.issued
    ensures SeatInvariant(old(db.State())) ==> SeatInvariant(db.State())
  {
    if SeatInvariant(db.State()) {
      RefreshPreservesInvariant(db.State(), eventId, seatId, userId, validate, concurrentWrite);
    }
    if !IsUserIdValid(validate, userId) {
      return Err(InvalidUserIdFormat);
    }
    db.Watch(EventKey(eventId));
    var seatStatus := db.HGet(EventKey(eventId), seatId);
    if !IsSeatHeldByUser(StatusOf(seatStatus), userId, HolderOf(seatStatus)) {
      db.Unwatch();
      return Err(CannotRefreshHold);
    }
    var multi := [SetEx(HoldKey(eventId, seatId), HoldSeconds, Held)];
    var results := db.Exec(multi, concurrentWrite);
    if !IsTransactionSuccessful(results) {
      return Err(TransactionFailed);
    }
    return Ok(Success(seatId, userId));
  }
}
