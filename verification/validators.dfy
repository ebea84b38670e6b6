/** The guard predicates of src/utils/validators.ts. */
module Validators {
  import opened Enums
  import opened Types

  const MinTotalSeats: int := 10
  const MaxTotalSeats: int := 1000

  predicate IsTotalSeatsValid(totalSeats: int)
  {
    totalSeats >= MinTotalSeats && totalSeats <= MaxTotalSeats
  }

  /** The RFC 4122 check of the `uuid` package. Its pattern is not part of
      this model, so the check is a parameter: every property below holds
      whatever validator is supplied. */
  type UuidValidator = string -> bool

  predicate IsUserIdValid(validate: UuidValidator, userId: string)
  {
    validate(userId)
  }

  predicate IsSeatAvailable(status: Option<SeatStatus>)
  {
    status == Some(Available)
  }

  predicate IsSeatHeldByUser(status: Option<SeatStatus>, userId: string, expectedUserId: Option<string>)
  {
    status == Some(Held) && Some(userId) == expectedUserId
  }

  predicate IsSeatHeld(status: Option<SeatStatus>)
  {
    status == Some(Held)
  }

  /** `results !== null`: EXEC answers null exactly when the transaction was
      aborted. */
  predicate IsTransactionSuccessful<T>(results: Option<T>)
  {
    results.Some?
  }

  /** The accepted seat counts are exactly 10..1000; the neighbours 9 and
      1001 are refused. */
  lemma TotalSeatsBounds(n: int)
    ensures IsTotalSeatsValid(n) <==> 10 <= n <= 1000
    ensures IsTotalSeatsValid(10) && IsTotalSeatsValid(1000)
    ensures !IsTotalSeatsValid(9) && !IsTotalSeatsValid(1001)
  {
  }

  /** Only an available status passes the availability guard; held,
      reserved and a missing record do not. */
  lemma AvailableOnlyWhenAvailable(status: Option<SeatStatus>)
    ensures IsSeatAvailable(status) <==> status == Some(Available)
    ensures !IsSeatAvailable(Some(Held)) && !IsSeatAvailable(Some(Reserved)) && !IsSeatAvailable(None)
  {
  }

  /** Ownership needs a held status and the same user: a reserved seat fails
      even for its own user, and ownership implies the seat is held. */
  lemma HeldByUserRequiresHold(status: Option<SeatStatus>, userId: string, expected: Option<string>)
    ensures IsSeatHeldByUser(status, userId, expected) <==> status == Some(Held) && expected == Some(userId)
    ensures IsSeatHeldByUser(status, userId, expected) ==> IsSeatHeld(status)
    ensures !IsSeatHeldByUser(Some(Reserved), userId, Some(userId))
    ensures !IsSeatHeldByUser(None, userId, Some(userId))
  {
  }

  /** No status is both available and held. */
  lemma AvailableAndHeldExclusive(status: Option<SeatStatus>)
    ensures !(IsSeatAvailable(status) && IsSeatHeld(status))
  {
  }

  /** The transaction check accepts any reply list and refuses only null. */
  lemma TransactionSuccessfulIffNotNull<T>(results: Option<T>)
    ensures IsTransactionSuccessful(results) <==> results != None
  {
  }
}
