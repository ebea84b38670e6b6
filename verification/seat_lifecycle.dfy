/** The seat lifecycle of src/domains/events/repositories/eventRepository.ts
    as functions on the store's contents: each operation gives its result,
    the new store contents and the commands it sends. The imperative
    repository (module EventRepository) is proved to do exactly this. */
module SeatLifecycle {
  import opened Enums
  import opened Types
  import opened Validators
  import opened SeatLabels
  import opened KeyValueStore

  /** Time to live of a hold marker, in seconds. */
  const HoldSeconds: nat := 60

  /** The hash of seat records of an event. */
  function EventKey(eventId: string): string
  {
    "event:" + eventId
  }

  /** The set of available seats of an event. */
  function AvailableSeatsKey(eventId: string): string
  {
    "event:" + eventId + ":available_seats"
  }

  /** The hold marker of a seat, whose expiry releases the hold. */
  function HoldKey(eventId: string, seatId: string): string
  {
    "hold:" + eventId + ":" + seatId
  }

  /** Distinct events never share a record hash or an available-set. */
  lemma KeysInjective(a: string, b: string)
    ensures EventKey(a) == EventKey(b) ==> a == b
    ensures AvailableSeatsKey(a) == AvailableSeatsKey(b) ==> a == b
  {
    assert EventKey(a)[6..] == a && EventKey(b)[6..] == b;
    var ka, kb := AvailableSeatsKey(a), AvailableSeatsKey(b);
    assert ka[6..|ka| - 16] == a && kb[6..|kb| - 16] == b;
  }

  /** getSeatStatus: the parsed record of a seat; None is the empty object
      returned for a missing record. */
  function Record(st: StoreState, eventId: string, seatId: string): Option<SeatInfo>
  {
    HashGet(st, EventKey(eventId), seatId)
  }

  /** listAvailableSeats: the members of the event's available-set. */
  function AvailableSeats(st: StoreState, eventId: string): set<string>
  {
    Members(st, AvailableSeatsKey(eventId))
  }

  /** The consistency the transitions keep: a seat is in its event's
      available-set exactly when its record says available, and a record
      names a user exactly when the seat is held or reserved. */
  ghost predicate SeatInvariant(st: StoreState)
  {
    && (forall e, s :: s in AvailableSeats(st, e) <==> IsSeatAvailable(StatusOf(Record(st, e, s))))
    && (forall e, s :: Record(st, e, s).Some? ==> WellFormed(Record(st, e, s).value))
  }

  /** A new store, which holds nothing, is consistent; with the invariant
      kept by every operation, every store the repository reaches is. */
  lemma EmptyStoreConsistent()
    ensures SeatInvariant(EmptyStore)
  {
  }

  /** No seat record other than (e, s) changes, and no available-set changes
      except in the membership of s in the set of e. */
  ghost predicate UnchangedElsewhere(st: StoreState, st': StoreState, e: string, s: string)
  {
    && (forall e', s' :: (e', s') != (e, s) ==> Record(st', e', s') == Record(st, e', s'))
    && (forall e' :: e' != e ==> AvailableSeats(st', e') == AvailableSeats(st, e'))
    && AvailableSeats(st', e) - {s} == AvailableSeats(st, e) - {s}
  }

  /** The outcome of an operation: what it returns or throws, the store
      contents afterwards and the commands it sent, in order. */
  datatype Step<T> = Step(result: Result<T>, next: StoreState, issued: seq<Command>)

  // ---------------------------------------------------------------------
  // Single writes, seen through the repository's key layout

  lemma RecordWrite(st: StoreState, e: string, s: string, info: SeatInfo)
    ensures var r := ApplyWrite(st, HSet(EventKey(e), s, info));
      && Record(r, e, s) == Some(info)
      && (forall e', s' :: (e', s') != (e, s) ==> Record(r, e', s') == Record(st, e', s'))
      && r.sets == st.sets && r.expiring == st.expiring
  {
    var r := ApplyWrite(st, HSet(EventKey(e), s, info));
    forall e', s' | (e', s') != (e, s)
      ensures Record(r, e', s') == Record(st, e', s')
    {
      KeysInjective(e, e');
    }
  }

  lemma AvailableWrite(st: StoreState, e: string, s: string, c: Command)
    requires c == SAdd(AvailableSeatsKey(e), s) || c == SRem(AvailableSeatsKey(e), s)
    ensures AvailableSeats(ApplyWrite(st, c), e) == (if c.SAdd? then AvailableSeats(st, e) + {s} else AvailableSeats(st, e) - {s})
    ensures forall e' :: e' != e ==> AvailableSeats(ApplyWrite(st, c), e') == AvailableSeats(st, e')
    ensures ApplyWrite(st, c).hashes == st.hashes && ApplyWrite(st, c).expiring == st.expiring
  {
    forall e' | e' != e
      ensures AvailableSeats(ApplyWrite(st, c), e') == AvailableSeats(st, e')
    {
      KeysInjective(e, e');
    }
  }

  // ---------------------------------------------------------------------
  // updateSeatStatus

  /** The two commands of updateSeatStatus: write the record, then add the
      seat to the available-set or remove it from it. */
  function UpdateCommands(e: string, s: string, status: SeatStatus, userId: Option<string>): seq<Command>
  {
    [ HSet(EventKey(e), s, SeatInfo(status, userId)),
      if status == Available then SAdd(AvailableSeatsKey(e), s) else SRem(AvailableSeatsKey(e), s) ]
  }

  /** The store after updateSeatStatus(e, s, status, userId). */
  function SeatUpdated(st: StoreState, e: string, s: string, status: SeatStatus, userId: Option<string>): StoreState
  {
    ApplyWrites(st, UpdateCommands(e, s, status, userId))
  }

  /** updateSeatStatus stores exactly {status, userId} for the seat, puts the
      seat in its event's available-set exactly when the status is available,
      and changes no other record, no other set and no hold marker. */
  lemma UpdateEffect(st: StoreState, e: string, s: string, status: SeatStatus, userId: Option<string>)
    ensures var r := SeatUpdated(st, e, s, status, userId);
      && Record(r, e, s) == Some(SeatInfo(status, userId))
      && (s in AvailableSeats(r, e) <==> status == Available)
      && UnchangedElsewhere(st, r, e, s)
      && r.expiring == st.expiring
  {
    var cs := UpdateCommands(e, s, status, userId);
    ApplyWritesPair(st, cs[0], cs[1]);
    RecordWrite(st, e, s, SeatInfo(status, userId));
    var mid := ApplyWrite(st, cs[0]);
    AvailableWrite(mid, e, s, cs[1]);
    assert forall e' :: AvailableSeats(mid, e') == AvailableSeats(st, e');
  }

  /** updateSeatStatus keeps the store consistent when the record it writes
      respects ownership. */
  lemma UpdatePreservesInvariant(st: StoreState, e: string, s: string, status: SeatStatus, userId: Option<string>)
    requires SeatInvariant(st)
    requires WellFormed(SeatInfo(status, userId))
    ensures SeatInvariant(SeatUpdated(st, e, s, status, userId))
  {
    var r := SeatUpdated(st, e, s, status, userId);
    UpdateEffect(st, e, s, status, userId);
    forall e', s'
      ensures s' in AvailableSeats(r, e') <==> IsSeatAvailable(StatusOf(Record(r, e', s')))
    {
      if e' == e && s' != s {
        assert s' in AvailableSeats(r, e) - {s} <==> s' in AvailableSeats(st, e) - {s};
      }
    }
  }

  // ---------------------------------------------------------------------
  // createEvent

  /** The store after seats 1..k of event e were initialised to available. */
  function InitSeats(st: StoreState, e: string, k: nat): StoreState
  {
    if k == 0 then st else SeatUpdated(InitSeats(st, e, k - 1), e, SeatLabel(k), Available, None)
  }

  /** The commands that initialise seats 1..k. */
  function InitCommands(e: string, k: nat): seq<Command>
  {
    if k == 0 then [] else InitCommands(e, k - 1) + UpdateCommands(e, SeatLabel(k), Available, None)
  }

  /** createEvent(totalSeats), where eventId is the fresh identifier the
      generator returned. */
  function Create(st: StoreState, eventId: string, totalSeats: int): (out: Step<EventCreationResult>)
    ensures out.result.Ok? <==> IsTotalSeatsValid(totalSeats)
    ensures out.result.Err? ==> out.result.error == TotalSeatsInvalid && out.next == st && out.issued == []
    ensures out.result.Ok? ==> out.result.value == EventCreationResult(eventId, totalSeats)
  {
    if !IsTotalSeatsValid(totalSeats) then Step(Err(TotalSeatsInvalid), st, [])
    else Step(Ok(EventCreationResult(eventId, totalSeats)), InitSeats(st, eventId, totalSeats), InitCommands(eventId, totalSeats))
  }

  /** After initialising seats 1..k each of them is available with no user,
      and every other record, of this event or another, is as before. */
  lemma {:induction false} InitSeatsRecords(st: StoreState, e: string, k: nat)
    ensures forall i :: 1 <= i <= k ==> Record(InitSeats(st, e, k), e, SeatLabel(i)) == Some(SeatInfo(Available, None))
    ensures forall e', s' :: (e' != e || s' !in SeatLabelsUpTo(k)) ==>
      Record(InitSeats(st, e, k), e', s') == Record(st, e', s')
  {
    if k > 0 {
      InitSeatsRecords(st, e, k - 1);
      var r := InitSeats(st, e, k);
      UpdateEffect(InitSeats(st, e, k - 1), e, SeatLabel(k), Available, None);
      SeatLabelsUpToSucc(k);
      forall i | 1 <= i < k
        ensures Record(r, e, SeatLabel(i)) == Some(SeatInfo(Available, None))
      {
        SeatLabelInjective(i, k);
      }
    }
  }

  /** Marking a seat available adds exactly that seat to the event's set. */
  lemma AddedToAvailable(st: StoreState, e: string, s: string)
    ensures AvailableSeats(SeatUpdated(st, e, s, Available, None), e) == AvailableSeats(st, e) + {s}
  {
    var r := SeatUpdated(st, e, s, Available, None);
    UpdateEffect(st, e, s, Available, None);
    var a, b := AvailableSeats(r, e), AvailableSeats(st, e);
    assert s in a;
    assert a - {s} == b - {s};
    forall x ensures x in a <==> x in b + {s} {
      if x != s {
        assert x in a <==> x in a - {s};
        assert x in b <==> x in b - {s};
      }
    }
  }

  /** After initialising seats 1..k the event's available-set gained exactly
      those seats. */
  lemma {:induction false} InitSeatsAvailable(st: StoreState, e: string, k: nat)
    ensures AvailableSeats(InitSeats(st, e, k), e) == AvailableSeats(st, e) + SeatLabelsUpTo(k)
  {
    if k > 0 {
      InitSeatsAvailable(st, e, k - 1);
      SeatLabelsUpToSucc(k);
      AddedToAvailable(InitSeats(st, e, k - 1), e, SeatLabel(k));
    }
  }

  /** Initialising seats of one event changes no other event's available-set
      and no hold marker. */
  lemma {:induction false} InitSeatsOtherEvents(st: StoreState, e: string, k: nat)
    ensures forall e' :: e' != e ==> AvailableSeats(InitSeats(st, e, k), e') == AvailableSeats(st, e')
    ensures InitSeats(st, e, k).expiring == st.expiring
  {
    if k > 0 {
      InitSeatsOtherEvents(st, e, k - 1);
      UpdateEffect(InitSeats(st, e, k - 1), e, SeatLabel(k), Available, None);
    }
  }

  /** Initialising seats keeps the store consistent. */
  lemma {:induction false} InitSeatsPreservesInvariant(st: StoreState, e: string, k: nat)
    requires SeatInvariant(st)
    ensures SeatInvariant(InitSeats(st, e, k))
  {
    if k > 0 {
      InitSeatsPreservesInvariant(st, e, k - 1);
      UpdatePreservesInvariant(InitSeats(st, e, k - 1), e, SeatLabel(k), Available, None);
    }
  }

  function CountRecordWrites(cs: seq<Command>): nat
  {
    if cs == [] then 0 else CountRecordWrites(cs[..|cs| - 1]) + (if cs[|cs| - 1].HSet? then 1 else 0)
  }

  function CountSetAdds(cs: seq<Command>): nat
  {
    if cs == [] then 0 else CountSetAdds(cs[..|cs| - 1]) + (if cs[|cs| - 1].SAdd? then 1 else 0)
  }

  /** Initialising k seats sends exactly k record writes and k set additions,
      and nothing else; every one of them goes to the event's own keys. */
  lemma {:induction false} InitCommandsCount(e: string, k: nat)
    ensures |InitCommands(e, k)| == 2 * k
    ensures CountRecordWrites(InitCommands(e, k)) == k
    ensures CountSetAdds(InitCommands(e, k)) == k
    ensures forall c :: c in InitCommands(e, k) ==>
      (c.HSet? && c.key == EventKey(e)) || (c.SAdd? && c.key == AvailableSeatsKey(e))
  {
    if k > 0 {
      InitCommandsCount(e, k - 1);
      var p := InitCommands(e, k - 1);
      var u := UpdateCommands(e, SeatLabel(k), Available, None);
      var cs := InitCommands(e, k);
      assert cs == (p + [u[0]]) + [u[1]];
      assert (p + [u[0]])[..|p|] == p;
      assert cs[..|cs| - 1] == p + [u[0]];
    }
  }

  /** createEvent on a new event id: the event has exactly the seats
      seat1..seatN, all available and all listed as available. */
  lemma CreateEventOnNewId(st: StoreState, eventId: string, totalSeats: int)
    requires EventKey(eventId) !in st.hashes && AvailableSeatsKey(eventId) !in st.sets
    requires IsTotalSeatsValid(totalSeats)
    ensures var r := Create(st, eventId, totalSeats).next;
      && AvailableSeats(r, eventId) == SeatLabelsUpTo(totalSeats)
      && |AvailableSeats(r, eventId)| == totalSeats
      && (forall s :: Record(r, eventId, s).Some? <==> s in SeatLabelsUpTo(totalSeats))
      && (forall s :: s in SeatLabelsUpTo(totalSeats) ==> Record(r, eventId, s) == Some(SeatInfo(Available, None)))
  {
    var n: nat := totalSeats;
    InitSeatsRecords(st, eventId, n);
    InitSeatsAvailable(st, eventId, n);
    SeatLabelsCount(n);
    var r := InitSeats(st, eventId, n);
    assert AvailableSeats(st, eventId) == {};
    forall s | s in SeatLabelsUpTo(n)
      ensures Record(r, eventId, s) == Some(SeatInfo(Available, None))
    {
      var i :| 1 <= i <= n && s == SeatLabel(i);
    }
  }

  // ---------------------------------------------------------------------
  // holdSeat, reserveSeat, refreshHold

  /** The commands holdSeat queues in its MULTI block. */
  function HoldQueue(e: string, s: string, u: string): seq<Command>
  {
    UpdateCommands(e, s, Held, Some(u)) + [SetEx(HoldKey(e, s), HoldSeconds, Held)]
  }

  function Success(seatId: string, userId: string): EventOperationResult
  {
    EventOperationResult("success", seatId, userId)
  }

  /** holdSeat(e, s, u); `concurrentWrite` says that another client wrote the
      watched record hash before EXEC, so that EXEC answers null. */
  function Hold(st: StoreState, e: string, s: string, u: string, validate: UuidValidator, concurrentWrite: bool)
    : (out: Step<EventOperationResult>)
    ensures out.result.Ok? <==>
      IsUserIdValid(validate, u) && IsSeatAvailable(StatusOf(Record(st, e, s))) && !concurrentWrite
    ensures out.result.Ok? ==> out.result.value == Success(s, u)
    ensures out.result.Err? ==> out.next == st
    ensures !IsUserIdValid(validate, u) ==> out.result == Err(InvalidUserIdFormat) && out.issued == []
    ensures IsUserIdValid(validate, u) && !IsSeatAvailable(StatusOf(Record(st, e, s))) ==>
      out.result == Err(SeatNotAvailableOrHeld)
    ensures IsUserIdValid(validate, u) && IsSeatAvailable(StatusOf(Record(st, e, s))) && concurrentWrite ==>
      out.result == Err(TransactionFailed)
  {
    if !IsUserIdValid(validate, u) then Step(Err(InvalidUserIdFormat), st, [])
    else
      var read := [Watch(EventKey(e)), HGet(EventKey(e), s)];
      if !IsSeatAvailable(StatusOf(Record(st, e, s))) then Step(Err(SeatNotAvailableOrHeld), st, read + [Unwatch])
      else if concurrentWrite then Step(Err(TransactionFailed), st, read + [Exec(HoldQueue(e, s, u), false)])
      else Step(Ok(Success(s, u)), ApplyWrites(st, HoldQueue(e, s, u)), read + [Exec(HoldQueue(e, s, u), true)])
  }

  /** The commands reserveSeat queues in its MULTI block. */
  function ReserveQueue(e: string, s: string, u: string): seq<Command>
  {
    [HSet(EventKey(e), s, SeatInfo(Reserved, Some(u)))]
  }

  /** reserveSeat(e, s, u). */
  function Reserve(st: StoreState, e: string, s: string, u: string, validate: UuidValidator, concurrentWrite: bool)
    : (out: Step<EventOperationResult>)
    ensures out.result.Ok? <==>
      IsUserIdValid(validate, u) && StatusOf(Record(st, e, s)) == Some(Held)
      && HolderOf(Record(st, e, s)) == Some(u) && !concurrentWrite
    ensures out.result.Ok? ==> out.result.value == Success(s, u)
    ensures out.result.Err? ==> out.next == st
    ensures !IsUserIdValid(validate, u) ==> out.result == Err(InvalidUserIdFormat) && out.issued == []
    ensures IsUserIdValid(validate, u) && !IsSeatHeldByUser(StatusOf(Record(st, e, s)), u, HolderOf(Record(st, e, s))) ==>
      out.result == Err(CannotReserveSeat)
    ensures (IsUserIdValid(validate, u) && IsSeatHeldByUser(StatusOf(Record(st, e, s)), u, HolderOf(Record(st, e, s)))
      && concurrentWrite) ==> out.result == Err(TransactionFailed)
  {
    if !IsUserIdValid(validate, u) then Step(Err(InvalidUserIdFormat), st, [])
    else
      var read := [Watch(EventKey(e)), HGet(EventKey(e), s)];
      var info := Record(st, e, s);
      if !IsSeatHeldByUser(StatusOf(info), u, HolderOf(info)) then Step(Err(CannotReserveSeat), st, read + [Unwatch])
      else if concurrentWrite then Step(Err(TransactionFailed), st, read + [Exec(ReserveQueue(e, s, u), false)])
      else Step(Ok(Success(s, u)), ApplyWrites(st, ReserveQueue(e, s, u)), read + [Exec(ReserveQueue(e, s, u), true)])
  }

  /** The commands refreshHold queues in its MULTI block. */
  function RefreshQueue(e: string, s: string): seq<Command>
  {
    [SetEx(HoldKey(e, s), HoldSeconds, Held)]
  }

  /** refreshHold(e, s, u). */
  function Refresh(st: StoreState, e: string, s: string, u: string, validate: UuidValidator, concurrentWrite: bool)
    : (out: Step<EventOperationResult>)
    ensures out.result.Ok? <==>
      IsUserIdValid(validate, u) && StatusOf(Record(st, e, s)) == Some(Held)
      && HolderOf(Record(st, e, s)) == Some(u) && !concurrentWrite
    ensures out.result.Ok? ==> out.result.value == Success(s, u)
    ensures out.result.Err? ==> out.next == st
    ensures !IsUserIdValid(validate, u) ==> out.result == Err(InvalidUserIdFormat) && out.issued == []
    ensures IsUserIdValid(validate, u) && !IsSeatHeldByUser(StatusOf(Record(st, e, s)), u, HolderOf(Record(st, e, s))) ==>
      out.result == Err(CannotRefreshHold)
    ensures (IsUserIdValid(validate, u) && IsSeatHeldByUser(StatusOf(Record(st, e, s)), u, HolderOf(Record(st, e, s)))
      && concurrentWrite) ==> out.result == Err(TransactionFailed)
  {
    if !IsUserIdValid(validate, u) then Step(Err(InvalidUserIdFormat), st, [])
    else
      var read := [Watch(EventKey(e)), HGet(EventKey(e), s)];
      var info := Record(st, e, s);
      if !IsSeatHeldByUser(StatusOf(info), u, HolderOf(info)) then Step(Err(CannotRefreshHold), st, read + [Unwatch])
      else if concurrentWrite then Step(Err(TransactionFailed), st, read + [Exec(RefreshQueue(e, s), false)])
      else Step(Ok(Success(s, u)), ApplyWrites(st, RefreshQueue(e, s)), read + [Exec(RefreshQueue(e, s), true)])
  }

  // ---------------------------------------------------------------------
  // What each successful transition writes

  /** A successful hold marks the seat held by the user, takes it out of the
      available-set and starts a 60-second hold marker; nothing else
      changes. */
  lemma HoldEffect(st: StoreState, e: string, s: string, u: string, validate: UuidValidator, concurrentWrite: bool)
    requires Hold(st, e, s, u, validate, concurrentWrite).result.Ok?
    ensures var r := Hold(st, e, s, u, validate, concurrentWrite).next;
      && Record(r, e, s) == Some(SeatInfo(Held, Some(u)))
      && AvailableSeats(r, e) == AvailableSeats(st, e) - {s}
      && UnchangedElsewhere(st, r, e, s)
      && r.expiring == st.expiring[HoldKey(e, s) := TimedValue(Held, HoldSeconds)]
  {
    var mid := SeatUpdated(st, e, s, Held, Some(u));
    UpdateEffect(st, e, s, Held, Some(u));
    ApplyWritesSnoc(st, UpdateCommands(e, s, Held, Some(u)), SetEx(HoldKey(e, s), HoldSeconds, Held));
    var r := Hold(st, e, s, u, validate, concurrentWrite).next;
    assert r.hashes == mid.hashes && r.sets == mid.sets;
    var a, b := AvailableSeats(r, e), AvailableSeats(st, e);
    assert s !in a && a - {s} == b - {s};
    forall x ensures x in a <==> x in b - {s} {
      if x != s {
        assert x in a <==> x in a - {s};
      }
    }
  }

  /** A successful reservation rewrites only the seat's record, to reserved by
      the same user; the available-set is untouched and the hold marker is
      left in place. */
  lemma ReserveEffect(st: StoreState, e: string, s: string, u: string, validate: UuidValidator, concurrentWrite: bool)
    requires Reserve(st, e, s, u, validate, concurrentWrite).result.Ok?
    ensures var r := Reserve(st, e, s, u, validate, concurrentWrite).next;
      && Record(r, e, s) == Some(SeatInfo(Reserved, Some(u)))
      && (forall e', s' :: (e', s') != (e, s) ==> Record(r, e', s') == Record(st, e', s'))
      && r.sets == st.sets
      && r.expiring == st.expiring
  {
    ApplyWritesSnoc(st, [], ReserveQueue(e, s, u)[0]);
    assert [] + [ReserveQueue(e, s, u)[0]] == ReserveQueue(e, s, u);
    RecordWrite(st, e, s, SeatInfo(Reserved, Some(u)));
  }

  /** A successful refresh only restarts the hold marker at 60 seconds:
      records and available-sets are untouched. */
  lemma RefreshEffect(st: StoreState, e: string, s: string, u: string, validate: UuidValidator, concurrentWrite: bool)
    requires Refresh(st, e, s, u, validate, concurrentWrite).result.Ok?
    ensures var r := Refresh(st, e, s, u, validate, concurrentWrite).next;
      && r.hashes == st.hashes && r.sets == st.sets
      && r.expiring == st.expiring[HoldKey(e, s) := TimedValue(Held, HoldSeconds)]
  {
    ApplyWritesSnoc(st, [], RefreshQueue(e, s)[0]);
    assert [] + [RefreshQueue(e, s)[0]] == RefreshQueue(e, s);
  }

  /** The new store of every transition is exactly the effect of the
      commands it sent: reads change nothing and an aborted block applies
      nothing. */
  lemma IssuedCommandsGiveNext(st: StoreState, e: string, s: string, u: string, validate: UuidValidator, concurrentWrite: bool)
    ensures Replay(st, Hold(st, e, s, u, validate, concurrentWrite).issued) == Hold(st, e, s, u, validate, concurrentWrite).next
    ensures Replay(st, Reserve(st, e, s, u, validate, concurrentWrite).issued) == Reserve(st, e, s, u, validate, concurrentWrite).next
    ensures Replay(st, Refresh(st, e, s, u, validate, concurrentWrite).issued) == Refresh(st, e, s, u, validate, concurrentWrite).next
  {
    var k := EventKey(e);
    ReplayAfterRead(st, k, s, Unwatch);
    ReplayAfterRead(st, k, s, Exec(HoldQueue(e, s, u), !concurrentWrite));
    ReplayAfterRead(st, k, s, Exec(ReserveQueue(e, s, u), !concurrentWrite));
    ReplayAfterRead(st, k, s, Exec(RefreshQueue(e, s), !concurrentWrite));
    assert [Watch(k), HGet(k, s)] + [Unwatch] == [Watch(k), HGet(k, s), Unwatch];
    assert [Watch(k), HGet(k, s)] + [Exec(HoldQueue(e, s, u), !concurrentWrite)]
      == [Watch(k), HGet(k, s), Exec(HoldQueue(e, s, u), !concurrentWrite)];
    assert [Watch(k), HGet(k, s)] + [Exec(ReserveQueue(e, s, u), !concurrentWrite)]
      == [Watch(k), HGet(k, s), Exec(ReserveQueue(e, s, u), !concurrentWrite)];
    assert [Watch(k), HGet(k, s)] + [Exec(RefreshQueue(e, s), !concurrentWrite)]
      == [Watch(k), HGet(k, s), Exec(RefreshQueue(e, s), !concurrentWrite)];
  }

  /** The same for createEvent: its store is the effect of its k record
      writes and k set additions. */
  lemma {:induction false} InitCommandsGiveInitSeats(st: StoreState, e: string, k: nat)
    ensures Replay(st, InitCommands(e, k)) == InitSeats(st, e, k)
  {
    if k > 0 {
      InitCommandsGiveInitSeats(st, e, k - 1);
      ReplayThenUpdate(st, InitCommands(e, k - 1), e, SeatLabel(k));
    }
  }

  /** Marking one more seat available after a command sequence. */
  lemma ReplayThenUpdate(st: StoreState, cs: seq<Command>, e: string, s: string)
    ensures Replay(st, cs + UpdateCommands(e, s, Available, None))
      == SeatUpdated(Replay(st, cs), e, s, Available, None)
  {
    ReplayAppend(st, cs, UpdateCommands(e, s, Available, None));
    UpdateCommandsGiveUpdate(Replay(st, cs), e, s, Available, None);
  }

  /** Sent as two separate commands, updateSeatStatus has the effect it
      specifies. */
  lemma UpdateCommandsGiveUpdate(st: StoreState, e: string, s: string, status: SeatStatus, userId: Option<string>)
    ensures Replay(st, UpdateCommands(e, s, status, userId)) == SeatUpdated(st, e, s, status, userId)
  {
    var u := UpdateCommands(e, s, status, userId);
    ReplayPair(st, u[0], u[1]);
    assert u == [u[0], u[1]];
  }

  // ---------------------------------------------------------------------
  // Invariants kept by every transition

  /** The invariant reads only records and available-sets. */
  lemma InvariantIgnoresMarkers(a: StoreState, b: StoreState)
    requires a.hashes == b.hashes && a.sets == b.sets
    ensures SeatInvariant(a) <==> SeatInvariant(b)
  {
    forall e, s
      ensures Record(a, e, s) == Record(b, e, s) && AvailableSeats(a, e) == AvailableSeats(b, e)
    {
      assert Hash(a, EventKey(e)) == Hash(b, EventKey(e));
    }
  }

  lemma CreatePreservesInvariant(st: StoreState, eventId: string, totalSeats: int)
    requires SeatInvariant(st)
    ensures SeatInvariant(Create(st, eventId, totalSeats).next)
  {
    if IsTotalSeatsValid(totalSeats) {
      InitSeatsPreservesInvariant(st, eventId, totalSeats);
    }
  }

  lemma HoldPreservesInvariant(st: StoreState, e: string, s: string, u: string, validate: UuidValidator, concurrentWrite: bool)
    requires SeatInvariant(st)
    ensures SeatInvariant(Hold(st, e, s, u, validate, concurrentWrite).next)
  {
    if Hold(st, e, s, u, validate, concurrentWrite).result.Ok? {
      var mid := SeatUpdated(st, e, s, Held, Some(u));
      UpdatePreservesInvariant(st, e, s, Held, Some(u));
      ApplyWritesSnoc(st, UpdateCommands(e, s, Held, Some(u)), SetEx(HoldKey(e, s), HoldSeconds, Held));
      InvariantIgnoresMarkers(mid, Hold(st, e, s, u, validate, concurrentWrite).next);
    }
  }

  lemma ReservePreservesInvariant(st: StoreState, e: string, s: string, u: string, validate: UuidValidator, concurrentWrite: bool)
    requires SeatInvariant(st)
    ensures SeatInvariant(Reserve(st, e, s, u, validate, concurrentWrite).next)
  {
    var r := Reserve(st, e, s, u, validate, concurrentWrite).next;
    if Reserve(st, e, s, u, validate, concurrentWrite).result.Ok? {
      ReserveEffect(st, e, s, u, validate, concurrentWrite);
      assert s !in AvailableSeats(st, e);
      forall e', s'
        ensures s' in AvailableSeats(r, e') <==> IsSeatAvailable(StatusOf(Record(r, e', s')))
      {
        assert AvailableSeats(r, e') == AvailableSeats(st, e');
      }
    }
  }

  lemma RefreshPreservesInvariant(st: StoreState, e: string, s: string, u: string, validate: UuidValidator, concurrentWrite: bool)
    requires SeatInvariant(st)
    ensures SeatInvariant(Refresh(st, e, s, u, validate, concurrentWrite).next)
  {
    if Refresh(st, e, s, u, validate, concurrentWrite).result.Ok? {
      RefreshEffect(st, e, s, u, validate, concurrentWrite);
      InvariantIgnoresMarkers(st, Refresh(st, e, s, u, validate, concurrentWrite).next);
    }
  }

  /** A reserved seat is final: no hold, reservation or refresh, by any user
      on any seat, changes its record. */
  lemma ReservedIsAbsorbing(st: StoreState, e: string, s: string, u: string, validate: UuidValidator,
                            concurrentWrite: bool, e': string, s': string)
    requires StatusOf(Record(st, e', s')) == Some(Reserved)
    ensures Record(Hold(st, e, s, u, validate, concurrentWrite).next, e', s') == Record(st, e', s')
    ensures Record(Reserve(st, e, s, u, validate, concurrentWrite).next, e', s') == Record(st, e', s')
    ensures Record(Refresh(st, e, s, u, validate, concurrentWrite).next, e', s') == Record(st, e', s')
  {
    if Hold(st, e, s, u, validate, concurrentWrite).result.Ok? {
      HoldEffect(st, e, s, u, validate, concurrentWrite);
    }
    if Reserve(st, e, s, u, validate, concurrentWrite).result.Ok? {
      ReserveEffect(st, e, s, u, validate, concurrentWrite);
    }
    if Refresh(st, e, s, u, validate, concurrentWrite).result.Ok? {
      RefreshEffect(st, e, s, u, validate, concurrentWrite);
    }
  }

  /** A hold is exclusive: once one user holds a seat, every later hold of
      it, by that user or any other, is refused. */
  lemma HoldIsExclusive(st: StoreState, e: string, s: string, a: string, b: string, validate: UuidValidator,
                        firstWrite: bool, secondWrite: bool)
    requires Hold(st, e, s, a, validate, firstWrite).result.Ok?
    requires IsUserIdValid(validate, b)
    ensures Hold(Hold(st, e, s, a, validate, firstWrite).next, e, s, b, validate, secondWrite).result
      == Err(SeatNotAvailableOrHeld)
  {
    HoldEffect(st, e, s, a, validate, firstWrite);
  }
}
