/** The expiry path of src/infrastructure/database/handleKeyExpiration.ts:
    when a hold marker `hold:<eventId>:<seatId>` expires, the store publishes
    its name on the expired-key channel, and the handler returns the seat to
    available if its record still says held. */
module KeyExpiration {
  import opened Enums
  import opened Types
  import opened Validators
  import opened SeatLabels
  import opened KeyValueStore
  import opened SeatLifecycle
  import opened EventRepository

  /** The channel on which the store publishes the names of expired keys. */
  const ExpiredChannel: string := "__keyevent@0__:expired"

  /** The prefix of hold-marker keys. */
  const HoldPrefix: string := "hold:"

  predicate StartsWith(s: string, prefix: string)
  {
    |prefix| <= |s| && s[..|prefix|] == prefix
  }

  // ---------------------------------------------------------------------
  // String.prototype.split with a one-character separator, and its inverse

  /** The fields of s between occurrences of sep, in order; a string without
      sep is one field, and the empty string is one empty field. */
  function Split(s: string, sep: char): (parts: seq<string>)
    ensures |parts| >= 1
    decreases |s|
  {
    if |s| == 0 then [""]
    else
      var rest := Split(s[1..], sep);
      if s[0] == sep then [""] + rest
      else [[s[0]] + rest[0]] + rest[1..]
  }

  /** The fields joined with sep between consecutive ones. */
  function Join(parts: seq<string>, sep: char): string
  {
    if |parts| == 0 then ""
    else if |parts| == 1 then parts[0]
    else parts[0] + [sep] + Join(parts[1..], sep)
  }

  /** Splitting loses nothing: joining the fields gives the string back. */
  lemma {:induction false} JoinSplit(s: string, sep: char)
    ensures Join(Split(s, sep), sep) == s
    decreases |s|
  {
    if |s| > 0 {
      var rest := Split(s[1..], sep);
      JoinSplit(s[1..], sep);
      if s[0] == sep {
        assert ([""] + rest)[1..] == rest;
        assert s == [sep] + s[1..];
      } else if |rest| == 1 {
        assert Split(s, sep) == [[s[0]] + rest[0]];
        assert s == [s[0]] + s[1..];
      } else {
        var parts := Split(s, sep);
        assert parts[1..] == rest[1..];
        assert s == [s[0]] + s[1..];
      }
    }
  }

  /** No field contains the separator. */
  lemma {:induction false} SplitFieldsHaveNoSeparator(s: string, sep: char)
    ensures forall i :: 0 <= i < |Split(s, sep)| ==> sep !in Split(s, sep)[i]
    decreases |s|
  {
    if |s| > 0 {
      SplitFieldsHaveNoSeparator(s[1..], sep);
    }
  }

  /** A string without the separator is a single field. */
  lemma {:induction false} SplitWithoutSeparator(s: string, sep: char)
    requires sep !in s
    ensures Split(s, sep) == [s]
    decreases |s|
  {
    if |s| > 0 {
      SplitWithoutSeparator(s[1..], sep);
      assert s == [s[0]] + s[1..];
    }
  }

  /** The text before the first separator is the first field. */
  lemma {:induction false} SplitAtFirstSeparator(a: string, b: string, sep: char)
    requires sep !in a
    ensures Split(a + [sep] + b, sep) == [a] + Split(b, sep)
    decreases |a|
  {
    var s := a + [sep] + b;
    if |a| == 0 {
      assert s[1..] == b;
    } else {
      assert s[1..] == a[1..] + [sep] + b;
      SplitAtFirstSeparator(a[1..], b, sep);
      assert [s[0]] + a[1..] == a;
    }
  }

  // ---------------------------------------------------------------------
  // Parsing the expired key

  /** `parts[1]` and `parts[2]` of the key's fields. A key with fewer than
      three fields has no seat id; the handler then releases nothing. */
  function ParseHoldKey(key: string): (ids: Option<(string, string)>)
    ensures ids.Some? ==> ':' !in ids.value.0 && ':' !in ids.value.1
  {
    var parts := Split(key, ':');
    SplitFieldsHaveNoSeparator(key, ':');
    if |parts| >= 3 then Some((parts[1], parts[2])) else None
  }

  /** The key of a hold marker parses back to its event and seat when
      neither id contains ':'. */
  lemma ParseHoldKeyRoundTrip(e: string, s: string)
    requires ':' !in e && ':' !in s
    ensures Split(HoldKey(e, s), ':') == ["hold", e, s]
    ensures ParseHoldKey(HoldKey(e, s)) == Some((e, s))
  {
    assert HoldKey(e, s) == "hold" + [':'] + (e + [':'] + s);
    SplitAtFirstSeparator("hold", e + [':'] + s, ':');
    SplitAtFirstSeparator(e, s, ':');
    SplitWithoutSeparator(s, ':');
  }

  /** Conversely, an expired `hold:` key with exactly three fields is the
      hold marker of the event and seat it parses to. */
  lemma ParsedKeyIsHoldKey(key: string)
    requires StartsWith(key, HoldPrefix) && |Split(key, ':')| == 3
    ensures ParseHoldKey(key).Some?
    ensures key == HoldKey(ParseHoldKey(key).value.0, ParseHoldKey(key).value.1)
  {
    var tail := key[5..];
    assert key == "hold" + [':'] + tail;
    SplitAtFirstSeparator("hold", tail, ':');
    var parts := Split(tail, ':');
    assert |parts| == 2;
    JoinSplit(tail, ':');
    assert tail == parts[0] + [':'] + parts[1];
  }

  /** The hold marker of every seat createEvent makes parses back to that
      seat, for any event id without ':' (a generated uuid has none). */
  lemma CreatedSeatMarkersParse(e: string, index: nat)
    requires ':' !in e
    ensures ParseHoldKey(HoldKey(e, SeatLabel(index))) == Some((e, SeatLabel(index)))
  {
    SeatLabelHasNoColon(index);
    ParseHoldKeyRoundTrip(e, SeatLabel(index));
  }

  /** An event id holding ':' is cut at the colon: the hold of seat s of
      event e1:e2 names, to the handler, seat e2 of event e1. */
  lemma ColonInEventIdMisparses(e1: string, e2: string, s: string)
    requires ':' !in e1 && ':' !in e2 && ':' !in s
    ensures ParseHoldKey(HoldKey(e1 + [':'] + e2, s)) == Some((e1, e2))
  {
    assert HoldKey(e1 + [':'] + e2, s) == "hold" + [':'] + (e1 + [':'] + (e2 + [':'] + s));
    SplitAtFirstSeparator("hold", e1 + [':'] + (e2 + [':'] + s), ':');
    SplitAtFirstSeparator(e1, e2 + [':'] + s, ':');
    SplitAtFirstSeparator(e2, s, ':');
  }

  // ---------------------------------------------------------------------
  // The handler as a function of the store

  /** What handling one notification leaves behind: the store contents and
      the commands sent. The handler returns nothing and throws nothing. */
  datatype Handled = Handled(next: StoreState, issued: seq<Command>)

  /** Read the seat and, if it is held, return it to available. */
  function Release(st: StoreState, e: string, s: string): Handled
  {
    var read := [HGet(EventKey(e), s)];
    if StatusOf(Record(st, e, s)) == Some(Held) then
      Handled(SeatUpdated(st, e, s, Available, None), read + UpdateCommands(e, s, Available, None))
    else Handled(st, read)
  }

  /** handleKeyExpiration(channel, message). */
  function Expired(st: StoreState, channel: string, message: string): (out: Handled)
    ensures channel != ExpiredChannel ==> out == Handled(st, [])
    ensures !StartsWith(message, HoldPrefix) ==> out == Handled(st, [])
    ensures ParseHoldKey(message).None? ==> out == Handled(st, [])
    ensures out.issued != [] ==> out.issued[0].HGet?
    ensures out.next.expiring == st.expiring
  {
    if channel == ExpiredChannel && StartsWith(message, HoldPrefix) then
      match ParseHoldKey(message)
      case Some((e, s)) =>
        UpdateEffect(st, e, s, Available, None);
        Release(st, e, s)
      case None => Handled(st, [])
    else Handled(st, [])
  }

  /** A notification for the hold of (e, s) reads that seat first; if it was
      held it now has the record {available, null} and is back in the
      available-set, and nothing else changed; otherwise the store is as it
      was. */
  lemma ExpiryReleasesHeldSeat(st: StoreState, message: string, e: string, s: string)
    requires StartsWith(message, HoldPrefix) && ParseHoldKey(message) == Some((e, s))
    ensures var out := Expired(st, ExpiredChannel, message);
      && out.issued[0] == HGet(EventKey(e), s)
      && (StatusOf(Record(st, e, s)) == Some(Held) ==>
            && Record(out.next, e, s) == Some(SeatInfo(Available, None))
            && s in AvailableSeats(out.next, e)
            && UnchangedElsewhere(st, out.next, e, s))
      && (StatusOf(Record(st, e, s)) != Some(Held) ==> out.next == st)
  {
    UpdateEffect(st, e, s, Available, None);
  }

  /** Only a held seat is ever changed, and only to {available, null}: an
      available, reserved or missing seat is left exactly as it was. */
  lemma ExpiryOnlyReleasesHeld(st: StoreState, channel: string, message: string, e: string, s: string)
    ensures var next := Expired(st, channel, message).next;
      StatusOf(Record(st, e, s)) != Some(Held) ==> Record(next, e, s) == Record(st, e, s)
    ensures var next := Expired(st, channel, message).next;
      Record(next, e, s) == Record(st, e, s) || Record(next, e, s) == Some(SeatInfo(Available, None))
  {
    if channel == ExpiredChannel && StartsWith(message, HoldPrefix) && ParseHoldKey(message).Some? {
      var ids := ParseHoldKey(message).value;
      UpdateEffect(st, ids.0, ids.1, Available, None);
    }
  }

  /** Handling the same notification twice leaves the store as handling it
      once. */
  lemma ExpiryIdempotent(st: StoreState, channel: string, message: string)
    ensures var once := Expired(st, channel, message).next;
      Expired(once, channel, message).next == once
  {
    if channel == ExpiredChannel && StartsWith(message, HoldPrefix) && ParseHoldKey(message).Some? {
      var ids := ParseHoldKey(message).value;
      UpdateEffect(st, ids.0, ids.1, Available, None);
    }
  }

  lemma ExpiryPreservesInvariant(st: StoreState, channel: string, message: string)
    requires SeatInvariant(st)
    ensures SeatInvariant(Expired(st, channel, message).next)
  {
    if channel == ExpiredChannel && StartsWith(message, HoldPrefix) && ParseHoldKey(message).Some? {
      var ids := ParseHoldKey(message).value;
      UpdatePreservesInvariant(st, ids.0, ids.1, Available, None);
    }
  }

  // ---------------------------------------------------------------------
  // The handler against the repository

  /** The release asks only whether the seat is held: whoever holds it, and
      even while a hold marker for it is still live, the notification
      releases it. */
  lemma ExpiryIgnoresHolderAndMarker(st: StoreState, e: string, s: string, holder: string)
    requires ':' !in e && ':' !in s
    requires Record(st, e, s) == Some(SeatInfo(Held, Some(holder)))
    ensures var next := Expired(st, ExpiredChannel, HoldKey(e, s)).next;
      && Record(next, e, s) == Some(SeatInfo(Available, None))
      && next.expiring == st.expiring
  {
    ParseHoldKeyRoundTrip(e, s);
    ExpiryReleasesHeldSeat(st, HoldKey(e, s), e, s);
  }

  /** A refresh that wins the race against a pending notification is lost:
      the marker lapsed, the holder refreshed (and was told so, with a new
      60-second marker), and the late notification then releases the seat
      while that new marker is still live. */
  lemma LateRefreshIsReleased(st: StoreState, e: string, s: string, u: string, validate: UuidValidator,
                              holdWrite: bool)
    requires ':' !in e && ':' !in s
    requires Hold(st, e, s, u, validate, holdWrite).result.Ok?
    ensures var lapsed := ExpireKey(Hold(st, e, s, u, validate, holdWrite).next, HoldKey(e, s));
      var refreshed := Refresh(lapsed, e, s, u, validate, false);
      var handled := Expired(refreshed.next, ExpiredChannel, HoldKey(e, s)).next;
      && refreshed.result.Ok?
      && Record(handled, e, s) == Some(SeatInfo(Available, None))
      && HoldKey(e, s) in handled.expiring
      && handled.expiring[HoldKey(e, s)] == TimedValue(Held, HoldSeconds)
  {
    HoldEffect(st, e, s, u, validate, holdWrite);
    var lapsed := ExpireKey(Hold(st, e, s, u, validate, holdWrite).next, HoldKey(e, s));
    assert Record(lapsed, e, s) == Some(SeatInfo(Held, Some(u)));
    RefreshEffect(lapsed, e, s, u, validate, false);
    var refreshed := Refresh(lapsed, e, s, u, validate, false);
    assert Record(refreshed.next, e, s) == Some(SeatInfo(Held, Some(u)));
    ExpiryIgnoresHolderAndMarker(refreshed.next, e, s, u);
  }

  /** reserveSeat leaves the hold marker in place; when it later expires,
      the notification finds the seat reserved and changes nothing. */
  lemma ReservedSeatSurvivesHoldExpiry(st: StoreState, e: string, s: string, u: string,
                                       validate: UuidValidator, holdWrite: bool)
    requires ':' !in e && ':' !in s
    requires Hold(st, e, s, u, validate, holdWrite).result.Ok?
    ensures var reserved := Reserve(Hold(st, e, s, u, validate, holdWrite).next, e, s, u, validate, false);
      var lapsed := ExpireKey(reserved.next, HoldKey(e, s));
      && reserved.result.Ok?
      && HoldKey(e, s) in reserved.next.expiring
      && Expired(lapsed, ExpiredChannel, HoldKey(e, s)).next == lapsed
      && Record(lapsed, e, s) == Some(SeatInfo(Reserved, Some(u)))
  {
    var held := Hold(st, e, s, u, validate, holdWrite).next;
    HoldEffect(st, e, s, u, validate, holdWrite);
    ReserveEffect(held, e, s, u, validate, false);
    var lapsed := ExpireKey(Reserve(held, e, s, u, validate, false).next, HoldKey(e, s));
    ParseHoldKeyRoundTrip(e, s);
    ExpiryReleasesHeldSeat(lapsed, HoldKey(e, s), e, s);
  }

  /** The release is two separate commands. If the second one fails, the
      handler only logs the error, and the seat's record says available
      while the seat is missing from the available-set. */
  lemma InterruptedReleaseBreaksInvariant(st: StoreState, e: string, s: string)
    requires SeatInvariant(st)
    requires StatusOf(Record(st, e, s)) == Some(Held)
    ensures !SeatInvariant(ApplyWrite(st, UpdateCommands(e, s, Available, None)[0]))
  {
    var half := ApplyWrite(st, UpdateCommands(e, s, Available, None)[0]);
    RecordWrite(st, e, s, SeatInfo(Available, None));
    assert s !in AvailableSeats(st, e);
    assert AvailableSeats(half, e) == AvailableSeats(st, e);
    assert IsSeatAvailable(StatusOf(Record(half, e, s)));
  }

  /** The handler, through the repository's getSeatStatus and
      updateSeatStatus. */
  method HandleKeyExpiration(db: Store, channel: string, message: string)
    modifies db
    ensures var out := Expired(old(db.State()), channel, message);
      db.State() == out.next && db.trace == old(db.trace) + out.issued
    ensures SeatInvariant(old(db.State())) ==> SeatInvariant(db.State())
  {
    if SeatInvariant(db.State()) {
      ExpiryPreservesInvariant(db.State(), channel, message);
    }
    if channel == ExpiredChannel && StartsWith(message, HoldPrefix) {
      var parts := Split(message, ':');
      if |parts| >= 3 {
        var eventId, seatId := parts[1], parts[2];
        var seatStatus := GetSeatStatus(db, eventId, seatId);
        if StatusOf(seatStatus) == Some(Held) {
          UpdateSeatStatus(db, eventId, seatId, Available, None);
        }
      }
    }
  }

  /** The store drops a key with a time to live that ran out and publishes
      its name on the expired-key channel; the subscription hands it to the
      handler. */
  method ExpireHold(db: Store, key: string)
    requires key in db.expiring
    modifies db
    ensures db.State() == Expired(ExpireKey(old(db.State()), key), ExpiredChannel, key).next
    ensures SeatInvariant(old(db.State())) ==> SeatInvariant(db.State())
  {
    if SeatInvariant(db.State()) {
      InvariantIgnoresMarkers(db.State(), ExpireKey(db.State(), key));
    }
    db.Expire(key);
    HandleKeyExpiration(db, ExpiredChannel, key);
  }
}
