# Seat lifecycle of EventTicketManagement, in Dafny

EventTicketManagement sells seats of events. An event has seats `seat1` … `seatN`. Each seat is
**available**, **held** by a user for 60 seconds, or **reserved** by the user who held it. The
state lives in a key-value store under three kinds of keys:

- the hash `event:{eventId}` maps each seat id to its record `{status, userId}`;
- the set `event:{eventId}:available_seats` lists the seats that can be held;
- the string `hold:{eventId}:{seatId}` is a hold marker with a 60-second time to live.

When a hold marker expires, the store publishes its name on `__keyevent@0__:expired`. The
expiry handler then returns the seat to available, if it is still held.

The model has these modules, one per file:

- `Enums`, `Types` and `Validators` hold the statuses, the error messages, the records and the
  guard predicates.
- `KeyValueStore` is the store. It has its state as a value (`StoreState`), the commands a
  client sends (`Command`) and their effect (`ApplyWrite`, `Replay`). It also has a class
  `Store` whose methods change the three maps in place and log every command in a ghost trace.
  WATCH/MULTI/EXEC is `Store.Exec`. An input flag says whether another client wrote the
  watched hash. If it did, EXEC answers null and applies nothing.
- `SeatLabels` holds the seat names `seat1` … `seatN`.
- `SeatLifecycle` gives each repository operation as a function. The function returns the
  operation's result or error, the store afterwards and the commands it sent. The properties of
  the lifecycle are lemmas over these functions.
- `EventRepository` is the repository as methods on a `Store`. They send the same commands as
  the TypeScript, in the same order. The exception is createEvent, whose concurrent updates
  are sent one seat after another. Each method is proved to have exactly the outcome its
  `SeatLifecycle` function gives, and to keep the store consistent.
- `KeyExpiration` covers the expiry handler: `split(':')` and its inverse, key parsing, the
  handler as a function and as a method over the repository, and the lemmas that relate expiry
  to the repository's transitions.

The store is consistent (`SeatLifecycle.SeatInvariant`) when two things hold:

- a seat is in its event's available-set exactly when its record says available;
- a record names a user exactly when the seat is held or reserved.

A new, empty store is consistent (`SeatLifecycle.EmptyStoreConsistent`). Every operation keeps
the invariant, so every store reached from a new one is consistent.

Two behaviours of the code are proved and kept as written:

- **A late notification can undo a refresh.** Suppose the hold marker has lapsed but its
  notification has not been handled yet. A `refreshHold` in that window succeeds and sets a new
  60-second marker. The late notification then releases the seat anyway
  (`KeyExpiration.LateRefreshIsReleased`). So a refreshed hold is kept for its new 60 seconds
  only when the refresh comes before the old marker expires.
- **Parsing assumes ids without ':'.** The expiry key is parsed by splitting at ':'. It parses
  back to its event and seat only when neither id contains ':'. Seat names never do, and
  generated event ids never do either.

## Model

| member | source | states |
|---|---|---|
| Enums.StatusTextInjective | src/utils/enums.ts:10-14 | the three statuses are stored as three different strings: available, held, reserved |
| Enums.MessageTextInjective | src/utils/enums.ts:1-8 | the six error kinds carry six different messages |
| Validators.IsTotalSeatsValid | src/utils/validators.ts:4-6 | isTotalSeatsValid: 10 <= totalSeats <= 1000 |
| Validators.IsUserIdValid | src/utils/validators.ts:8-10 | isUserIdValid: the answer of the supplied uuid validator |
| Validators.IsSeatAvailable | src/utils/validators.ts:12-14 | isSeatAvailable: the status is available |
| Validators.IsSeatHeldByUser | src/utils/validators.ts:16-18 | isSeatHeldByUser: the status is held and the stored user is the caller |
| Validators.IsSeatHeld | src/utils/validators.ts:20-22 | isSeatHeld: the status is held |
| Validators.IsTransactionSuccessful | src/utils/validators.ts:24-26 | isTransactionSuccessful: EXEC's answer is not null |
| Validators.TotalSeatsBounds | src/utils/validators.ts:4-6 | a seat count is accepted exactly when 10 <= n <= 1000; 10 and 1000 pass, 9 and 1001 fail |
| Validators.AvailableOnlyWhenAvailable | src/utils/validators.ts:12-14 | only the status available passes; held, reserved and a missing status do not |
| Validators.HeldByUserRequiresHold | src/utils/validators.ts:16-22 | held-by-user holds iff the status is held and the stored user equals the caller; it implies held; reserved never passes |
| Validators.AvailableAndHeldExclusive | src/utils/validators.ts:12-22 | no status is both available and held |
| Validators.TransactionSuccessfulIffNotNull | src/utils/validators.ts:24-26 | a transaction succeeded iff EXEC's answer is not null |
| SeatLabels.Decimal | src/domains/events/repositories/eventRepository.ts:38 | the decimal numeral of n is non-empty and all digits, with at least two digits from 10 on |
| SeatLabels.DecimalNoLeadingZero | src/domains/events/repositories/eventRepository.ts:38 | a numeral of two or more digits does not start with 0 |
| SeatLabels.DecimalRoundTrip | src/domains/events/repositories/eventRepository.ts:38 | the digits of the numeral of n denote n |
| SeatLabels.SeatLabel | src/domains/events/repositories/eventRepository.ts:38 | the name of seat i is `seat` followed by i in decimal |
| SeatLabels.SeatLabelSpellsIndex | src/domains/events/repositories/eventRepository.ts:38 | every seat name is `seat` followed by digits that denote its index |
| SeatLabels.SeatLabelExamples | src/domains/events/repositories/eventRepository.ts:36-39 | seats 1, 10 and 1000 are named seat1, seat10 and seat1000 |
| SeatLabels.DecimalInjective | src/domains/events/repositories/eventRepository.ts:38 | different numbers have different numerals |
| SeatLabels.SeatLabelInjective | src/domains/events/repositories/eventRepository.ts:36-39 | different seat numbers give different seat names |
| SeatLabels.SeatLabelHasNoColon | src/domains/events/repositories/eventRepository.ts:38 | no seat name contains ':' |
| SeatLabels.SeatLabelsCount | src/domains/events/repositories/eventRepository.ts:36-39 | the names seat1..seatN are N distinct names |
| KeyValueStore.Enumerate | src/infrastructure/database/utils.ts:26-35 | a set is listed with each member exactly once and nothing else |
| KeyValueStore.ReplayAfterRead | src/infrastructure/database/utils.ts:59-90 | WATCH and HGET change no data: after them a command has the same effect as alone |
| KeyValueStore.Store.constructor | src/infrastructure/database/redisClient.ts:5 | a fresh store is empty and has been sent nothing |
| KeyValueStore.Store.HGet | src/infrastructure/database/utils.ts:59-68 | HGET answers the field of the hash, or nothing when key or field is missing |
| KeyValueStore.Store.HSet | src/infrastructure/database/utils.ts:48-57 | HSET sets exactly that field of that hash |
| KeyValueStore.Store.SAdd | src/infrastructure/database/utils.ts:4-13 | SADD adds the member to that set |
| KeyValueStore.Store.SRem | src/infrastructure/database/utils.ts:15-24 | SREM removes the member from that set |
| KeyValueStore.Store.SMembers | src/infrastructure/database/utils.ts:26-35 | SMEMBERS lists that set's members once each, without changing the store |
| KeyValueStore.Store.Watch | src/infrastructure/database/utils.ts:70-79 | WATCH changes no data and is logged |
| KeyValueStore.Store.Unwatch | src/infrastructure/database/utils.ts:81-90 | UNWATCH changes no data and is logged |
| KeyValueStore.Store.Expire | src/domains/events/repositories/eventRepository.ts:92 | the store deletes a key whose 60-second time to live ran out; nothing else changes |
| KeyValueStore.Store.Exec | src/domains/events/repositories/eventRepository.ts:94-95 | EXEC applies the queued writes in order and answers their count; after a concurrent write it answers null and applies none |
| SeatLifecycle.KeysInjective | src/domains/events/repositories/eventRepository.ts:62-66 | different events never share a record hash or an available-set |
| SeatLifecycle.RecordWrite | src/domains/events/repositories/eventRepository.ts:62 | writing a seat's record changes that record only |
| SeatLifecycle.AvailableWrite | src/domains/events/repositories/eventRepository.ts:63-67 | adding or removing a seat changes only that seat's membership in its own event's set |
| SeatLifecycle.UpdateEffect | src/domains/events/repositories/eventRepository.ts:55-68 | updateSeatStatus stores exactly {status, userId}; afterwards the seat is in the available-set iff status is available; no other seat, event or hold marker changes |
| SeatLifecycle.UpdatePreservesInvariant | src/domains/events/repositories/eventRepository.ts:61-67 | updateSeatStatus with a user exactly when not available keeps the store consistent |
| SeatLifecycle.EmptyStoreConsistent | src/infrastructure/database/redisClient.ts:5 | the empty store the repository starts from is consistent |
| SeatLifecycle.Create | src/domains/events/repositories/eventRepository.ts:28-46 | createEvent succeeds iff the seat count is valid; otherwise it fails with TotalSeatsInvalid and sends and writes nothing; on success it returns {id, totalSeats} |
| SeatLifecycle.InitSeatsRecords | src/domains/events/repositories/eventRepository.ts:35-44 | after createEvent, seat1..seatN have the record {available, null}, and every other record of any event is as before |
| SeatLifecycle.AddedToAvailable | src/domains/events/repositories/eventRepository.ts:63-64 | marking a seat available adds exactly that seat to its event's set |
| SeatLifecycle.InitSeatsAvailable | src/domains/events/repositories/eventRepository.ts:40-44 | createEvent adds exactly seat1..seatN to the event's available-set |
| SeatLifecycle.InitSeatsOtherEvents | src/domains/events/repositories/eventRepository.ts:40-44 | createEvent changes no other event's available-set and no hold marker |
| SeatLifecycle.InitSeatsPreservesInvariant | src/domains/events/repositories/eventRepository.ts:40-44 | initialising the seats keeps the store consistent |
| SeatLifecycle.InitCommandsCount | src/domains/events/repositories/eventRepository.ts:40-44 | createEvent sends 2N commands: N record writes and N set additions, all to the event's own keys |
| SeatLifecycle.CreateEventOnNewId | src/domains/events/repositories/eventRepository.ts:35-45 | for a new event id the event has exactly the records seat1..seatN, all {available, null}, and exactly N available seats |
| SeatLifecycle.CreatePreservesInvariant | src/domains/events/repositories/eventRepository.ts:28-46 | createEvent keeps the store consistent |
| SeatLifecycle.UpdateCommandsGiveUpdate | src/domains/events/repositories/eventRepository.ts:62-66 | the two commands updateSeatStatus sends have exactly its specified effect |
| SeatLifecycle.InitCommandsGiveInitSeats | src/domains/events/repositories/eventRepository.ts:40-44 | the store after createEvent is exactly the effect of the commands it sent |
| SeatLifecycle.Hold | src/domains/events/repositories/eventRepository.ts:70-100 | holdSeat succeeds iff the user id is valid, the seat is available and EXEC is not aborted. Errors come in source order: InvalidUserIdFormat before any command, then SeatNotAvailableOrHeld (missing, held or reserved seat), then TransactionFailed. A failure changes nothing; success returns {success, seatId, userId} |
| SeatLifecycle.Reserve | src/domains/events/repositories/eventRepository.ts:102-130 | reserveSeat succeeds iff the user id is valid, the seat is held by that same user and EXEC is not aborted. Errors: InvalidUserIdFormat before any command, then CannotReserveSeat, then TransactionFailed. A failure changes nothing |
| SeatLifecycle.Refresh | src/domains/events/repositories/eventRepository.ts:132-159 | refreshHold has the same guards and error order as reserveSeat, with CannotRefreshHold; a failure changes nothing |
| SeatLifecycle.HoldEffect | src/domains/events/repositories/eventRepository.ts:88-99 | a successful hold writes {held, userId}, removes the seat from the available-set and sets hold:e:s with time to live 60; nothing else changes |
| SeatLifecycle.ReserveEffect | src/domains/events/repositories/eventRepository.ts:120-129 | a successful reservation writes {reserved, userId} only; the available-set and the hold marker are untouched |
| SeatLifecycle.RefreshEffect | src/domains/events/repositories/eventRepository.ts:150-158 | a successful refresh only resets hold:e:s to time to live 60; records and sets are untouched |
| SeatLifecycle.IssuedCommandsGiveNext | src/domains/events/repositories/eventRepository.ts:79-98 | the store after hold, reserve or refresh is exactly the effect of the commands sent; an aborted EXEC applies nothing |
| SeatLifecycle.InvariantIgnoresMarkers | src/domains/events/repositories/eventRepository.ts:92 | consistency does not depend on hold markers |
| SeatLifecycle.HoldPreservesInvariant | src/domains/events/repositories/eventRepository.ts:88-92 | holdSeat keeps the store consistent |
| SeatLifecycle.ReservePreservesInvariant | src/domains/events/repositories/eventRepository.ts:120-122 | reserveSeat keeps the store consistent |
| SeatLifecycle.RefreshPreservesInvariant | src/domains/events/repositories/eventRepository.ts:150-151 | refreshHold keeps the store consistent |
| SeatLifecycle.ReservedIsAbsorbing | src/domains/events/repositories/eventRepository.ts:83 | no hold, reservation or refresh, on any seat and by any user, changes a reserved seat's record |
| SeatLifecycle.HoldIsExclusive | src/domains/events/repositories/eventRepository.ts:83-86 | after a successful hold, the next hold of that seat by a valid user fails with SeatNotAvailableOrHeld |
| EventRepository.UpdateSeatStatus | src/domains/events/repositories/eventRepository.ts:55-68 | sends HSET then SADD or SREM; the new store is the one updateSeatStatus specifies; it stays consistent when the record is well formed |
| EventRepository.CreateEvent | src/domains/events/repositories/eventRepository.ts:28-46 | its loop over seat1..seatN gives exactly createEvent's result, store and commands; the store stays consistent |
| EventRepository.ListAvailableSeats | src/domains/events/repositories/eventRepository.ts:48-53 | returns the event's available seats, each once, without changing the store |
| EventRepository.GetSeatStatus | src/domains/events/repositories/eventRepository.ts:161-167 | returns the seat's record, or nothing when it is missing, without changing the store |
| EventRepository.HoldSeat | src/domains/events/repositories/eventRepository.ts:70-100 | has exactly holdSeat's result, store and commands; the store stays consistent |
| EventRepository.ReserveSeat | src/domains/events/repositories/eventRepository.ts:102-130 | has exactly reserveSeat's result, store and commands; the store stays consistent |
| EventRepository.RefreshHold | src/domains/events/repositories/eventRepository.ts:132-159 | has exactly refreshHold's result, store and commands; the store stays consistent |
| KeyExpiration.Split | src/infrastructure/database/handleKeyExpiration.ts:6 | split always gives at least one field |
| KeyExpiration.JoinSplit | src/infrastructure/database/handleKeyExpiration.ts:6 | joining the fields with ':' gives the message back |
| KeyExpiration.SplitFieldsHaveNoSeparator | src/infrastructure/database/handleKeyExpiration.ts:6 | no field contains ':' |
| KeyExpiration.SplitWithoutSeparator | src/infrastructure/database/handleKeyExpiration.ts:6 | a string without ':' is a single field |
| KeyExpiration.SplitAtFirstSeparator | src/infrastructure/database/handleKeyExpiration.ts:6 | the text before the first ':' is the first field; the rest splits on its own |
| KeyExpiration.ParseHoldKeyRoundTrip | src/infrastructure/database/handleKeyExpiration.ts:6-8 | hold:e:s splits into hold, e, s and parses back to (e, s) when neither id contains ':' |
| KeyExpiration.ParsedKeyIsHoldKey | src/infrastructure/database/handleKeyExpiration.ts:5-8 | a hold: message with three fields is exactly the hold key of the ids it parses to |
| KeyExpiration.CreatedSeatMarkersParse | src/infrastructure/database/handleKeyExpiration.ts:6-8 | the hold marker of every created seat parses back to that seat when the event id has no ':' |
| KeyExpiration.ColonInEventIdMisparses | src/infrastructure/database/handleKeyExpiration.ts:6-8 | an event id e1:e2 is cut: the marker of seat s names seat e2 of event e1 |
| KeyExpiration.ParseHoldKey | src/infrastructure/database/handleKeyExpiration.ts:6-8 | the event and seat ids are fields 1 and 2 of the split key and contain no ':'; a key with fewer than three fields has no seat and parses to nothing |
| KeyExpiration.Release | src/infrastructure/database/handleKeyExpiration.ts:9-13 | reads the seat's record and, only if it says held, sends updateSeatStatus(available, null) |
| KeyExpiration.Expired | src/infrastructure/database/handleKeyExpiration.ts:3-19 | another channel, a message not starting with hold:, or a message without a seat field sends no command and changes nothing; otherwise the first command is the read; hold markers are never touched |
| KeyExpiration.ExpiryReleasesHeldSeat | src/infrastructure/database/handleKeyExpiration.ts:10-13 | the handler first reads the named seat. A held seat becomes {available, null} and rejoins the available-set, with nothing else changed. Any other seat leaves the store as it was |
| KeyExpiration.ExpiryOnlyReleasesHeld | src/infrastructure/database/handleKeyExpiration.ts:11 | an available, reserved or missing seat is never changed; a held one can only become {available, null} |
| KeyExpiration.ExpiryIdempotent | src/infrastructure/database/handleKeyExpiration.ts:11-12 | handling a notification twice leaves the store as handling it once |
| KeyExpiration.ExpiryPreservesInvariant | src/infrastructure/database/handleKeyExpiration.ts:10-13 | the handler keeps the store consistent |
| KeyExpiration.ExpiryIgnoresHolderAndMarker | src/infrastructure/database/handleKeyExpiration.ts:11 | a held seat is released whoever holds it, even while its hold marker is still live |
| KeyExpiration.LateRefreshIsReleased | src/infrastructure/database/handleKeyExpiration.ts:11-12 | after a marker lapses, a refresh still succeeds and sets a new 60-second marker, and the pending notification then releases the seat anyway |
| KeyExpiration.ReservedSeatSurvivesHoldExpiry | src/domains/events/repositories/eventRepository.ts:120-122 | the hold marker outlives the reservation; its expiry finds the seat reserved and changes nothing |
| KeyExpiration.InterruptedReleaseBreaksInvariant | src/infrastructure/database/handleKeyExpiration.ts:12-17 | if the release stops after its record write, the seat reads available but is missing from the available-set |
| KeyExpiration.HandleKeyExpiration | src/infrastructure/database/handleKeyExpiration.ts:3-19 | through getSeatStatus and updateSeatStatus, has exactly the store and commands the handler specifies; the store stays consistent |
| KeyExpiration.ExpireHold | src/infrastructure/database/redisClient.ts:22-26 | a key that has a time to live is dropped by the store, and the subscribed handler processes its name on the expired-key channel; the store stays consistent |

## Left out

- `isUserIdValid` is RFC 4122 validation from the `uuid` package, which is not part of this model. It is a parameter, and every property holds for any validator.
- `uuidv4` is not modelled. The new event id is a parameter of `CreateEvent`. `SeatLifecycle.CreateEventOnNewId` assumes it names no existing event.
- `Promise.all` in createEvent runs the N updates concurrently. The model sends them one at a time in seat order.
- Store failures (rejected store calls) are not modelled. A repository operation that fails halfway is not represented. `KeyExpiration.InterruptedReleaseBreaksInvariant` shows what the handler's catch leaves behind when the release stops after its first write.
- Concurrent clients are not modelled. A lost WATCH race appears only as the `concurrentWrite` flag of the transactional operations. The model does not check that the watched hash was actually written.
- All requests share one store connection (`src/infrastructure/database/redisClient.ts:5`), and a WATCH belongs to the connection. So one request's EXEC can clear another request's WATCH, and that request's EXEC then commits unconditionally. Two concurrent holds of one seat could then both succeed. The `concurrentWrite` flag cannot express this, so `SeatLifecycle.HoldIsExclusive` speaks only of holds that run one after the other.
- The store has one keyspace, where a key holds a hash, a set or a string. The model keeps three typed maps instead. A command on a key of the wrong type fails with WRONGTYPE in the store; in the model it simply finds nothing. For example, holdSeat for the event id `<uuid>:available_seats` reads the set key `event:<uuid>:available_seats` as a hash. The store answers with an error, while the model finds no record and fails with SeatNotAvailableOrHeld.
- Time is not modelled. A hold marker keeps the time to live it was given, and expiry is the explicit `KeyExpiration.ExpireHold`.
- Records are stored as JSON in the source. The model stores them as the `SeatInfo` datatype, and a missing record is `None`. updateSeatStatus takes any status string; the model allows only the three statuses.
- `KeyExpiration.ParseHoldKey`: the handler indexes `parts[2]` without a length check. A `hold:` message without a third field passes `undefined` as the seat id to the store client, which either throws (the handler catches and logs it) or reads a field named `undefined`, which createEvent never creates. The model treats such a message as one that releases nothing and sends no command.
- totalSeats is a JavaScript number, so non-integer counts pass the range check. The model uses an integer.
- Console logging is not modelled.
- HTTP status codes (`HttpStatusCode` in `src/utils/enums.ts`) are not modelled.
- The controllers, services, routes, application bootstrap, documentation and configuration are not modelled.
- The connection and error listeners of `src/infrastructure/database/redisClient.ts` are not modelled. The psubscribe/pmessage dispatch is `KeyExpiration.ExpireHold`.
