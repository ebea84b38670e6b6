/** The key-value store the repository talks to, reduced to the commands the
    core issues (the promise wrappers of src/infrastructure/database/utils.ts
    and the MULTI/EXEC block of the transitions). Hash values are parsed
    `SeatInfo` records rather than their JSON text, and the only strings with
    an expiry are the hold markers. */
module KeyValueStore {
  import opened Enums
  import opened Types

  /** A string key with its value and remaining time to live, in seconds. */
  datatype TimedValue = TimedValue(value: SeatStatus, ttl: nat)

  /** Everything the store holds: hashes, sets and expiring strings, each
      keyed by its key name. */
  datatype StoreState = StoreState(
    hashes: map<string, map<string, SeatInfo>>,
    sets: map<string, set<string>>,
    expiring: map<string, TimedValue>)

  const EmptyStore := StoreState(map[], map[], map[])

  /** A command sent to the store. `Exec` stands for a MULTI block with its
      queued commands, sent at EXEC; `committed` is false when EXEC answered
      null because a watched key changed. */
  datatype Command =
    | Watch(key: string)
    | Unwatch
    | HGet(key: string, field: string)
    | HSet(key: string, field: string, info: SeatInfo)
    | SAdd(key: string, member: string)
    | SRem(key: string, member: string)
    | SMembers(key: string)
    | SetEx(key: string, seconds: nat, value: SeatStatus)
    | Exec(queued: seq<Command>, committed: bool)

  /** The hash at key; a missing key reads as an empty hash. */
  function Hash(st: StoreState, key: string): map<string, SeatInfo>
  {
    if key in st.hashes then st.hashes[key] else map[]
  }

  /** The members of the set at key; a missing key reads as an empty set. */
  function Members(st: StoreState, key: string): set<string>
  {
    if key in st.sets then st.sets[key] else {}
  }

  /** HGET: the field's value, or None (the reply `null`). */
  function HashGet(st: StoreState, key: string, field: string): Option<SeatInfo>
  {
    if field in Hash(st, key) then Some(Hash(st, key)[field]) else None
  }

  /** The effect of one write command; reads, watches and nested blocks change
      nothing. */
  function ApplyWrite(st: StoreState, c: Command): StoreState
  {
    match c
    case HSet(k, f, v) => st.(hashes := st.hashes[k := Hash(st, k)[f := v]])
    case SAdd(k, m) => st.(sets := st.sets[k := Members(st, k) + {m}])
    case SRem(k, m) => st.(sets := st.sets[k := Members(st, k) - {m}])
    case SetEx(k, secs, v) => st.(expiring := st.expiring[k := TimedValue(v, secs)])
    case _ => st
  }

  /** The writes of a MULTI block, applied in order. */
  function ApplyWrites(st: StoreState, queued: seq<Command>): StoreState
  {
    if queued == [] then st
    else ApplyWrite(ApplyWrites(st, queued[..|queued| - 1]), queued[|queued| - 1])
  }

  /** Applying a block extended by one write is applying that write last. */
  lemma ApplyWritesSnoc(st: StoreState, queued: seq<Command>, c: Command)
    ensures ApplyWrites(st, queued + [c]) == ApplyWrite(ApplyWrites(st, queued), c)
  {
    assert (queued + [c])[..|queued|] == queued;
  }

  /** A two-command block applies its first write, then its second. */
  lemma ApplyWritesPair(st: StoreState, a: Command, b: Command)
    ensures ApplyWrites(st, [a, b]) == ApplyWrite(ApplyWrite(st, a), b)
  {
    ApplyWritesSnoc(st, [], a);
    ApplyWritesSnoc(st, [a], b);
    assert [] + [a] == [a] && [a] + [b] == [a, b];
  }

  /** The effect of any command: an aborted block applies nothing. */
  function Apply(st: StoreState, c: Command): StoreState
  {
    if c.Exec? then (if c.committed then ApplyWrites(st, c.queued) else st)
    else ApplyWrite(st, c)
  }

  /** The effect of a whole command sequence. */
  function Replay(st: StoreState, cs: seq<Command>): StoreState
  {
    if cs == [] then st else Apply(Replay(st, cs[..|cs| - 1]), cs[|cs| - 1])
  }

  /** Replaying a sequence in two parts is replaying it at once. */
  lemma {:induction false} ReplayAppend(st: StoreState, a: seq<Command>, b: seq<Command>)
    ensures Replay(st, a + b) == Replay(Replay(st, a), b)
  {
    if b != [] {
      assert (a + b)[..|a + b| - 1] == a + b[..|b| - 1];
      ReplayAppend(st, a, b[..|b| - 1]);
    } else {
      assert a + b == a;
    }
  }

  /** Replaying one more command applies it last. */
  lemma ReplaySnoc(st: StoreState, cs: seq<Command>, c: Command)
    ensures Replay(st, cs + [c]) == Apply(Replay(st, cs), c)
  {
    assert (cs + [c])[..|cs|] == cs;
  }

  /** A watch and a read change nothing, so only the command after them
      counts. */
  lemma ReplayAfterRead(st: StoreState, key: string, field: string, c: Command)
    ensures Replay(st, [Watch(key), HGet(key, field), c]) == Apply(st, c)
  {
    ReplaySnoc(st, [], Watch(key));
    assert [] + [Watch(key)] == [Watch(key)];
    ReplaySnoc(st, [Watch(key)], HGet(key, field));
    assert [Watch(key)] + [HGet(key, field)] == [Watch(key), HGet(key, field)];
    ReplaySnoc(st, [Watch(key), HGet(key, field)], c);
    assert [Watch(key), HGet(key, field)] + [c] == [Watch(key), HGet(key, field), c];
  }

  /** Two plain writes sent one after the other have the effect of the same
      two writes in a block. */
  lemma ReplayPair(st: StoreState, a: Command, b: Command)
    requires !a.Exec? && !b.Exec?
    ensures Replay(st, [a, b]) == ApplyWrites(st, [a, b])
  {
    ReplaySnoc(st, [], a);
    assert [] + [a] == [a];
    ReplaySnoc(st, [a], b);
    assert [a] + [b] == [a, b];
    ApplyWritesPair(st, a, b);
  }

  /** The store's own expiry of a key whose time to live ran out. */
  function ExpireKey(st: StoreState, key: string): StoreState
  {
    st.(expiring := st.expiring - {key})
  }

  /** Lists a finite set once per member, in an order the caller cannot rely
      on (SMEMBERS). */
  method Enumerate(s: set<string>) returns (xs: seq<string>)
    ensures forall x :: x in xs <==> x in s
    ensures |xs| == |s|
    ensures forall i, j :: 0 <= i < j < |xs| ==> xs[i] != xs[j]
  {
    xs := [];
    var rest := s;
    while rest != {}
      invariant rest <= s
      invariant forall x :: x in xs <==> x in s && x !in rest
      invariant |xs| + |rest| == |s|
      invariant forall i, j :: 0 <= i < j < |xs| ==> xs[i] != xs[j]
      decreases |rest|
    {
      var x :| x in rest;
      xs := xs + [x];
      rest := rest - {x};
    }
  }

  /** The store as a mutable object: the three kinds of data the core keeps,
      and a ghost record of every command sent to it. */
  class Store {
    var hashes: map<string, map<string, SeatInfo>>
    var sets: map<string, set<string>>
    var expiring: map<string, TimedValue>
    ghost var trace: seq<Command>

    function State(): StoreState
      reads this`hashes, this`sets, this`expiring
    {
      StoreState(hashes, sets, expiring)
    }

    constructor ()
      ensures State() == EmptyStore && trace == []
    {
      hashes, sets, expiring := map[], map[], map[];
      trace := [];
    }

    method Watch(key: string)
      modifies this`trace
      ensures trace == old(trace) + [Command.Watch(key)]
    {
      trace := trace + [Command.Watch(key)];
    }

    method Unwatch()
      modifies this`trace
      ensures trace == old(trace) + [Command.Unwatch]
    {
      trace := trace + [Command.Unwatch];
    }

    method HGet(key: string, field: string) returns (v: Option<SeatInfo>)
      modifies this`trace
      ensures v == HashGet(State(), key, field)
      ensures trace == old(trace) + [Command.HGet(key, field)]
    {
      v := if key in hashes && field in hashes[key] then Some(hashes[key][field]) else None;
      trace := trace + [Command.HGet(key, field)];
    }

    method HSet(key: string, field: string, value: SeatInfo)
      modifies this`hashes, this`trace
      ensures State() == Apply(old(State()), Command.HSet(key, field, value))
      ensures trace == old(trace) + [Command.HSet(key, field, value)]
    {
      var h := if key in hashes then hashes[key] else map[];
      hashes := hashes[key := h[field := value]];
      trace := trace + [Command.HSet(key, field, value)];
    }

    method SAdd(key: string, member: string)
      modifies this`sets, this`trace
      ensures State() == Apply(old(State()), Command.SAdd(key, member))
      ensures trace == old(trace) + [Command.SAdd(key, member)]
    {
      var m := if key in sets then sets[key] else {};
      sets := sets[key := m + {member}];
      trace := trace + [Command.SAdd(key, member)];
    }

    method SRem(key: string, member: string)
      modifies this`sets, this`trace
      ensures State() == Apply(old(State()), Command.SRem(key, member))
      ensures trace == old(trace) + [Command.SRem(key, member)]
    {
      var m := if key in sets then sets[key] else {};
      sets := sets[key := m - {member}];
      trace := trace + [Command.SRem(key, member)];
    }

    method SMembers(key: string) returns (members: seq<string>)
      modifies this`trace
      ensures forall x :: x in members <==> x in Members(State(), key)
      ensures forall i, j :: 0 <= i < j < |members| ==> members[i] != members[j]
      ensures trace == old(trace) + [Command.SMembers(key)]
    {
      members := Enumerate(if key in sets then sets[key] else {});
      trace := trace + [Command.SMembers(key)];
    }

    /** EXEC of a MULTI block: the queued writes are applied in order, or,
        when another client wrote a watched key since WATCH, none of them and
        the reply is null. */
    method Exec(queued: seq<Command>, concurrentWrite: bool) returns (results: Option<nat>)
      modifies this
      ensures results == if concurrentWrite then None else Some(|queued|)
      ensures concurrentWrite ==> State() == old(State())
      ensures State() == Apply(old(State()), Command.Exec(queued, !concurrentWrite))
      ensures trace == old(trace) + [Command.Exec(queued, !concurrentWrite)]
    {
      if concurrentWrite {
        results := None;
      } else {
        var i := 0;
        while i < |queued|
          invariant 0 <= i <= |queued|
          invariant State() == ApplyWrites(old(State()), queued[..i])
          invariant trace == old(trace)
        {
          var next := ApplyWrite(State(), queued[i]);
          hashes, sets, expiring := next.hashes, next.sets, next.expiring;
          assert queued[..i + 1][..i] == queued[..i];
          i := i + 1;
        }
        assert queued[..i] == queued;
        results := Some(|queued|);
      }
      trace := trace + [Command.Exec(queued, !concurrentWrite)];
    }

    /** The store deletes a key whose time to live ran out; this is not a
        command of the client, so it is not traced. */
    method Expire(key: string)
      modifies this`expiring
      ensures State() == ExpireKey(old(State()), key)
    {
      expiring := expiring - {key};
    }
  }
}
