/** The bounded store of resumption tickets, and its persistent form. */
module Tickets {
  import opened Words
  import opened Wrappers
  import opened Lists
  import opened Bytes

  const MAGIC: seq<u8> := [0x4E, 0x58, 0x54, 0x4B]
  const VERSION: u8 := 2
  const SEALED_MAGIC: seq<u8> := [0x4E, 0x58, 0x53, 0x45]
  const MAX_TICKETS: nat := 16384
  const MAX_BYTES: nat := 8 * 1024 * 1024
  const MAX_FIELD: nat := 4096
  const MAX32: nat := 0xFFFF_FFFF

  datatype Ticket = Ticket(
    identity: seq<u8>,
    nonce: seq<u8>,
    obfuscatedAge: u32,
    ageAdd: u32,
    issuedAt: u64,
    lifetime: u64,
    maxEarlyData: u32,
    consumed: bool)

  datatype StoreError = ParseFailure | InvalidLength

  // The store

  function Unconsumed(): Ticket -> bool {
    (t: Ticket) => !t.consumed
  }

  function Elapsed(now: u64, issued: u64): u64 {
    if now < issued then 0 else now - issued
  }

  function Unexpired(now: u64): Ticket -> bool {
    (t: Ticket) => Elapsed(now, t.issuedAt) <= t.lifetime
  }

  function OtherIdentity(identity: seq<u8>): Ticket -> bool {
    (t: Ticket) => t.identity != identity
  }

  class TicketStore {
    var tickets: seq<Ticket>
    const maxEntries: nat

    ghost predicate Valid()
      reads this
    {
      1 <= maxEntries && |tickets| <= maxEntries
    }

    constructor WithMaxEntries(max: nat)
      ensures Valid() && tickets == [] && maxEntries == Max(max, 1)
    {
      tickets := [];
      maxEntries := Max(max, 1);
    }

    method Insert(ticket: Ticket)
      requires Valid()
      modifies this
      ensures Valid() && tickets == Newest(old(tickets) + [ticket], maxEntries)
    {
      var all := tickets + [ticket];
      assert |all| == |tickets| + 1;
      tickets := all;
      if |all| > maxEntries {
        var overflow := |all| - maxEntries;
        tickets := all[overflow..];
      }
      assert tickets == Newest(all, maxEntries);
    }

    method Retain(keep: Ticket -> bool) returns (removed: nat)
      requires Valid()
      modifies this
      ensures Valid() && tickets == Filter(old(tickets), keep) && removed == |old(tickets)| - |tickets|
    {
      var was, kept := tickets, [];
      for i := 0 to |was|
        invariant kept == Filter(was[..i], keep)
      {
        assert was[..i + 1][..i] == was[..i];
        if keep(was[i]) {
          kept := kept + [was[i]];
        }
      }
      assert was[..|was|] == was;
      tickets := kept;
      removed := |was| - |kept|;
    }

    method InvalidateIdentity(identity: seq<u8>) returns (removed: nat)
      requires Valid()
      modifies this
      ensures Valid() && tickets == Filter(old(tickets), OtherIdentity(identity)) && removed == |old(tickets)| - |tickets|
    {
      removed := Retain(OtherIdentity(identity));
    }

    method Rotate(now: u64) returns (removed: nat)
      requires Valid()
      modifies this
      ensures Valid() && tickets == Filter(Filter(old(tickets), Unconsumed()), Unexpired(now)) && removed == |old(tickets)| - |tickets|
    {
      var consumed := Retain(Unconsumed());
      var expired := Retain(Unexpired(now));
      removed := consumed + expired;
    }

    method ToBytes() returns (r: Result<seq<u8>, StoreError>)
      requires Valid()
      ensures r == Encode(tickets, maxEntries)
    {
      hide EncodeTicket;
      if maxEntries > MAX32 || |tickets| > MAX32 {
        return Err(InvalidLength);
      }
      var out := MAGIC + [VERSION] + ToBe(maxEntries, 4) + ToBe(|tickets|, 4);
      for i := 0 to |tickets|
        invariant EncodeAll(tickets[..i]).Ok?
        invariant out == MAGIC + [VERSION] + ToBe(maxEntries, 4) + ToBe(|tickets|, 4) + EncodeAll(tickets[..i]).value
      {
        EncodeStops(tickets, i);
        var bytes :- EncodeTicket(tickets[i]);
        out := out + bytes;
      }
      assert tickets[..|tickets|] == tickets;
      return Ok(out);
    }
  }

  /** Rotation leaves exactly the tickets that are neither consumed nor expired. */
  lemma RotationLeaves(tickets: seq<Ticket>, now: u64, t: Ticket)
    ensures t in Filter(Filter(tickets, Unconsumed()), Unexpired(now)) <==>
              t in tickets && !t.consumed && (now < t.issuedAt || now - t.issuedAt <= t.lifetime)
  {
    hide Filter;
    FilterIs(Filter(tickets, Unconsumed()), Unexpired(now), t);
    FilterIs(tickets, Unconsumed(), t);
  }

  /** The store after a list of inserts into an empty one. */
  function InsertAll(inserted: seq<Ticket>, max: nat): seq<Ticket> {
    if inserted == [] then []
    else Newest(InsertAll(inserted[..|inserted| - 1], max) + [inserted[|inserted| - 1]], max)
  }

  /** After any inserts the store holds exactly the last `max` tickets, in order. */
  lemma {:induction false} StoreHoldsNewest(inserted: seq<Ticket>, max: nat)
    requires 1 <= max
    ensures InsertAll(inserted, max) == Newest(inserted, max)
  {
    if inserted != [] {
      var front, last := inserted[..|inserted| - 1], inserted[|inserted| - 1];
      StoreHoldsNewest(front, max);
      assert inserted == front + [last];
      NewestOfNewest(front, last, max);
    }
  }

  lemma NewestOfNewest(s: seq<Ticket>, t: Ticket, max: nat)
    requires 1 <= max
    ensures Newest(Newest(s, max) + [t], max) == Newest(s + [t], max)
  {
    var (kept, all) := (Newest(s, max), s + [t]);
    if |s| >= max {
      assert |kept| == max && kept + [t] == all[|s| - max..];
      assert all[|s| - max..][1..] == all[|all| - max..];
    }
  }

  // Encoding

  function EncodeTicket(t: Ticket): Result<seq<u8>, StoreError> {
    if |t.identity| > 0xFFFF || |t.nonce| > 0xFFFF then Err(InvalidLength)
    else Ok(ToBe(|t.identity|, 2) + t.identity + ToBe(|t.nonce|, 2) + t.nonce + ToBe(t.obfuscatedAge, 4) + ToBe(t.ageAdd, 4)
            + ToBe(t.issuedAt, 8) + ToBe(t.lifetime, 8) + ToBe(t.maxEarlyData, 4) + [if t.consumed then 1 else 0])
  }

  function EncodeAll(tickets: seq<Ticket>): Result<seq<u8>, StoreError> {
    if tickets == [] then Ok([])
    else
      var front :- EncodeAll(tickets[..|tickets| - 1]);
      var last :- EncodeTicket(tickets[|tickets| - 1]);
      Ok(front + last)
  }

  function Encode(tickets: seq<Ticket>, max: nat): Result<seq<u8>, StoreError> {
    if max > MAX32 || |tickets| > MAX32 then Err(InvalidLength)
    else
      var body :- EncodeAll(tickets);
      Ok(MAGIC + [VERSION] + ToBe(max, 4) + ToBe(|tickets|, 4) + body)
  }

  lemma {:induction false} EncodeStops(tickets: seq<Ticket>, i: nat)
    requires i < |tickets| && EncodeAll(tickets[..i]).Ok?
    ensures EncodeAll(tickets[..i + 1])
         == if EncodeTicket(tickets[i]).Ok? then Ok(EncodeAll(tickets[..i]).value + EncodeTicket(tickets[i]).value)
            else Err(EncodeTicket(tickets[i]).error)
    ensures EncodeTicket(tickets[i]).Err? ==> EncodeAll(tickets) == Err(EncodeTicket(tickets[i]).error)
  {
    hide EncodeTicket;
    assert tickets[..i + 1][..i] == tickets[..i];
    if EncodeTicket(tickets[i]).Err? {
      ErrorStays(tickets, i + 1);
    }
  }

  lemma {:induction false} ErrorStays(tickets: seq<Ticket>, i: nat)
    requires i <= |tickets| && EncodeAll(tickets[..i]).Err?
    ensures EncodeAll(tickets) == EncodeAll(tickets[..i])
    decreases |tickets| - i
  {
    hide EncodeTicket;
    if i == |tickets| {
      assert tickets[..i] == tickets;
    } else {
      assert tickets[..i + 1][..i] == tickets[..i];
      ErrorStays(tickets, i + 1);
    }
  }

  // Decoding

  type Read<T> = Result<(T, seq<u8>), StoreError>

  function ReadBe(cursor: seq<u8>, n: nat): (r: Read<nat>)
    ensures r.Ok? ==> |r.value.1| == |cursor| - n && r.value.0 < Power256(n)
  {
    if |cursor| < n then Err(ParseFailure)
    else
      BeCanonical(cursor[..n]);
      Ok((OfBe(cursor[..n]), cursor[n..]))
  }

  function ReadBytes(cursor: seq<u8>, n: nat): (r: Read<seq<u8>>)
    ensures r.Ok? ==> |r.value.1| == |cursor| - n
  {
    if |cursor| < n then Err(ParseFailure) else Ok((cursor[..n], cursor[n..]))
  }

  function ReadField(cursor: seq<u8>): (r: Read<seq<u8>>)
    ensures r.Ok? ==> |r.value.1| <= |cursor| && |r.value.0| <= MAX_FIELD
  {
    var (len, rest) :- ReadBe(cursor, 2);
    if len > MAX_FIELD then Err(InvalidLength) else ReadBytes(rest, len)
  }

  function ReadTicket(cursor: seq<u8>, version: u8): (r: Read<Ticket>)
    ensures r.Ok? ==> |r.value.1| < |cursor|
  {
    Powers256();
    var (identity, c1) :- ReadField(cursor);
    var (nonce, c2) :- ReadField(c1);
    var (age, c3) :- ReadBe(c2, 4);
    var (add, c4) :- ReadBe(c3, 4);
    var (issued, c5) :- ReadBe(c4, 8);
    var (lifetime, c6) :- ReadBe(c5, 8);
    var (early, c7) :- if version >= 2 then ReadBe(c6, 4) else Ok((0, c6));
    var (flag, c8) :- ReadBe(c7, 1);
    if flag > 1 then Err(ParseFailure)
    else Ok((Ticket(identity, nonce, age, add, issued, lifetime, early, flag == 1), c8))
  }

  /** `count` tickets, in order. */
  function ReadTickets(cursor: seq<u8>, version: u8, count: nat): Read<seq<Ticket>> {
    if count == 0 then Ok(([], cursor))
    else
      var (front, rest) :- ReadTickets(cursor, version, count - 1);
      var (ticket, rest') :- ReadTicket(rest, version);
      Ok((front + [ticket], rest'))
  }

  /** A decoded store: its tickets and its bound. */
  datatype Store = Store(tickets: seq<Ticket>, max: nat)

  /** The fixed part: version, bound, count and the bytes of the tickets. */
  function ReadHeader(input: seq<u8>): Result<(u8, nat, nat, seq<u8>), StoreError> {
    if |input| < 13 then Err(ParseFailure)
    else if |input| > MAX_BYTES then Err(InvalidLength)
    else if input[..4] != MAGIC then Err(ParseFailure)
    else if input[4] != 1 && input[4] != VERSION then Err(ParseFailure)
    else
      var (max, c1) :- ReadBe(input[5..], 4);
      var (count, c2) :- ReadBe(c1, 4);
      if count > MAX_TICKETS then Err(InvalidLength)
      else if max > MAX_TICKETS then Err(InvalidLength)
      else Ok((input[4], max, count, c2))
  }

  function Decode(input: seq<u8>): Result<Store, StoreError> {
    var (version, max, count, cursor) :- ReadHeader(input);
    var (tickets, rest) :- ReadTickets(cursor, version, count);
    if rest != [] then Err(ParseFailure) else Ok(Store(InsertAll(tickets, Max(max, 1)), Max(max, 1)))
  }

  method FromBytes(input: seq<u8>) returns (r: Result<TicketStore, StoreError>)
    ensures r.Ok? <==> Decode(input).Ok?
    ensures r.Ok? ==> r.value.Valid() && fresh(r.value) && Store(r.value.tickets, r.value.maxEntries) == Decode(input).value
    ensures r.Err? ==> r.error == Decode(input).error
  {
    hide ReadTicket, ReadHeader, Newest;
    var header :- ReadHeader(input);
    var (version, max, count, cursor) := header;
    var store := new TicketStore.WithMaxEntries(max);
    ghost var read: seq<Ticket> := [];
    ghost var start := cursor;
    for i := 0 to count
      invariant store.Valid() && fresh(store) && store.maxEntries == Max(max, 1)
      invariant ReadTickets(start, version, i) == Ok((read, cursor))
      invariant store.tickets == InsertAll(read, Max(max, 1))
    {
      ReadStops(start, version, i, count);
      var next :- ReadTicket(cursor, version);
      store.Insert(next.0);
      InsertOne(read, next.0, Max(max, 1));
      read := read + [next.0];
      cursor := next.1;
    }
    if cursor != [] {
      return Err(ParseFailure);
    }
    return Ok(store);
  }

  lemma InsertOne(inserted: seq<Ticket>, t: Ticket, max: nat)
    ensures InsertAll(inserted + [t], max) == Newest(InsertAll(inserted, max) + [t], max)
  {
    assert (inserted + [t])[..|inserted|] == inserted;
  }

  /** A failing ticket fails the whole read. */
  lemma {:induction false} ReadStops(cursor: seq<u8>, version: u8, i: nat, count: nat)
    requires i < count && ReadTickets(cursor, version, i).Ok?
    ensures ReadTicket(ReadTickets(cursor, version, i).value.1, version).Err? ==>
              ReadTickets(cursor, version, count) == Err(ReadTicket(ReadTickets(cursor, version, i).value.1, version).error)
  {
    hide ReadTicket;
    if i + 1 < count && ReadTicket(ReadTickets(cursor, version, i).value.1, version).Err? {
      ReadErrorStays(cursor, version, i + 1, count);
    }
  }

  lemma {:induction false} ReadErrorStays(cursor: seq<u8>, version: u8, i: nat, count: nat)
    requires i <= count && ReadTickets(cursor, version, i).Err?
    ensures ReadTickets(cursor, version, count) == Err(ReadTickets(cursor, version, i).error)
    decreases count - i
  {
    hide ReadTicket;
    if i < count {
      ReadErrorStays(cursor, version, i + 1, count);
    }
  }

  // Round trips

  lemma ReadBack(x: nat, n: nat, rest: seq<u8>)
    requires x < Power256(n)
    ensures ReadBe(ToBe(x, n) + rest, n) == Ok((x, rest))
  {
    BeRoundTrip(x, n);
    assert (ToBe(x, n) + rest)[..n] == ToBe(x, n);
  }

  lemma FieldBack(field: seq<u8>, rest: seq<u8>)
    requires |field| <= 0xFFFF
    ensures ReadField(ToBe(|field|, 2) + field + rest) == if |field| <= MAX_FIELD then Ok((field, rest)) else Err(InvalidLength)
  {
    hide ToBe, OfBe, Power256;
    Powers256();
    ReadBack(|field|, 2, field + rest);
    assert ToBe(|field|, 2) + field + rest == ToBe(|field|, 2) + (field + rest);
    assert (field + rest)[..|field|] == field && (field + rest)[|field|..] == rest;
  }

  predicate ShortFields(t: Ticket) {
    |t.identity| <= MAX_FIELD && |t.nonce| <= MAX_FIELD
  }

  /** A written ticket reads back exactly when its two fields are short enough for the reader. */
  lemma TicketBack(t: Ticket, rest: seq<u8>)
    requires EncodeTicket(t).Ok?
    ensures ReadTicket(EncodeTicket(t).value + rest, VERSION) == if ShortFields(t) then Ok((t, rest)) else Err(InvalidLength)
  {
    hide ToBe, OfBe, ReadField, ReadBe, Power256;
    Powers256();
    var c7 := [if t.consumed then 1 else 0] + rest;
    var c6 := ToBe(t.maxEarlyData, 4) + c7;
    var c5 := ToBe(t.lifetime, 8) + c6;
    var c4 := ToBe(t.issuedAt, 8) + c5;
    var c3 := ToBe(t.ageAdd, 4) + c4;
    var c2 := ToBe(t.obfuscatedAge, 4) + c3;
    var c1 := ToBe(|t.nonce|, 2) + t.nonce + c2;
    assert EncodeTicket(t).value + rest == ToBe(|t.identity|, 2) + t.identity + c1;
    FieldBack(t.identity, c1);
    FieldBack(t.nonce, c2);
    ReadBack(t.obfuscatedAge, 4, c3);
    ReadBack(t.ageAdd, 4, c4);
    ReadBack(t.issuedAt, 8, c5);
    ReadBack(t.lifetime, 8, c6);
    ReadBack(t.maxEarlyData, 4, c7);
    FlagBack(t.consumed, rest);
  }

  lemma FlagBack(consumed: bool, rest: seq<u8>)
    ensures ReadBe([if consumed then 1 else 0] + rest, 1) == Ok((if consumed then 1 else 0, rest))
  {
    var flag: u8 := if consumed then 1 else 0;
    assert ToBe(flag, 1) == [flag] by {
      assert ToBe(0, 0) == [];
    }
    Powers256();
    ReadBack(flag, 1, rest);
  }

  lemma {:induction false} TicketsBack(tickets: seq<Ticket>, rest: seq<u8>)
    requires EncodeAll(tickets).Ok?
    ensures ReadTickets(EncodeAll(tickets).value + rest, VERSION, |tickets|)
         == if forall i :: 0 <= i < |tickets| ==> ShortFields(tickets[i]) then Ok((tickets, rest)) else Err(InvalidLength)
  {
    hide ReadTicket, EncodeTicket;
    if tickets != [] {
      var n := |tickets| - 1;
      var (front, last) := (tickets[..n], tickets[n]);
      var bytes := EncodeTicket(last).value;
      assert EncodeAll(tickets).value + rest == EncodeAll(front).value + (bytes + rest);
      TicketsBack(front, bytes + rest);
      TicketBack(last, rest);
      assert tickets == front + [last];
    } else {
      assert [] + rest == rest;
    }
  }

  /** The limits a store must respect to be read back. */
  predicate WithinLimits(tickets: seq<Ticket>, max: nat, bytes: nat) {
    && bytes <= MAX_BYTES && |tickets| <= MAX_TICKETS && max <= MAX_TICKETS
    && forall i :: 0 <= i < |tickets| ==> ShortFields(tickets[i])
  }

  /** A store that can be written is read back as itself exactly when it lies within the reader's limits. */
  lemma StoreRoundTripIff(tickets: seq<Ticket>, max: nat)
    requires 1 <= max && |tickets| <= max && Encode(tickets, max).Ok?
    ensures var bytes := Encode(tickets, max).value;
            && (Decode(bytes).Ok? <==> WithinLimits(tickets, max, |bytes|))
            && (Decode(bytes).Ok? ==> Decode(bytes) == Ok(Store(tickets, max)))
  {
    hide ToBe, ReadBe, EncodeAll, ReadTickets, InsertAll, Power256;
    Powers256();
    var bytes := Encode(tickets, max).value;
    var body := EncodeAll(tickets).value;
    assert bytes[..4] == MAGIC && bytes[4] == VERSION;
    assert bytes[5..] == ToBe(max, 4) + (ToBe(|tickets|, 4) + body);
    ReadBack(max, 4, ToBe(|tickets|, 4) + body);
    ReadBack(|tickets|, 4, body);
    TicketsBack(tickets, []);
    assert body + [] == body;
    StoreHoldsNewest(tickets, max);
  }

  /** Whatever is decoded is a valid store. */
  lemma DecodedIsValid(input: seq<u8>)
    requires Decode(input).Ok?
    ensures var s := Decode(input).value;
            && 1 <= s.max <= MAX_TICKETS && |s.tickets| <= s.max
            && exists read: seq<Ticket> :: s.tickets == Newest(read, s.max)
  {
    hide ReadHeader, ReadTickets;
    var (version, max, count, cursor) := ReadHeader(input).value;
    HeaderBounds(input);
    var read := ReadTickets(cursor, version, count).value.0;
    StoreHoldsNewest(read, Max(max, 1));
  }

  lemma HeaderBounds(input: seq<u8>)
    requires ReadHeader(input).Ok?
    ensures ReadHeader(input).value.1 <= MAX_TICKETS
  {
  }

  lemma BeBack(cursor: seq<u8>, n: nat)
    requires ReadBe(cursor, n).Ok?
    ensures var (x, rest) := ReadBe(cursor, n).value; cursor == ToBe(x, n) + rest
  {
    BeCanonical(cursor[..n]);
  }

  lemma FieldCanonical(cursor: seq<u8>)
    requires ReadField(cursor).Ok?
    ensures var (field, rest) := ReadField(cursor).value; cursor == ToBe(|field|, 2) + field + rest
  {
    hide ToBe, OfBe;
    BeBack(cursor, 2);
    var (len, c) := ReadBe(cursor, 2).value;
    var (field, rest) := ReadField(cursor).value;
    assert c == field + rest;
  }

  /** A ticket of the current version re-encodes to the bytes it was read from. */
  lemma TicketCanonical(cursor: seq<u8>)
    requires ReadTicket(cursor, VERSION).Ok?
    ensures var (t, rest) := ReadTicket(cursor, VERSION).value;
            EncodeTicket(t).Ok? && cursor == EncodeTicket(t).value + rest
  {
    hide ToBe, OfBe, ReadField, ReadBe, Power256;
    var (identity, c1) := ReadField(cursor).value;
    var (nonce, c2) := ReadField(c1).value;
    var (age, c3) := ReadBe(c2, 4).value;
    var (add, c4) := ReadBe(c3, 4).value;
    var (issued, c5) := ReadBe(c4, 8).value;
    var (lifetime, c6) := ReadBe(c5, 8).value;
    var (early, c7) := ReadBe(c6, 4).value;
    var (flag, c8) := ReadBe(c7, 1).value;
    FieldCanonical(cursor);
    FieldCanonical(c1);
    BeBack(c2, 4);
    BeBack(c3, 4);
    BeBack(c4, 8);
    BeBack(c5, 8);
    BeBack(c6, 4);
    BeBack(c7, 1);
    FlagByte(flag);
    var t := ReadTicket(cursor, VERSION).value.0;
    assert cursor == EncodeTicket(t).value + c8;
  }

  lemma FlagByte(flag: nat)
    requires flag <= 1
    ensures ToBe(flag, 1) == [flag]
  {
    assert ToBe(0, 0) == [];
  }

  lemma {:induction false} TicketsCanonical(cursor: seq<u8>, count: nat)
    requires ReadTickets(cursor, VERSION, count).Ok?
    ensures var (tickets, rest) := ReadTickets(cursor, VERSION, count).value;
            |tickets| == count && EncodeAll(tickets).Ok? && cursor == EncodeAll(tickets).value + rest
  {
    hide ReadTicket, EncodeTicket;
    if count > 0 {
      TicketsCanonical(cursor, count - 1);
      var (front, c) := ReadTickets(cursor, VERSION, count - 1).value;
      TicketCanonical(c);
      var t := ReadTicket(c, VERSION).value.0;
      assert (front + [t])[..|front|] == front;
    }
  }

  /** Current-version bytes whose bound holds their tickets are the encoding of the store they decode to. */
  lemma StoreCanonical(input: seq<u8>)
    requires Decode(input).Ok? && input[4] == VERSION
    requires var (_, max, count, _) := ReadHeader(input).value; 1 <= max && count <= max
    ensures var s := Decode(input).value; Encode(s.tickets, s.max) == Ok(input)
  {
    hide ToBe, OfBe, EncodeAll, ReadTickets, InsertAll, Power256;
    var (version, max, count, cursor) := ReadHeader(input).value;
    var read := ReadTickets(cursor, version, count).value.0;
    TicketsCanonical(cursor, count);
    StoreHoldsNewest(read, max);
    BeBack(input[5..], 4);
    var c1 := ReadBe(input[5..], 4).value.1;
    BeBack(c1, 4);
    assert Decode(input).value == Store(read, max);
    assert cursor == EncodeAll(read).value;
    assert input[5..] == ToBe(max, 4) + (ToBe(count, 4) + cursor);
    assert input == MAGIC + [VERSION] + input[5..];
    assert input == MAGIC + [VERSION] + ToBe(max, 4) + ToBe(|read|, 4) + EncodeAll(read).value;
  }

  // Age policy

  /** Arithmetic on the 32-bit circle. */
  function Wrap(x: int): u32 {
    x % 0x1_0000_0000
  }

  function WrappingDistance(left: u32, right: u32): u32 {
    var l: int, r: int := left, right;
    Min(Wrap(l - r), Wrap(r - l))
  }

  function AgeMatches(t: Ticket, offered: u32, now: u64, skew: u32): bool {
    var age := Elapsed(now, t.issuedAt);
    age <= t.lifetime && WrappingDistance(Wrap(t.ageAdd as int + Min(age, MAX32)), offered) <= skew
  }

  /** `value` is `base` moved by d on the circle. */
  predicate Moved(base: int, d: int, value: u32) {
    value == Wrap(base + d)
  }

  /** The distance back to a point after a move. */
  lemma Turn(x: int, d: int)
    requires -0x8000_0000 < d < 0x8000_0000
    ensures Wrap(Wrap(x + d) as int - Wrap(x)) == if d >= 0 then d else d + 0x1_0000_0000
  {
    var k := (x + d) / 0x1_0000_0000 - x / 0x1_0000_0000;
    assert Wrap(x + d) as int - Wrap(x) == d - 0x1_0000_0000 * k;
  }

  lemma Arrive(x: int, o: u32)
    ensures Wrap(x + Wrap(o as int - Wrap(x))) == o
  {
    var q := x / 0x1_0000_0000;
    assert x == 0x1_0000_0000 * q + Wrap(x);
    var gap: int := o as int - Wrap(x);
    assert Wrap(gap) == if gap >= 0 then gap else gap + 0x1_0000_0000;
  }

  lemma Leave(x: int, o: u32)
    ensures Wrap(x - Wrap(Wrap(x) as int - o)) == o
  {
    var q := x / 0x1_0000_0000;
    assert x == 0x1_0000_0000 * q + Wrap(x);
    var gap: int := Wrap(x) as int - o;
    assert Wrap(gap) == if gap >= 0 then gap else gap + 0x1_0000_0000;
  }

  lemma Circle(x: int, offered: u32, skew: u32)
    ensures WrappingDistance(Wrap(x), offered) <= skew <==> exists d: int :: -(skew as int) <= d <= skew && Moved(x, d, offered)
  {
    hide Wrap;
    var o: int := offered;
    var e: int := Wrap(x);
    var forth: int, back: int := Wrap(o - e), Wrap(e - o);
    Arrive(x, offered);
    Leave(x, offered);
    HalfTurn(o - e);
    assert Moved(x, forth, offered) && Moved(x, -back, offered);
    if skew < 0x8000_0000 {
      forall d: int | -(skew as int) <= d <= skew && Moved(x, d, offered) ensures forth <= skew || back <= skew {
        Turn(x, d);
        Turn(x + d, -d);
      }
    }
  }

  /** One way round the circle is at most half of it. */
  lemma HalfTurn(gap: int)
    ensures Wrap(gap) < 0x8000_0000 || Wrap(-gap) <= 0x8000_0000
  {
  }

  /** The age the holder should offer, before it wraps. */
  function ExpectedAge(t: Ticket, now: u64): int {
    t.ageAdd as int + Min(Elapsed(now, t.issuedAt), MAX32)
  }

  /** A ticket matches exactly when it is alive and the offered age is the expected one moved by at most the skew. */
  lemma AgeMatchesIff(t: Ticket, offered: u32, now: u64, skew: u32)
    ensures AgeMatches(t, offered, now, skew) <==>
              && Elapsed(now, t.issuedAt) <= t.lifetime
              && exists d: int :: -(skew as int) <= d <= skew && Moved(ExpectedAge(t, now), d, offered)
  {
    hide Moved, WrappingDistance;
    Circle(ExpectedAge(t, now), offered, skew);
  }

  // At rest

  /** AES-GCM and SHA-256 as given. */
  datatype Sealer = Sealer(
    hash: seq<u8> -> seq<u8>,
    seal: (seq<u8>, seq<u8>, seq<u8>, seq<u8>) -> (seq<u8>, seq<u8>),
    open: (seq<u8>, seq<u8>, seq<u8>, seq<u8>, seq<u8>) -> Option<seq<u8>>)

  ghost predicate Correct(S: Sealer) {
    forall key, nonce, aad, text ::
      var (c, tag) := S.seal(key, nonce, aad, text);
      |c| == |text| && |tag| == 16 && S.open(key, nonce, aad, c, tag) == Some(text)
  }

  function Aad(nonce: seq<u8>, len: nat): Result<seq<u8>, StoreError> {
    if len > MAX32 then Err(InvalidLength) else Ok(SEALED_MAGIC + [1] + nonce + ToBe(len, 4))
  }

  function Seal(S: Sealer, tickets: seq<Ticket>, max: nat, key: seq<u8>, nonce: seq<u8>): Result<seq<u8>, StoreError> {
    var plain :- Encode(tickets, max);
    if key == [] then Err(InvalidLength)
    else
      var aad :- Aad(nonce, |plain|);
      var (c, tag) := S.seal(S.hash(key), nonce, aad, plain);
      if |c| > MAX32 then Err(InvalidLength)
      else Ok(SEALED_MAGIC + [1] + nonce + ToBe(|c|, 4) + c + tag)
  }

  function Unseal(S: Sealer, input: seq<u8>, key: seq<u8>): Result<Store, StoreError> {
    if |input| < 37 then Err(ParseFailure)
    else if input[..4] != SEALED_MAGIC then Err(ParseFailure)
    else if input[4] != 1 then Err(ParseFailure)
    else
      var (nonce, c1) :- ReadBytes(input[5..], 12);
      var (len, c2) :- ReadBe(c1, 4);
      var (c, c3) :- ReadBytes(c2, len);
      var (tag, c4) :- ReadBytes(c3, 16);
      if c4 != [] then Err(ParseFailure)
      else if key == [] then Err(InvalidLength)
      else
        var aad :- Aad(nonce, len);
        match S.open(S.hash(key), nonce, aad, c, tag)
        case None => Err(ParseFailure)
        case Some(plain) => Decode(plain)
  }

  /** A sealed store opens, under its key, to whatever its plain bytes decode to. */
  lemma SealRoundTrip(S: Sealer, tickets: seq<Ticket>, max: nat, key: seq<u8>, nonce: seq<u8>)
    requires Correct(S) && |nonce| == 12 && Seal(S, tickets, max, key, nonce).Ok?
    ensures Unseal(S, Seal(S, tickets, max, key, nonce).value, key) == Decode(Encode(tickets, max).value)
  {
    hide ToBe, OfBe, Encode, Decode, Power256, ReadBe;
    Powers256();
    var plain := Encode(tickets, max).value;
    var aad := Aad(nonce, |plain|).value;
    var (c, tag) := S.seal(S.hash(key), nonce, aad, plain);
    var input := Seal(S, tickets, max, key, nonce).value;
    assert input[..4] == SEALED_MAGIC && input[4] == 1;
    var c1 := ToBe(|c|, 4) + (c + tag);
    assert input[5..] == nonce + c1;
    assert (nonce + c1)[..12] == nonce && (nonce + c1)[12..] == c1;
    ReadBack(|c|, 4, c + tag);
    assert (c + tag)[..|c|] == c && (c + tag)[|c|..] == tag;
    assert tag[..16] == tag && tag[16..] == [];
  }

  // Positions and the first version

  /** The fields of fixed length that end a ticket. */
  function TicketTail(t: Ticket): (e: seq<u8>)
    ensures |e| == 29
  {
    ToBe(t.obfuscatedAge, 4) + ToBe(t.ageAdd, 4) + ToBe(t.issuedAt, 8) + ToBe(t.lifetime, 8) + ToBe(t.maxEarlyData, 4)
      + [if t.consumed then 1 else 0]
  }

  lemma TailLayout(t: Ticket)
    ensures var e := TicketTail(t);
            && OfBe(e[..4]) == t.obfuscatedAge && OfBe(e[4..8]) == t.ageAdd && OfBe(e[8..16]) == t.issuedAt
            && OfBe(e[16..24]) == t.lifetime && OfBe(e[24..28]) == t.maxEarlyData && e[28] == if t.consumed then 1 else 0
  {
    hide ToBe, OfBe, Power256;
    Powers256();
    BeRoundTrip(t.obfuscatedAge, 4);
    BeRoundTrip(t.ageAdd, 4);
    BeRoundTrip(t.issuedAt, 8);
    BeRoundTrip(t.lifetime, 8);
    BeRoundTrip(t.maxEarlyData, 4);
    var e := TicketTail(t);
    assert e[..4] == ToBe(t.obfuscatedAge, 4) && e[4..8] == ToBe(t.ageAdd, 4) && e[8..16] == ToBe(t.issuedAt, 8);
    assert e[16..24] == ToBe(t.lifetime, 8) && e[24..28] == ToBe(t.maxEarlyData, 4);
  }

  /** Where each field of a written ticket stands, most significant byte first; the last 29 bytes are those of fixed length. */
  lemma TicketLayout(t: Ticket)
    requires |t.identity| <= 0xFFFF && |t.nonce| <= 0xFFFF
    ensures EncodeTicket(t).Ok?
    ensures var (e, a, b) := (EncodeTicket(t).value, 2 + |t.identity|, 4 + |t.identity| + |t.nonce|);
            && |e| == b + 29 && OfBe(e[..2]) == |t.identity| && e[2..a] == t.identity && OfBe(e[a..a + 2]) == |t.nonce| && e[a + 2..b] == t.nonce
            && e[b..] == TicketTail(t)
  {
    hide ToBe, OfBe, Power256;
    Powers256();
    BeRoundTrip(|t.identity|, 2);
    BeRoundTrip(|t.nonce|, 2);
    var (first, second, tail) := (ToBe(|t.identity|, 2), ToBe(|t.nonce|, 2), TicketTail(t));
    var (e, a, b) := (EncodeTicket(t).value, 2 + |t.identity|, 4 + |t.identity| + |t.nonce|);
    assert e == first + (t.identity + (second + (t.nonce + tail)));
    assert e[..2] == first && e[2..a] == t.identity && e[a..a + 2] == second && e[a + 2..b] == t.nonce && e[b..] == tail;
  }

  /** A ticket as version 1 wrote it: without the early data limit. */
  function FirstVersion(t: Ticket): seq<u8>
    requires |t.identity| <= 0xFFFF && |t.nonce| <= 0xFFFF
  {
    var (e, b) := (EncodeTicket(t).value, 4 + |t.identity| + |t.nonce|);
    TicketLayout(t);
    e[..b + 24] + e[b + 28..]
  }

  /** It is read with a limit of zero, and every other field as written. */
  lemma FirstVersionBack(t: Ticket, rest: seq<u8>)
    requires |t.identity| <= 0xFFFF && |t.nonce| <= 0xFFFF
    ensures ReadTicket(FirstVersion(t) + rest, 1) == if ShortFields(t) then Ok((t.(maxEarlyData := 0), rest)) else Err(InvalidLength)
  {
    hide ToBe, OfBe, ReadField, ReadBe, Power256;
    Powers256();
    TicketLayout(t);
    var b := 4 + |t.identity| + |t.nonce|;
    var c7 := [if t.consumed then 1 else 0] + rest;
    var c5 := ToBe(t.lifetime, 8) + c7;
    var c4 := ToBe(t.issuedAt, 8) + c5;
    var c3 := ToBe(t.ageAdd, 4) + c4;
    var c2 := ToBe(t.obfuscatedAge, 4) + c3;
    var c1 := ToBe(|t.nonce|, 2) + t.nonce + c2;
    assert FirstVersion(t) + rest == ToBe(|t.identity|, 2) + t.identity + c1;
    FieldBack(t.identity, c1);
    FieldBack(t.nonce, c2);
    ReadBack(t.obfuscatedAge, 4, c3);
    ReadBack(t.ageAdd, 4, c4);
    ReadBack(t.issuedAt, 8, c5);
    ReadBack(t.lifetime, 8, c7);
    FlagBack(t.consumed, rest);
  }

  /** Where the fixed part of a written store stands. */
  lemma StoreLayout(tickets: seq<Ticket>, max: nat)
    requires Encode(tickets, max).Ok?
    ensures var e := Encode(tickets, max).value;
            && |e| >= 13 && e[..5] == [0x4E, 0x58, 0x54, 0x4B, 2] && OfBe(e[5..9]) == max && OfBe(e[9..13]) == |tickets|
            && EncodeAll(tickets) == Ok(e[13..])
  {
    hide ToBe, OfBe, Power256, EncodeAll;
    Powers256();
    BeRoundTrip(max, 4);
    BeRoundTrip(|tickets|, 4);
    var e := Encode(tickets, max).value;
    assert e[5..9] == ToBe(max, 4) && e[9..13] == ToBe(|tickets|, 4);
  }
}
