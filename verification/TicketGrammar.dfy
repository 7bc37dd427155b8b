/** Which byte strings are stored tickets, in either version, and what a sealed store is made of. */
module TicketGrammar {
  import opened Words
  import opened Wrappers
  import opened Lists
  import opened Bytes
  import opened Tickets

  /** A ticket within the reader's limits; version 1 has no room for an early data limit. */
  predicate Readable(t: Ticket, version: u8) {
    ShortFields(t) && (version == 1 ==> t.maxEarlyData == 0)
  }

  function TicketBytes(t: Ticket, version: u8): seq<u8>
    requires Readable(t, version)
  {
    if version == 1 then FirstVersion(t) else EncodeTicket(t).value
  }

  predicate AllReadable(tickets: seq<Ticket>, version: u8) {
    forall i :: 0 <= i < |tickets| ==> Readable(tickets[i], version)
  }

  function AllBytes(tickets: seq<Ticket>, version: u8): seq<u8>
    requires AllReadable(tickets, version)
  {
    if tickets == [] then [] else AllBytes(tickets[..|tickets| - 1], version) + TicketBytes(tickets[|tickets| - 1], version)
  }

  lemma TicketReads(t: Ticket, version: u8, rest: seq<u8>)
    requires Readable(t, version) && 1 <= version <= 2
    ensures ReadTicket(TicketBytes(t, version) + rest, version) == Ok((t, rest))
  {
    hide ReadTicket, EncodeTicket, FirstVersion;
    TicketLayout(t);
    if version == 1 {
      FirstVersionBack(t, rest);
    } else {
      TicketBack(t, rest);
    }
  }

  /** A ticket of version 1 stands where it was read. */
  lemma FirstVersionIs(cursor: seq<u8>)
    requires ReadTicket(cursor, 1).Ok?
    ensures var (t, rest) := ReadTicket(cursor, 1).value;
            Readable(t, 1) && cursor == FirstVersion(t) + rest
  {
    hide ToBe, OfBe, ReadField, ReadBe, Power256;
    var (identity, c1) := ReadField(cursor).value;
    var (nonce, c2) := ReadField(c1).value;
    var (age, c3) := ReadBe(c2, 4).value;
    var (add, c4) := ReadBe(c3, 4).value;
    var (issued, c5) := ReadBe(c4, 8).value;
    var (lifetime, c6) := ReadBe(c5, 8).value;
    var (flag, c7) := ReadBe(c6, 1).value;
    FieldCanonical(cursor);
    FieldCanonical(c1);
    BeBack(c2, 4);
    BeBack(c3, 4);
    BeBack(c4, 8);
    BeBack(c5, 8);
    BeBack(c6, 1);
    FlagByte(flag);
    var t := ReadTicket(cursor, 1).value.0;
    FirstVersionParts(t);
    assert cursor == FirstVersion(t) + c7;
  }

  lemma FirstVersionParts(t: Ticket)
    requires |t.identity| <= 0xFFFF && |t.nonce| <= 0xFFFF
    ensures FirstVersion(t) == ToBe(|t.identity|, 2) + t.identity + ToBe(|t.nonce|, 2) + t.nonce + ToBe(t.obfuscatedAge, 4)
                               + ToBe(t.ageAdd, 4) + ToBe(t.issuedAt, 8) + ToBe(t.lifetime, 8) + [if t.consumed then 1 else 0]
  {
    hide ToBe, OfBe;
  }

  lemma TicketIs(cursor: seq<u8>, version: u8)
    requires ReadTicket(cursor, version).Ok? && 1 <= version <= 2
    ensures var (t, rest) := ReadTicket(cursor, version).value;
            Readable(t, version) && cursor == TicketBytes(t, version) + rest
  {
    hide ReadTicket, EncodeTicket, FirstVersion;
    if version == 1 {
      FirstVersionIs(cursor);
    } else {
      TicketCanonical(cursor);
      FieldsShort(cursor);
    }
  }

  lemma FieldsShort(cursor: seq<u8>)
    requires ReadTicket(cursor, 2).Ok?
    ensures ShortFields(ReadTicket(cursor, 2).value.0)
  {
    hide ReadField, ReadBe;
  }

  lemma {:induction false} TicketsRead(tickets: seq<Ticket>, version: u8, rest: seq<u8>)
    requires AllReadable(tickets, version) && 1 <= version <= 2
    ensures ReadTickets(AllBytes(tickets, version) + rest, version, |tickets|) == Ok((tickets, rest))
  {
    hide ReadTicket, TicketBytes, Readable;
    if tickets == [] {
      assert AllBytes(tickets, version) + rest == rest;
    } else {
      var (front, last) := (tickets[..|tickets| - 1], tickets[|tickets| - 1]);
      var bytes := TicketBytes(last, version);
      assert AllBytes(tickets, version) + rest == AllBytes(front, version) + (bytes + rest);
      TicketsRead(front, version, bytes + rest);
      TicketReads(last, version, rest);
      assert tickets == front + [last];
    }
  }

  lemma {:induction false} TicketsAre(cursor: seq<u8>, version: u8, count: nat)
    requires ReadTickets(cursor, version, count).Ok? && 1 <= version <= 2
    ensures var (tickets, rest) := ReadTickets(cursor, version, count).value;
            |tickets| == count && AllReadable(tickets, version) && cursor == AllBytes(tickets, version) + rest
  {
    hide ReadTicket, TicketBytes, Readable;
    if count > 0 {
      TicketsAre(cursor, version, count - 1);
      var (front, c) := ReadTickets(cursor, version, count - 1).value;
      TicketIs(c, version);
      var t := ReadTicket(c, version).value.0;
      assert (front + [t])[..|front|] == front;
    }
  }

  /** A stored ticket list: its version, bound and tickets. */
  ghost predicate IsStore(input: seq<u8>, version: u8, max: nat, tickets: seq<Ticket>) {
    && (version == 1 || version == 2) && max <= 16384 && |tickets| <= 16384 && AllReadable(tickets, version)
    && |input| <= 8 * 1024 * 1024
    && input == [0x4E, 0x58, 0x54, 0x4B, version] + ToBe(max, 4) + ToBe(|tickets|, 4) + AllBytes(tickets, version)
  }

  /** Any bytes at all decode exactly when they are a stored list, to its newest tickets under its bound, which is at least one. */
  lemma DecodeIff(input: seq<u8>, store: Store)
    ensures Decode(input) == Ok(store) <==>
              exists version: u8, max: nat, tickets: seq<Ticket> ::
                IsStore(input, version, max, tickets) && store == Store(Newest(tickets, Max(max, 1)), Max(max, 1))
  {
    hide ToBe, OfBe, ReadTickets, InsertAll, AllReadable, Power256, Newest;
    if Decode(input) == Ok(store) {
      var (version, max, count, cursor) := ReadHeader(input).value;
      var tickets := ReadTickets(cursor, version, count).value.0;
      TicketsAre(cursor, version, count);
      HeaderIs(input);
      StoreHoldsNewest(tickets, Max(max, 1));
      assert AllBytes(tickets, version) + [] == cursor;
      assert IsStore(input, version, max, tickets);
    }
    forall version: u8, max: nat, tickets: seq<Ticket>
      | IsStore(input, version, max, tickets) && store == Store(Newest(tickets, Max(max, 1)), Max(max, 1))
      ensures Decode(input) == Ok(store)
    {
      var cursor := AllBytes(tickets, version);
      HeaderReads(input, version, max, |tickets|, cursor);
      TicketsRead(tickets, version, []);
      assert cursor + [] == cursor;
      StoreHoldsNewest(tickets, Max(max, 1));
    }
  }

  lemma HeaderIs(input: seq<u8>)
    requires ReadHeader(input).Ok?
    ensures var (version, max, count, cursor) := ReadHeader(input).value;
            && (version == 1 || version == 2) && max <= 16384 && count <= 16384 && |input| <= 8 * 1024 * 1024
            && input == [0x4E, 0x58, 0x54, 0x4B, version] + ToBe(max, 4) + ToBe(count, 4) + cursor
  {
    hide ToBe, OfBe, ReadBe;
    BeBack(input[5..], 4);
    BeBack(ReadBe(input[5..], 4).value.1, 4);
    assert input == input[..4] + [input[4]] + input[5..];
  }

  lemma HeaderReads(input: seq<u8>, version: u8, max: nat, count: nat, cursor: seq<u8>)
    requires (version == 1 || version == 2) && max <= 16384 && count <= 16384 && |input| <= 8 * 1024 * 1024
    requires input == [0x4E, 0x58, 0x54, 0x4B, version] + ToBe(max, 4) + ToBe(count, 4) + cursor
    ensures ReadHeader(input) == Ok((version, max, count, cursor))
  {
    hide ToBe, OfBe, ReadBe, Power256;
    Powers256();
    ReadBack(max, 4, ToBe(count, 4) + cursor);
    ReadBack(count, 4, cursor);
    assert input[..4] == [0x4E, 0x58, 0x54, 0x4B];
    assert input[5..] == ToBe(max, 4) + (ToBe(count, 4) + cursor);
  }

  /** A sealed store: magic, version, nonce, length, ciphertext and tag, sealed under the hashed key with the first of these as associated data. */
  lemma SealedStoreIs(S: Sealer, tickets: seq<Ticket>, max: nat, key: seq<u8>, nonce: seq<u8>, plain: seq<u8>)
    requires Encode(tickets, max) == Ok(plain) && key != [] && |plain| <= 0xFFFF_FFFF
    ensures var head := [0x4E, 0x58, 0x53, 0x45, 1] + nonce;
            var (c, tag) := S.seal(S.hash(key), nonce, head + ToBe(|plain|, 4), plain);
            |c| == |plain| ==> Seal(S, tickets, max, key, nonce) == Ok(head + ToBe(|c|, 4) + c + tag)
  {
    hide ToBe, Encode;
    assert SEALED_MAGIC + [1] == [0x4E, 0x58, 0x53, 0x45, 1];
  }

  /** Invalidation leaves exactly the tickets of other identities, in order. */
  lemma InvalidationLeaves(tickets: seq<Ticket>, identity: seq<u8>, t: Ticket)
    ensures t in Filter(tickets, OtherIdentity(identity)) <==> t in tickets && t.identity != identity
  {
    FilterIs(tickets, OtherIdentity(identity), t);
  }

  /** A store can be written exactly when bound, count and field lengths fit the format. */
  lemma {:induction false} WritableIff(tickets: seq<Ticket>)
    ensures EncodeAll(tickets).Ok? <==> forall i :: 0 <= i < |tickets| ==> |tickets[i].identity| <= 0xFFFF && |tickets[i].nonce| <= 0xFFFF
    ensures EncodeAll(tickets).Err? ==> EncodeAll(tickets) == Err(InvalidLength)
    ensures forall max: nat :: Encode(tickets, max).Ok? <==> max <= 0xFFFF_FFFF && |tickets| <= 0xFFFF_FFFF && EncodeAll(tickets).Ok?
    ensures forall max: nat :: Encode(tickets, max).Err? ==> Encode(tickets, max) == Err(InvalidLength)
  {
    hide ToBe;
    if tickets != [] {
      WritableIff(tickets[..|tickets| - 1]);
    }
  }

  /** A store is sealed exactly when it can be written, the key is not empty and the lengths fit. */
  lemma SealsIff(S: Sealer, tickets: seq<Ticket>, max: nat, key: seq<u8>, nonce: seq<u8>)
    ensures Seal(S, tickets, max, key, nonce).Ok? <==>
              && Encode(tickets, max).Ok? && key != [] && |Encode(tickets, max).value| <= 0xFFFF_FFFF
              && var plain := Encode(tickets, max).value;
              |S.seal(S.hash(key), nonce, [0x4E, 0x58, 0x53, 0x45, 1] + nonce + ToBe(|plain|, 4), plain).0| <= 0xFFFF_FFFF
  {
    hide ToBe, Encode;
    assert SEALED_MAGIC + [1] == [0x4E, 0x58, 0x53, 0x45, 1];
  }
}
