/** DTLS record headers and packets, nonces, and protected records behind the replay tracker. */
module DtlsRecords {
  import opened Words
  import opened Bits
  import opened Wrappers
  import opened Bytes
  import opened DtlsReplay

  const HEADER_LEN: nat := 13
  const TAG_LEN: nat := 16
  const MAX_SEQUENCE: int := 0xFFFF_FFFF_FFFF

  datatype DtlsError = InvalidLength | ParseFailure | StateError | CryptoFailure

  datatype ContentType = Invalid | ChangeCipherSpec | Alert | Handshake | ApplicationData

  function TypeByte(t: ContentType): u8 {
    match t
    case Invalid => 0x00
    case ChangeCipherSpec => 0x14
    case Alert => 0x15
    case Handshake => 0x16
    case ApplicationData => 0x17
  }

  function TypeOf(b: u8): Option<ContentType> {
    if b == 0x00 then Some(Invalid)
    else if b == 0x14 then Some(ChangeCipherSpec)
    else if b == 0x15 then Some(Alert)
    else if b == 0x16 then Some(Handshake)
    else if b == 0x17 then Some(ApplicationData)
    else None
  }

  type Version = v: seq<u8> | |v| == 2 witness [0, 0]

  datatype Header = Header(contentType: ContentType, version: Version, epoch: u16, sequence: u64, length: u16)

  function EncodeHeader(h: Header): (r: Result<seq<u8>, DtlsError>)
    ensures r.Ok? ==> |r.value| == HEADER_LEN
  {
    if h.sequence > MAX_SEQUENCE then Err(InvalidLength)
    else Ok([TypeByte(h.contentType)] + h.version + ToBe(h.epoch, 2) + ToBe(h.sequence, 6) + ToBe(h.length, 2))
  }

  function ParseHeader(input: seq<u8>): Result<(Header, seq<u8>), DtlsError> {
    if |input| < HEADER_LEN then Err(ParseFailure)
    else
      Fits(input[3..5], input[5..11], input[11..13]);
      match TypeOf(input[0])
      case None => Err(ParseFailure)
      case Some(t) => Ok((Header(t, input[1..3], OfBe(input[3..5]), OfBe(input[5..11]), OfBe(input[11..13])), input[13..]))
  }

  lemma Fits(a: seq<u8>, b: seq<u8>, c: seq<u8>)
    requires |a| == 2 && |b| == 6 && |c| == 2
    ensures OfBe(a) < 0x1_0000 && OfBe(b) <= MAX_SEQUENCE && OfBe(c) < 0x1_0000
  {
    BeCanonical(a);
    BeCanonical(b);
    BeCanonical(c);
    Powers256();
  }

  lemma HeaderFields(t: u8, version: Version, epoch: seq<u8>, sequence: seq<u8>, length: seq<u8>, rest: seq<u8>)
    requires |epoch| == 2 && |sequence| == 6 && |length| == 2
    ensures var input := [t] + version + epoch + sequence + length + rest;
            && |input| == HEADER_LEN + |rest| && input[0] == t && input[1..3] == version && input[3..5] == epoch
            && input[5..11] == sequence && input[11..13] == length && input[13..] == rest
  {
  }

  /** A header with a 48-bit sequence number parses back from its bytes, whatever follows. */
  lemma HeaderRoundTrip(h: Header, rest: seq<u8>)
    requires h.sequence <= MAX_SEQUENCE
    ensures EncodeHeader(h).Ok? && ParseHeader(EncodeHeader(h).value + rest) == Ok((h, rest))
  {
    hide ToBe, OfBe;
    Powers256();
    BeRoundTrip(h.epoch, 2);
    BeRoundTrip(h.sequence, 6);
    BeRoundTrip(h.length, 2);
    HeaderFields(TypeByte(h.contentType), h.version, ToBe(h.epoch, 2), ToBe(h.sequence, 6), ToBe(h.length, 2), rest);
  }

  /** Thirteen bytes parse to at most one header, and only to one that encodes to them. */
  lemma HeaderCanonical(input: seq<u8>)
    requires ParseHeader(input).Ok?
    ensures var (h, rest) := ParseHeader(input).value;
            h.sequence <= MAX_SEQUENCE && EncodeHeader(h) == Ok(input[..HEADER_LEN]) && rest == input[HEADER_LEN..]
  {
    hide ToBe, OfBe;
    Fits(input[3..5], input[5..11], input[11..13]);
    BeCanonical(input[3..5]);
    BeCanonical(input[5..11]);
    BeCanonical(input[11..13]);
    assert input[..13] == [input[0]] + input[1..3] + input[3..5] + input[5..11] + input[11..13];
  }

  function EncodePacket(t: ContentType, version: Version, epoch: u16, sequence: u64, payload: seq<u8>): Result<seq<u8>, DtlsError> {
    if |payload| > 0xFFFF then Err(InvalidLength)
    else
      var header :- EncodeHeader(Header(t, version, epoch, sequence, |payload|));
      Ok(header + payload)
  }

  function ParsePacket(input: seq<u8>): Result<(Header, seq<u8>), DtlsError> {
    var (h, body) :- ParseHeader(input);
    if |body| != h.length then Err(ParseFailure) else Ok((h, body))
  }

  lemma PacketRoundTrip(t: ContentType, version: Version, epoch: u16, sequence: u64, payload: seq<u8>)
    ensures EncodePacket(t, version, epoch, sequence, payload).Ok? <==> |payload| <= 0xFFFF && sequence <= MAX_SEQUENCE
    ensures |payload| <= 0xFFFF && sequence <= MAX_SEQUENCE ==>
              ParsePacket(EncodePacket(t, version, epoch, sequence, payload).value)
              == Ok((Header(t, version, epoch, sequence, |payload|), payload))
  {
    hide ParseHeader, EncodeHeader;
    if |payload| <= 0xFFFF {
      var h := Header(t, version, epoch, sequence, |payload|);
      if sequence <= MAX_SEQUENCE {
        HeaderRoundTrip(h, payload);
      } else {
        TooLong(h);
      }
    }
  }

  lemma TooLong(h: Header)
    ensures h.sequence > MAX_SEQUENCE ==> EncodeHeader(h) == Err(InvalidLength)
  {
  }

  lemma PacketCanonical(input: seq<u8>)
    requires ParsePacket(input).Ok?
    ensures var (h, payload) := ParsePacket(input).value;
            EncodePacket(h.contentType, h.version, h.epoch, h.sequence, payload) == Ok(input)
  {
    hide EncodeHeader, OfBe;
    HeaderCanonical(input);
    assert input == input[..13] + input[13..];
  }

  // Nonces

  type Iv = s: seq<u8> | |s| == 12 witness seq(12, _ => 0)

  function NumberBytes(epoch: u16, sequence: u64): (s: seq<u8>)
    ensures |s| == 8
  {
    ToBe(epoch, 2) + ToBe(sequence, 6)
  }

  /** The static value with the record number folded into its last eight bytes. */
  function Nonce(iv: Iv, epoch: u16, sequence: u64): Iv {
    hide XorByte, NumberBytes;
    seq(12, i requires 0 <= i < 12 => if i < 4 then iv[i] else XorByte(iv[i], NumberBytes(epoch, sequence)[i - 4]))
  }

  method BuildNonce(iv: Iv, epoch: u16, sequence: u64) returns (out: Iv)
    ensures out == Nonce(iv, epoch, sequence)
  {
    hide XorByte, NumberBytes;
    var nonce := new u8[12](i requires 0 <= i < 12 => iv[i]);
    var bytes := NumberBytes(epoch, sequence);
    for idx := 0 to 8
      invariant forall i :: 0 <= i < 4 + idx ==> nonce[i] == Nonce(iv, epoch, sequence)[i]
      invariant forall i :: 4 + idx <= i < 12 ==> nonce[i] == iv[i]
    {
      nonce[4 + idx] := XorByte(nonce[4 + idx], bytes[idx]);
    }
    out := nonce[..];
  }

  /** Under one static value, no two record numbers share a nonce. */
  lemma NoncesDiffer(iv: Iv, epoch: u16, sequence: u64, epoch': u16, sequence': u64)
    requires sequence <= MAX_SEQUENCE && sequence' <= MAX_SEQUENCE
    requires Nonce(iv, epoch, sequence) == Nonce(iv, epoch', sequence')
    ensures epoch == epoch' && sequence == sequence'
  {
    hide ToBe, Xor;
    var a, b := NumberBytes(epoch, sequence), NumberBytes(epoch', sequence');
    forall i | 0 <= i < 8 ensures a[i] == b[i] {
      assert Nonce(iv, epoch, sequence)[4 + i] == Nonce(iv, epoch', sequence')[4 + i];
      XorCancels(iv[4 + i], a[i], b[i]);
    }
    assert a == b;
    assert a[..2] == ToBe(epoch, 2) && b[..2] == ToBe(epoch', 2);
    assert a[2..] == ToBe(sequence, 6) && b[2..] == ToBe(sequence', 6);
    Powers256();
    BeInjective(epoch, epoch', 2);
    BeInjective(sequence, sequence', 6);
  }

  // Protected records

  /** AES-128-GCM as given: `seal(key, nonce, aad, text)` is ciphertext and tag, `open` may refuse. */
  datatype Aead = Aead(
    seal: (seq<u8>, Iv, seq<u8>, seq<u8>) -> (seq<u8>, seq<u8>),
    open: (seq<u8>, Iv, seq<u8>, seq<u8>, seq<u8>) -> Option<seq<u8>>)

  /** Lengths are kept, and what is sealed opens under the same key, nonce and associated data. */
  ghost predicate Correct(A: Aead) {
    forall key, nonce, aad, text ::
      var (c, tag) := A.seal(key, nonce, aad, text);
      |c| == |text| && |tag| == TAG_LEN && A.open(key, nonce, aad, c, tag) == Some(text)
  }

  const PROTECTED_VERSION: Version := [0xFE, 0xFD]

  function RecordSize(plaintext: nat): Result<nat, DtlsError> {
    if plaintext + TAG_LEN > 0xFFFF then Err(InvalidLength) else Ok(HEADER_LEN + plaintext + TAG_LEN)
  }

  function SealRecord(A: Aead, epoch: u16, sequence: u64, key: seq<u8>, iv: Iv, plaintext: seq<u8>): Result<seq<u8>, DtlsError> {
    if sequence > MAX_SEQUENCE then Err(InvalidLength)
    else
      var size :- RecordSize(|plaintext|);
      var header :- EncodeHeader(Header(ApplicationData, PROTECTED_VERSION, epoch, sequence, size - HEADER_LEN));
      var (c, tag) := A.seal(key, Nonce(iv, epoch, sequence), header, plaintext);
      Ok(header + c + tag)
  }

  /** The checks made before the replay tracker is consulted. */
  function Screened(packet: seq<u8>): (r: Result<(Header, seq<u8>), DtlsError>)
    ensures r.Ok? ==> |packet| >= HEADER_LEN && |r.value.1| >= TAG_LEN
  {
    var (h, body) :- ParsePacket(packet);
    if h.contentType != ApplicationData || h.version != PROTECTED_VERSION || |body| < TAG_LEN then Err(ParseFailure)
    else Ok((h, body))
  }

  function Decrypted(A: Aead, packet: seq<u8>, key: seq<u8>, iv: Iv, h: Header, body: seq<u8>): Result<(Header, seq<u8>), DtlsError>
    requires |packet| >= HEADER_LEN && |body| >= TAG_LEN
  {
    var cut := |body| - TAG_LEN;
    match A.open(key, Nonce(iv, h.epoch, h.sequence), packet[..HEADER_LEN], body[..cut], body[cut..])
    case None => Err(CryptoFailure)
    case Some(text) => Ok((h, text))
  }

  /** The number is marked before decryption, so a forged packet spends it. */
  method OpenRecord(A: Aead, packet: seq<u8>, key: seq<u8>, iv: Iv, tracker: DtlsEpochReplayTracker)
    returns (r: Result<(Header, seq<u8>), DtlsError>)
    requires tracker.Valid()
    modifies tracker, tracker.currentWindow, tracker.previousWindow
    ensures tracker.Valid()
    ensures Screened(packet).Err? ==> r == Err(Screened(packet).error) && tracker.View() == old(tracker.View())
    ensures Screened(packet).Ok? ==>
              var (h, body) := Screened(packet).value;
              && tracker.View() == After(old(tracker.View()), Number(h.epoch, h.sequence))
              && r == if Decides(old(tracker.View()), Number(h.epoch, h.sequence)) then Decrypted(A, packet, key, iv, h, body)
                      else Err(StateError)
  {
    hide Nonce, ParsePacket;
    var screened :- Screened(packet);
    var (h, body) := screened;
    var unseen := tracker.CheckAndMark(h.epoch, h.sequence);
    if !unseen {
      return Err(StateError);
    }
    var nonce := BuildNonce(iv, h.epoch, h.sequence);
    var cut := |body| - TAG_LEN;
    var text := A.open(key, nonce, packet[..HEADER_LEN], body[..cut], body[cut..]);
    return if text == None then Err(CryptoFailure) else Ok((h, text.value));
  }

  /** What is sealed passes the screen and decrypts to what was sealed. */
  lemma SealedOpens(A: Aead, epoch: u16, sequence: u64, key: seq<u8>, iv: Iv, plaintext: seq<u8>)
    requires Correct(A) && sequence <= MAX_SEQUENCE && |plaintext| + TAG_LEN <= 0xFFFF
    ensures var sealed := SealRecord(A, epoch, sequence, key, iv, plaintext);
            && sealed.Ok? && Ok(|sealed.value|) == RecordSize(|plaintext|)
            && Screened(sealed.value).Ok?
            && var (h, body) := Screened(sealed.value).value;
            && h.epoch == epoch && h.sequence == sequence
            && Decrypted(A, sealed.value, key, iv, h, body) == Ok((h, plaintext))
  {
    hide Nonce, EncodeHeader, ParseHeader;
    var h := Header(ApplicationData, PROTECTED_VERSION, epoch, sequence, |plaintext| + TAG_LEN);
    HeaderRoundTrip(h, []);
    var header := EncodeHeader(h).value;
    var (c, tag) := A.seal(key, Nonce(iv, epoch, sequence), header, plaintext);
    HeaderRoundTrip(h, c + tag);
    var packet := header + c + tag;
    assert packet == header + (c + tag);
    assert packet[..HEADER_LEN] == header;
    assert (c + tag)[..|c|] == c && (c + tag)[|c|..] == tag;
  }

  // Runs of opened packets

  /** The record numbers a list of packets spends: those of the packets that pass the screen, forged or not. */
  function Spent(packets: seq<seq<u8>>): seq<Number> {
    if packets == [] then []
    else
      var last := Screened(packets[|packets| - 1]);
      Spent(packets[..|packets| - 1])
        + if last.Ok? then [Number(last.value.0.epoch, last.value.0.sequence)] else []
  }

  /** Opening one more packet moves the tracker as `OpenRecord` says. */
  lemma SpentStep(packets: seq<seq<u8>>, packet: seq<u8>)
    ensures Run(Spent(packets + [packet])) ==
              if Screened(packet).Ok? then
                After(Run(Spent(packets)), Number(Screened(packet).value.0.epoch, Screened(packet).value.0.sequence))
              else Run(Spent(packets))
  {
    hide Screened, After;
    assert (packets + [packet])[..|packets|] == packets;
    if Screened(packet).Ok? {
      var n := Number(Screened(packet).value.0.epoch, Screened(packet).value.0.sequence);
      assert Spent(packets + [packet]) == Spent(packets) + [n];
      assert (Spent(packets) + [n])[..|Spent(packets)|] == Spent(packets);
    } else {
      assert Spent(packets + [packet]) == Spent(packets);
    }
  }

  lemma {:induction false} NumberIsSpent(packets: seq<seq<u8>>, i: nat)
    requires i < |packets| && Screened(packets[i]).Ok?
    ensures Number(Screened(packets[i]).value.0.epoch, Screened(packets[i]).value.0.sequence) in Spent(packets)
  {
    hide Screened;
    var front := packets[..|packets| - 1];
    if i < |front| {
      NumberIsSpent(front, i);
      assert front[i] == packets[i];
    }
  }

  /**
   In any run of opened packets on a fresh tracker, a packet is refused once any earlier packet that passed
   the screen carried its number. The earlier one need not have decrypted, so a forged record that arrives
   first keeps the genuine one out.
   */
  lemma FirstPacketSpendsNumber(packets: seq<seq<u8>>, i: nat, packet: seq<u8>)
    requires i < |packets| && Screened(packets[i]).Ok? && Screened(packet).Ok?
    requires Screened(packets[i]).value.0.epoch == Screened(packet).value.0.epoch
    requires Screened(packets[i]).value.0.sequence == Screened(packet).value.0.sequence
    ensures !Decides(Run(Spent(packets)), Number(Screened(packet).value.0.epoch, Screened(packet).value.0.sequence))
  {
    hide Screened, Decides, Run, Spent;
    NumberIsSpent(packets, i);
    var numbers := Spent(packets);
    var k :| 0 <= k < |numbers| && numbers[k] == Number(Screened(packet).value.0.epoch, Screened(packet).value.0.sequence);
    OnlyFirstAccepted(numbers, k, |numbers|);
    assert numbers[..|numbers|] == numbers;
  }

  // Positions

  /** The content type codes. */
  lemma TypeCodes()
    ensures TypeByte(ChangeCipherSpec) == 20 && TypeByte(Alert) == 21 && TypeByte(Handshake) == 22 && TypeByte(ApplicationData) == 23
    ensures TypeByte(Invalid) == 0
    ensures forall b: u8 :: TypeOf(b).Some? ==> TypeByte(TypeOf(b).value) == b
  {
  }

  /** Where each field of a header stands, most significant byte first. */
  lemma HeaderLayout(h: Header)
    requires h.sequence <= MAX_SEQUENCE
    ensures EncodeHeader(h).Ok?
    ensures var e := EncodeHeader(h).value;
            && |e| == 13 && e[0] == TypeByte(h.contentType) && e[1..3] == h.version
            && OfBe(e[3..5]) == h.epoch && OfBe(e[5..11]) == h.sequence && OfBe(e[11..13]) == h.length
  {
    hide ToBe, OfBe, Power256;
    Powers256();
    BeRoundTrip(h.epoch, 2);
    BeRoundTrip(h.sequence, 6);
    BeRoundTrip(h.length, 2);
    var e := EncodeHeader(h).value;
    assert e[3..5] == ToBe(h.epoch, 2) && e[5..11] == ToBe(h.sequence, 6) && e[11..13] == ToBe(h.length, 2);
  }

  /** Byte i of a nonce: the static value, from place 4 on with the 64-bit record number mixed in, top byte first. */
  lemma NonceIs(iv: Iv, epoch: u16, sequence: u64, i: nat)
    requires i < 12 && sequence <= MAX_SEQUENCE
    ensures Nonce(iv, epoch, sequence)[i]
         == if i < 4 then iv[i] else XorByte(iv[i], (0x1_0000_0000_0000 * epoch + sequence) / Power256(11 - i) % 256)
  {
    hide ToBe, OfBe, Power256, XorByte;
    Powers256();
    BeRoundTrip(epoch, 2);
    BeRoundTrip(sequence, 6);
    BeConcat(ToBe(epoch, 2), ToBe(sequence, 6));
    if i >= 4 {
      BeDigit(NumberBytes(epoch, sequence), i - 4);
    }
  }

  /** A sealed record: the header, the ciphertext and the tag, sealed under that nonce with the header as associated data. */
  lemma SealedIs(A: Aead, epoch: u16, sequence: u64, key: seq<u8>, iv: Iv, plaintext: seq<u8>)
    ensures SealRecord(A, epoch, sequence, key, iv, plaintext).Ok? <==> sequence <= MAX_SEQUENCE && |plaintext| + 16 <= 0xFFFF
    ensures SealRecord(A, epoch, sequence, key, iv, plaintext).Ok? ==>
              var header := EncodeHeader(Header(ApplicationData, [0xFE, 0xFD], epoch, sequence, |plaintext| + 16)).value;
              var (c, tag) := A.seal(key, Nonce(iv, epoch, sequence), header, plaintext);
              SealRecord(A, epoch, sequence, key, iv, plaintext) == Ok(header + c + tag)
  {
  }

  /** An opened record: the first 13 bytes as associated data, the last 16 as tag. */
  lemma OpenedIs(A: Aead, packet: seq<u8>, key: seq<u8>, iv: Iv, text: seq<u8>)
    requires Screened(packet).Ok?
    ensures var (h, body) := Screened(packet).value;
            && packet == packet[..13] + body && EncodeHeader(h) == Ok(packet[..13]) && |body| >= 16
            && h.contentType == ApplicationData && h.version == [0xFE, 0xFD] && h.length == |body|
            && (Decrypted(A, packet, key, iv, h, body) == Ok((h, text)) <==>
                  A.open(key, Nonce(iv, h.epoch, h.sequence), packet[..13], body[..|body| - 16], body[|body| - 16..]) == Some(text))
  {
    hide EncodeHeader, Nonce, ParseHeader;
    HeaderCanonical(packet);
    var (h, body) := Screened(packet).value;
    HeaderSplit(packet);
  }

  lemma HeaderSplit(packet: seq<u8>)
    requires ParseHeader(packet).Ok?
    ensures |packet| >= 13 && ParseHeader(packet).value.1 == packet[13..]
  {
  }
}
