/** Writing a certificate and parsing it back. */
module CertificateDer {
  import Arith
  import opened Words
  import opened Wrappers
  import opened Bytes
  import opened Der

  const MAX_CERTIFICATE: nat := 0x10_0000
  const MAX_EXTENSIONS: nat := 256
  const BASIC_CONSTRAINTS: seq<u8> := [0x55, 0x1D, 0x13]

  // Writers

  type Written = Result<seq<u8>, DerError>

  function WriteSequence(children: seq<u8>): Written {
    EncodeNode(0x30, children)
  }

  function WriteOid(content: seq<u8>): Written {
    if content == [] then Err(InvalidLength) else EncodeNode(0x06, content)
  }

  function WriteBitString(bits: seq<u8>): Written {
    EncodeNode(0x03, [0x00] + bits)
  }

  function WriteBoolean(value: bool): Written {
    EncodeNode(0x01, [if value then 0xFF else 0x00])
  }

  function WriteUtf8(bytes: seq<u8>): Written {
    if bytes == [] then Err(InvalidLength) else EncodeNode(0x0C, bytes)
  }

  function WriteExplicit(tagNumber: u8, child: seq<u8>): Written
    requires tagNumber < 0x10
  {
    EncodeNode(0xA0 + tagNumber, child)
  }

  predicate AsciiDigit(b: u8) {
    0x30 <= b <= 0x39
  }

  /** UTCTime by thirteen bytes, GeneralizedTime by fifteen; digits, then Z. */
  function WriteTime(time: seq<u8>): Written {
    if |time| != 13 && |time| != 15 then Err(InvalidLength)
    else if time[|time| - 1] != 0x5A || !(forall i :: 0 <= i < |time| - 1 ==> AsciiDigit(time[i])) then Err(InvalidEncoding)
    else EncodeNode(if |time| == 13 then 0x17 else 0x18, time)
  }

  function WriteCommonName(cn: seq<u8>): Written {
    if cn == [] then Err(InvalidLength)
    else
      var oid :- WriteOid([0x55, 0x04, 0x03]);
      var value :- WriteUtf8(cn);
      var attribute :- WriteSequence(oid + value);
      var rdn :- EncodeNode(0x31, attribute);
      WriteSequence(rdn)
  }

  function WriteValidity(notBefore: seq<u8>, notAfter: seq<u8>): Written {
    var before :- WriteTime(notBefore);
    var after :- WriteTime(notAfter);
    WriteSequence(before + after)
  }

  function WriteBasicConstraints(isCa: bool): Written {
    var oid :- WriteOid(BASIC_CONSTRAINTS);
    var critical :- WriteBoolean(true);
    var ca :- WriteBoolean(isCa);
    var value :- WriteSequence(ca);
    var octets :- EncodeNode(0x04, value);
    WriteSequence(oid + critical + octets)
  }

  function WriteExtensions(isCa: bool): Written {
    var extension :- WriteBasicConstraints(isCa);
    WriteSequence(extension)
  }

  /** What a caller asks to be certified. */
  datatype Request = Request(serial: seq<u8>, commonName: seq<u8>, notBefore: seq<u8>, notAfter: seq<u8>, isCa: bool)

  function BuildTbs(q: Request, algorithm: seq<u8>, spki: seq<u8>): Written {
    var two :- WriteInteger([0x02]);
    var version :- WriteExplicit(0, two);
    var serial :- WriteInteger(q.serial);
    var name :- WriteCommonName(q.commonName);
    var validity :- WriteValidity(q.notBefore, q.notAfter);
    var list :- WriteExtensions(q.isCa);
    var extensions :- WriteExplicit(3, list);
    WriteSequence(version + serial + algorithm + name + validity + name + spki + extensions)
  }

  function BuildCertificate(tbs: seq<u8>, algorithm: seq<u8>, signature: seq<u8>): Written {
    var bits :- WriteBitString(signature);
    WriteSequence(tbs + algorithm + bits)
  }

  /** An algorithm identifier: an object identifier and at most one parameter node. */
  function AlgorithmIdentifier(oid: seq<u8>, parameters: seq<u8>): Written {
    var o :- WriteOid(oid);
    WriteSequence(o + parameters)
  }

  function SubjectPublicKeyInfo(algorithm: seq<u8>, key: seq<u8>): Written {
    var bits :- WriteBitString(key);
    WriteSequence(algorithm + bits)
  }

  // The parser

  /** What is taken as given: UTF-8 validity, and whether the value of an extension other than basicConstraints is well formed. */
  datatype Given = Given(utf8: seq<u8> -> bool, acceptsOther: (seq<u8>, seq<u8>) -> bool)

  datatype Parsed = Parsed(
    version: nat,
    serial: seq<u8>,
    tbsAlgorithm: seq<u8>,
    issuer: seq<u8>,
    notBefore: seq<u8>,
    notAfter: seq<u8>,
    subject: seq<u8>,
    keyAlgorithm: seq<u8>,
    key: seq<u8>,
    certificateAlgorithm: seq<u8>,
    signature: seq<u8>,
    ca: Option<bool>,
    pathLen: Option<u32>,
    rawTbs: seq<u8>,
    rawTbsDer: seq<u8>)

  type ParseResult<T> = Result<T, DerError>

  function FirstEncoded(input: seq<u8>): ParseResult<seq<u8>> {
    if |input| < 2 then Err(ParseFailure)
    else
      var (len, used) :- ParseLen(input[1..]);
      if |input| < 1 + used + len then Err(ParseFailure) else Ok(input[..1 + used + len])
  }

  /** A node of a required tag, and what follows. */
  function Expect(input: seq<u8>, tag: u8): (r: ParseResult<(seq<u8>, seq<u8>)>)
    ensures r.Ok? ==> |r.value.0| + |r.value.1| < |input|
  {
    var (node, rest) :- ParseNode(input);
    if node.tag != tag then Err(ParseFailure) else Ok((node.body, rest))
  }

  /** A node of a required tag with nothing after it. */
  function ExpectOnly(input: seq<u8>, tag: u8): ParseResult<seq<u8>> {
    var (body, rest) :- Expect(input, tag);
    if rest != [] then Err(ParseFailure) else Ok(body)
  }

  /** `parse_der_positive_integer_u32`: at most five bytes, shifted through 32 bits. */
  function SmallInteger(body: seq<u8>): ParseResult<u32> {
    if body == [] || |body| > 5 || body[0] >= 0x80 then Err(ParseFailure)
    else if |body| > 1 && body[0] == 0x00 && body[1] < 0x80 then Err(ParseFailure)
    else Ok(OfBe(body) % 0x1_0000_0000)
  }

  method ParseDerPositiveIntegerU32(body: seq<u8>) returns (r: ParseResult<u32>)
    ensures r == SmallInteger(body)
  {
    hide And;
    if body == [] || |body| > 5 {
      return Err(ParseFailure);
    }
    TopBit(body[0]);
    if And(body[0], 0x80) != 0 {
      return Err(ParseFailure);
    }
    if |body| > 1 && body[0] == 0x00 {
      TopBit(body[1]);
      if And(body[1], 0x80) == 0 {
        return Err(ParseFailure);
      }
    }
    var value: u32 := 0;
    for i := 0 to |body|
      invariant value == OfBe(body[..i]) % 0x1_0000_0000
    {
      assert body[..i + 1][..i] == body[..i];
      ShiftIn(OfBe(body[..i]), body[i]);
      value := 256 * value % 0x1_0000_0000 + body[i];
    }
    assert body[..|body|] == body;
    return Ok(value);
  }

  lemma ShiftIn(x: nat, b: u8)
    ensures 256 * (x % 0x1_0000_0000) % 0x1_0000_0000 + b < 0x1_0000_0000
    ensures (256 * x + b) % 0x1_0000_0000 == 256 * (x % 0x1_0000_0000) % 0x1_0000_0000 + b
  {
    var high, low := x / 0x1_0000_0000, x % 0x1_0000_0000;
    var top, rest := low / 0x100_0000, low % 0x100_0000;
    Arith.QuotientIs(256 * low, 0x1_0000_0000, top, 256 * rest);
    Arith.QuotientIs(256 * x + b, 0x1_0000_0000, 256 * high + top, 256 * rest + b);
  }

  /** The value is exact unless the body has five bytes and does not start with zero. */
  lemma SmallIntegerExactIff(body: seq<u8>)
    requires SmallInteger(body).Ok?
    ensures SmallInteger(body).value == OfBe(body) <==> |body| < 5 || body[0] == 0
  {
    if |body| < 5 {
      FourBytes(body);
    } else {
      TopByte(body);
      Powers256();
      if body[0] == 0 {
        assert OfBe(body) < Power256(4);
      }
    }
  }

  /** Such a body: it spells 2^32 and is read as 0. */
  lemma TopByteDropped()
    ensures SmallInteger([1, 0, 0, 0, 0]) == Ok(0) && OfBe([1, 0, 0, 0, 0]) == 0x1_0000_0000
  {
    var s := [1, 0, 0, 0, 0];
    assert s[..4] == [1, 0, 0, 0] && s[..4][..3] == [1, 0, 0] && s[..4][..3][..2] == [1, 0];
    OneByte([1]);
    assert [1, 0][..1] == [1];
    assert OfBe([1, 0]) == 0x100 && OfBe([1, 0, 0]) == 0x1_0000 && OfBe([1, 0, 0, 0]) == 0x100_0000;
  }

  function BitString(body: seq<u8>): ParseResult<seq<u8>> {
    if body == [] || body[0] != 0 then Err(ParseFailure) else Ok(body[1..])
  }

  function AlgorithmOid(body: seq<u8>): ParseResult<seq<u8>> {
    var (oid, rest) :- Expect(body, 0x06);
    if rest == [] then Ok(oid)
    else
      var (_, tail) :- ParseNode(rest);
      if tail != [] then Err(ParseFailure) else Ok(oid)
  }

  function KeyAlgorithm(spki: seq<u8>): ParseResult<seq<u8>> {
    var (algorithm, rest) :- Expect(spki, 0x30);
    if rest == [] then Err(ParseFailure) else AlgorithmOid(algorithm)
  }

  function Key(spki: seq<u8>): ParseResult<seq<u8>> {
    var (_, rest) :- ParseNode(spki);
    var bits :- ExpectOnly(rest, 0x03);
    BitString(bits)
  }

  function Time(G: Given, node: Node): ParseResult<seq<u8>> {
    if node.tag != 0x17 && node.tag != 0x18 then Err(ParseFailure)
    else if !G.utf8(node.body) then Err(ParseFailure)
    else Ok(node.body)
  }

  function Validity(G: Given, body: seq<u8>): ParseResult<(seq<u8>, seq<u8>)> {
    var (before, rest) :- ParseNode(body);
    var (after, tail) :- ParseNode(rest);
    if tail != [] then Err(ParseFailure)
    else
      var notBefore :- Time(G, before);
      var notAfter :- Time(G, after);
      Ok((notBefore, notAfter))
  }

  function BasicConstraints(octets: seq<u8>): ParseResult<(bool, Option<u32>)> {
    var body :- ExpectOnly(octets, 0x30);
    if body == [] then Ok((false, None))
    else
      var (node, rest) :- ParseNode(body);
      if node.tag == 0x01 then
        if |node.body| != 1 then Err(ParseFailure)
        else
          var pathLen :- PathLen(rest);
          Ok((node.body[0] != 0, pathLen))
      else
        var pathLen :- PathLen(body);
        Ok((false, pathLen))
  }

  function PathLen(cursor: seq<u8>): ParseResult<Option<u32>> {
    if cursor == [] then Ok(None)
    else
      var body :- ExpectOnly(cursor, 0x02);
      var n :- SmallInteger(body);
      Ok(Some(n))
  }

  function OptionalBoolean(input: seq<u8>): (r: ParseResult<seq<u8>>)
    ensures r.Ok? ==> |r.value| <= |input|
  {
    if input == [] then Ok(input)
    else
      var (node, rest) :- ParseNode(input);
      if node.tag != 0x01 then Ok(input)
      else if |node.body| != 1 then Err(ParseFailure)
      else Ok(rest)
  }

  /** What the extension list has said so far. */
  datatype Seen = Seen(ca: Option<bool>, pathLen: Option<u32>)

  /** One extension and the bytes after it. */
  function OneExtension(G: Given, cursor: seq<u8>, seen: Seen): (r: ParseResult<(Seen, seq<u8>)>)
    ensures r.Ok? ==> |r.value.1| < |cursor|
  {
    var (body, rest) :- Expect(cursor, 0x30);
    var (oid, afterOid) :- Expect(body, 0x06);
    var afterCritical :- OptionalBoolean(afterOid);
    var octets :- ExpectOnly(afterCritical, 0x04);
    if oid == BASIC_CONSTRAINTS then
      var (ca, pathLen) :- BasicConstraints(octets);
      Ok((Seen(Some(ca), pathLen), rest))
    else if G.acceptsOther(oid, octets) then Ok((seen, rest))
    else Err(ParseFailure)
  }

  function ExtensionsFrom(G: Given, cursor: seq<u8>, count: nat, seen: Seen): ParseResult<Seen>
    decreases |cursor|
  {
    if cursor == [] then Ok(seen)
    else if count + 1 > MAX_EXTENSIONS then Err(ParseFailure)
    else
      var (seen', rest) :- OneExtension(G, cursor, seen);
      ExtensionsFrom(G, rest, count + 1, seen')
  }

  function ParseExtensions(G: Given, input: seq<u8>): ParseResult<Seen> {
    var body :- ExpectOnly(input, 0x30);
    ExtensionsFrom(G, body, 0, Seen(None, None))
  }

  /** The loop of `parse_extensions`. */
  method ParseExtensionList(G: Given, input: seq<u8>) returns (r: ParseResult<Seen>)
    ensures r == ParseExtensions(G, input)
  {
    hide OneExtension;
    var cursor :- ExpectOnly(input, 0x30);
    var seen, count := Seen(None, None), 0;
    while cursor != []
      invariant ExtensionsFrom(G, cursor, count, seen) == ParseExtensions(G, input)
      decreases |cursor|
    {
      if count + 1 > MAX_EXTENSIONS {
        return Err(ParseFailure);
      }
      var next :- OneExtension(G, cursor, seen);
      count, seen, cursor := count + 1, next.0, next.1;
    }
    return Ok(seen);
  }

  /** Optional unique identifiers are skipped. */
  function SkipUniqueIds(cursor: seq<u8>): ParseResult<seq<u8>>
    decreases |cursor|
  {
    if cursor != [] && (cursor[0] == 0x81 || cursor[0] == 0x82) then
      var (_, rest) :- ParseNode(cursor);
      SkipUniqueIds(rest)
    else Ok(cursor)
  }

  function Version(cursor: seq<u8>): ParseResult<(nat, seq<u8>)> {
    var (first, rest) :- ParseNode(cursor);
    if first.tag != 0xA0 then Ok((1, cursor))
    else
      var body :- ExpectOnly(first.body, 0x02);
      var n :- SmallInteger(body);
      if n > 2 then Err(ParseFailure) else Ok((n as nat + 1, rest))
  }

  /** The fields up to the public key, as found. */
  datatype Tbs = Tbs(version: nat, serial: seq<u8>, algorithm: seq<u8>, issuer: seq<u8>, validity: seq<u8>, subject: seq<u8>,
                     spki: seq<u8>, tail: seq<u8>)

  function TbsFields(body: seq<u8>): ParseResult<Tbs> {
    var (version, c0) :- Version(body);
    var (serial, c1) :- Expect(c0, 0x02);
    var (algorithm, c2) :- Expect(c1, 0x30);
    var (issuer, c3) :- Expect(c2, 0x30);
    var (validity, c4) :- Expect(c3, 0x30);
    var (subject, c5) :- Expect(c4, 0x30);
    var (spki, tail) :- Expect(c5, 0x30);
    Ok(Tbs(version, serial, algorithm, issuer, validity, subject, spki, tail))
  }

  function TbsExtensions(G: Given, tail: seq<u8>): ParseResult<Seen> {
    var rest :- SkipUniqueIds(tail);
    if rest == [] then Ok(Seen(None, None))
    else
      var extensions :- ExpectOnly(rest, 0xA3);
      ParseExtensions(G, extensions)
  }

  function ParseCertificate(G: Given, input: seq<u8>): ParseResult<Parsed> {
    if |input| > MAX_CERTIFICATE then Err(ParseFailure)
    else
      var outer :- ExpectOnly(input, 0x30);
      var rawTbsDer :- FirstEncoded(outer);
      var (rawTbs, afterTbs) :- Expect(outer, 0x30);
      var (algorithm, afterAlgorithm) :- Expect(afterTbs, 0x30);
      var signatureBits :- ExpectOnly(afterAlgorithm, 0x03);
      var tbs :- TbsFields(rawTbs);
      var (notBefore, notAfter) :- Validity(G, tbs.validity);
      var seen :- TbsExtensions(G, tbs.tail);
      var tbsOid :- AlgorithmOid(tbs.algorithm);
      var keyOid :- KeyAlgorithm(tbs.spki);
      var key :- Key(tbs.spki);
      var certificateOid :- AlgorithmOid(algorithm);
      var signature :- BitString(signatureBits);
      Ok(Parsed(tbs.version, tbs.serial, tbsOid, tbs.issuer, notBefore, notAfter, tbs.subject, keyOid, key, certificateOid,
                signature, seen.ca, seen.pathLen, rawTbs, rawTbsDer))
  }

  // Accepted certificates

  /** The signed bytes kept from an accepted certificate are its first element, encoded exactly as the parsed body encodes. */
  lemma SignedBytesArePrefix(G: Given, input: seq<u8>)
    requires ParseCertificate(G, input).Ok?
    ensures var c := ParseCertificate(G, input).value;
            && EncodeNode(0x30, c.rawTbs) == Ok(c.rawTbsDer)
            && exists rest :: EncodeNode(0x30, c.rawTbsDer + rest) == Ok(input)
  {
    hide EncodeNode, ParseNode, FirstEncoded, Expect, ExpectOnly, TbsFields, Validity, TbsExtensions, AlgorithmOid, KeyAlgorithm, Key, BitString;
    var outer := ExpectOnly(input, 0x30).value;
    OnlyIs(input, 0x30);
    var rest := FirstIs(outer, 0x30);
    assert EncodeNode(0x30, FirstEncoded(outer).value + rest) == Ok(input);
  }

  lemma OnlyIs(input: seq<u8>, tag: u8)
    requires ExpectOnly(input, tag).Ok?
    ensures EncodeNode(tag, ExpectOnly(input, tag).value) == Ok(input)
  {
    hide EncodeNode, ParseNode;
    NodeCanonical(input);
    var body := ExpectOnly(input, tag).value;
    assert EncodeNode(tag, body).value + [] == EncodeNode(tag, body).value;
  }

  lemma FirstIs(input: seq<u8>, tag: u8) returns (rest: seq<u8>)
    requires Expect(input, tag).Ok?
    ensures FirstEncoded(input).Ok? && EncodeNode(tag, Expect(input, tag).value.0) == FirstEncoded(input)
    ensures FirstEncoded(input).value + rest == input
  {
    hide EncodeNode, ParseNode, FirstEncoded;
    FirstIsNode(input);
    rest := Expect(input, tag).value.1;
  }

  lemma FirstIsNode(input: seq<u8>)
    requires ParseNode(input).Ok?
    ensures var (node, rest) := ParseNode(input).value;
            FirstEncoded(input).Ok? && EncodeNode(node.tag, node.body) == Ok(FirstEncoded(input).value)
            && FirstEncoded(input).value + rest == input
  {
    hide EncodeNode, ParseLen;
    NodeCanonical(input);
    var (node, rest) := ParseNode(input).value;
    var e := EncodeNode(node.tag, node.body).value;
    assert e == input[..|input| - |rest|];
    assert FirstEncoded(input).value == input[..|input| - |rest|];
  }

  // Printed certificates

  /** An encoded node in front of more bytes. */
  lemma Opens(tag: u8, body: seq<u8>, encoded: seq<u8>, rest: seq<u8>)
    requires EncodeNode(tag, body) == Ok(encoded)
    ensures ParseNode(encoded + rest) == Ok((Node(tag, body), rest))
    ensures Expect(encoded + rest, tag) == Ok((body, rest))
    ensures rest == [] ==> ParseNode(encoded) == Ok((Node(tag, body), [])) && ExpectOnly(encoded, tag) == Ok(body)
  {
    hide EncodeNode, ParseNode;
    NodeRoundTrip(tag, body, rest);
    if rest == [] {
      assert encoded + rest == encoded;
    }
  }

  lemma BitStringOpens(bits: seq<u8>, encoded: seq<u8>)
    requires WriteBitString(bits) == Ok(encoded)
    ensures ExpectOnly(encoded, 0x03) == Ok([0x00] + bits) && BitString([0x00] + bits) == Ok(bits)
  {
    hide EncodeNode, ExpectOnly;
    Opens(0x03, [0x00] + bits, encoded, []);
  }

  /** The parameters of an algorithm identifier: none, or one node. */
  predicate OneNodeAtMost(parameters: seq<u8>) {
    parameters == [] || (ParseNode(parameters).Ok? && ParseNode(parameters).value.1 == [])
  }

  lemma AlgorithmOpens(oid: seq<u8>, parameters: seq<u8>, encoded: seq<u8>)
    requires AlgorithmIdentifier(oid, parameters) == Ok(encoded) && OneNodeAtMost(parameters)
    ensures var body := WriteOid(oid).value + parameters;
            EncodeNode(0x30, body) == Ok(encoded) && AlgorithmOid(body) == Ok(oid)
  {
    hide EncodeNode, ParseNode, Expect;
    Opens(0x06, oid, WriteOid(oid).value, parameters);
  }

  lemma SpkiOpens(oid: seq<u8>, parameters: seq<u8>, key: seq<u8>, algorithm: seq<u8>, encoded: seq<u8>)
    requires AlgorithmIdentifier(oid, parameters) == Ok(algorithm) && OneNodeAtMost(parameters)
    requires SubjectPublicKeyInfo(algorithm, key) == Ok(encoded)
    ensures var body := algorithm + WriteBitString(key).value;
            EncodeNode(0x30, body) == Ok(encoded) && KeyAlgorithm(body) == Ok(oid) && Key(body) == Ok(key)
  {
    hide EncodeNode, ParseNode, Expect, ExpectOnly, AlgorithmOid, BitString, AlgorithmIdentifier, WriteBitString;
    AlgorithmOpens(oid, parameters, algorithm);
    AlgorithmIs(oid, parameters);
    var bits := WriteBitString(key).value;
    Opens(0x30, WriteOid(oid).value + parameters, algorithm, bits);
    BitStringOpens(key, bits);
    NonEmpty(key, bits);
  }

  lemma NonEmpty(bits: seq<u8>, encoded: seq<u8>)
    requires WriteBitString(bits) == Ok(encoded)
    ensures encoded != []
  {
    hide EncodeLen;
  }

  /** Written times are ASCII. */
  ghost predicate AsciiIsUtf8(G: Given) {
    forall s: seq<u8> | IsAscii(s) :: G.utf8(s)
  }

  predicate IsAscii(s: seq<u8>) {
    forall i :: 0 <= i < |s| ==> s[i] < 0x80
  }

  lemma TimeOpens(G: Given, time: seq<u8>, encoded: seq<u8>)
    requires WriteTime(time) == Ok(encoded) && AsciiIsUtf8(G)
    ensures var tag := if |time| == 13 then 0x17 else 0x18;
            EncodeNode(tag, time) == Ok(encoded) && Time(G, Node(tag, time)) == Ok(time)
  {
    hide EncodeNode;
    assert IsAscii(time);
  }

  lemma ValidityOpens(G: Given, notBefore: seq<u8>, notAfter: seq<u8>, encoded: seq<u8>)
    requires WriteValidity(notBefore, notAfter) == Ok(encoded) && AsciiIsUtf8(G)
    ensures var body := WriteTime(notBefore).value + WriteTime(notAfter).value;
            EncodeNode(0x30, body) == Ok(encoded) && Validity(G, body) == Ok((notBefore, notAfter))
  {
    hide EncodeNode, ParseNode, WriteTime, Time, AsciiIsUtf8;
    var before, after := WriteTime(notBefore).value, WriteTime(notAfter).value;
    TimeOpens(G, notBefore, before);
    TimeOpens(G, notAfter, after);
    Opens(if |notBefore| == 13 then 0x17 else 0x18, notBefore, before, after);
    Opens(if |notAfter| == 13 then 0x17 else 0x18, notAfter, after, []);
  }

  lemma BasicConstraintsOpen(isCa: bool)
    ensures var ca := WriteBoolean(isCa); var value := WriteSequence(ca.value);
            ca.Ok? && value.Ok? && |value.value| <= 20 && BasicConstraints(value.value) == Ok((isCa, None))
  {
    hide EncodeNode, ParseNode, Expect, ExpectOnly;
    var byte: u8 := if isCa then 0xFF else 0x00;
    var ca := WriteBoolean(isCa).value;
    Opens(0x01, [byte], ca, []);
    Opens(0x30, ca, WriteSequence(ca).value, []);
  }

  lemma ExtensionOpens(G: Given, isCa: bool)
    ensures WriteBasicConstraints(isCa).Ok? && |WriteBasicConstraints(isCa).value| <= 100
    ensures OneExtension(G, WriteBasicConstraints(isCa).value, Seen(None, None)) == Ok((Seen(Some(isCa), None), []))
  {
    hide EncodeNode, ParseNode, Expect, ExpectOnly, BasicConstraints, WriteSequence, WriteBoolean;
    BasicConstraintsOpen(isCa);
    SizesOf(isCa);
    var oid := WriteOid(BASIC_CONSTRAINTS).value;
    var critical := WriteBoolean(true).value;
    var value := WriteSequence(WriteBoolean(isCa).value).value;
    var octets := EncodeNode(0x04, value).value;
    var body := oid + critical + octets;
    SequenceIs(body);
    PiecesOpen(G, isCa, oid, critical, value, octets, WriteSequence(body).value);
  }

  lemma PiecesOpen(G: Given, isCa: bool, oid: seq<u8>, critical: seq<u8>, value: seq<u8>, octets: seq<u8>, encoded: seq<u8>)
    requires EncodeNode(0x06, BASIC_CONSTRAINTS) == Ok(oid) && WriteBoolean(true) == Ok(critical)
    requires BasicConstraints(value) == Ok((isCa, None)) && EncodeNode(0x04, value) == Ok(octets)
    requires EncodeNode(0x30, oid + critical + octets) == Ok(encoded)
    ensures OneExtension(G, encoded, Seen(None, None)) == Ok((Seen(Some(isCa), None), []))
  {
    hide EncodeNode, ParseNode, Expect, ExpectOnly, BasicConstraints, WriteBoolean, OptionalBoolean;
    var body := oid + critical + octets;
    assert encoded + [] == encoded;
    Opens(0x30, body, encoded, []);
    assert body == oid + (critical + octets);
    Opens(0x06, BASIC_CONSTRAINTS, oid, critical + octets);
    CriticalOpens(critical, octets);
    Opens(0x04, value, octets, []);
  }

  lemma CriticalOpens(critical: seq<u8>, rest: seq<u8>)
    requires WriteBoolean(true) == Ok(critical)
    ensures OptionalBoolean(critical + rest) == Ok(rest)
  {
    hide EncodeNode, ParseNode;
    Opens(0x01, [0xFF], critical, rest);
    if critical + rest == [] {
      ParseNothing();
    }
  }

  lemma ParseNothing()
    ensures ParseNode([]).Err?
  {
  }

  lemma SequenceIs(children: seq<u8>)
    ensures WriteSequence(children) == EncodeNode(0x30, children)
  {
  }

  lemma SizesOf(isCa: bool)
    ensures WriteBoolean(isCa).Ok? && WriteBoolean(true).Ok? && |WriteBoolean(true).value| <= 7
    ensures forall s: seq<u8> | |s| < 100 :: WriteSequence(s).Ok? && |WriteSequence(s).value| <= |s| + 6
  {
    hide EncodeNode;
  }

  lemma ExtensionsOpen(G: Given, isCa: bool)
    ensures WriteExtensions(isCa).Ok? && ParseExtensions(G, WriteExtensions(isCa).value) == Ok(Seen(Some(isCa), None))
  {
    hide EncodeNode, ParseNode, OneExtension, WriteBasicConstraints, ExpectOnly;
    ExtensionOpens(G, isCa);
    var extension := WriteBasicConstraints(isCa).value;
    SequenceIs(extension);
    Opens(0x30, extension, WriteSequence(extension).value, []);
    OneOnly(G, extension, Seen(Some(isCa), None));
  }

  lemma OneOnly(G: Given, extension: seq<u8>, seen: Seen)
    requires OneExtension(G, extension, Seen(None, None)) == Ok((seen, []))
    ensures ExtensionsFrom(G, extension, 0, Seen(None, None)) == Ok(seen)
  {
    hide OneExtension;
    assert ExtensionsFrom(G, [], 1, seen) == Ok(seen);
    if extension == [] {
      NoExtension(G);
    }
  }

  lemma NoExtension(G: Given)
    ensures OneExtension(G, [], Seen(None, None)).Err?
  {
  }

  lemma VersionOpens(rest: seq<u8>)
    ensures WriteInteger([0x02]).Ok? && WriteExplicit(0, WriteInteger([0x02]).value).Ok?
    ensures Version(WriteExplicit(0, WriteInteger([0x02]).value).value + rest) == Ok((3, rest))
  {
    hide EncodeNode, ParseNode, ExpectOnly;
    var two := WriteInteger([0x02]).value;
    assert IntegerBody([0x02]) == [0x02];
    Opens(0x02, [0x02], two, []);
    Opens(0xA0, two, WriteExplicit(0, two).value, rest);
    OneByte([0x02]);
  }

  /** The pieces of a written TBS certificate, in order. */
  lemma TbsOpens(q: Request, oid: seq<u8>, parameters: seq<u8>, algorithm: seq<u8>, spkiBody: seq<u8>, spki: seq<u8>, tbs: seq<u8>)
    returns (body: seq<u8>)
    requires AlgorithmIdentifier(oid, parameters) == Ok(algorithm) && EncodeNode(0x30, spkiBody) == Ok(spki)
    requires BuildTbs(q, algorithm, spki) == Ok(tbs)
    ensures EncodeNode(0x30, body) == Ok(tbs)
    ensures WriteOid(oid).Ok? && q.serial != [] && WriteTime(q.notBefore).Ok? && WriteTime(q.notAfter).Ok?
    ensures WriteExtensions(q.isCa).Ok? && WriteExplicit(3, WriteExtensions(q.isCa).value).Ok?
    ensures TbsFields(body) == Ok(Tbs(3, IntegerBody(q.serial), WriteOid(oid).value + parameters, NameBody(q.commonName),
              WriteTime(q.notBefore).value + WriteTime(q.notAfter).value, NameBody(q.commonName), spkiBody,
              WriteExplicit(3, WriteExtensions(q.isCa).value).value))
  {
    hide EncodeNode, ParseNode, Expect, Version, WriteExplicit, WriteExtensions, WriteTime, WriteOid, WriteInteger, WriteSequence,
      IntegerBody, WriteCommonName, NameBody;
    var two := WriteInteger([0x02]).value;
    var version := WriteExplicit(0, two).value;
    var serial := WriteInteger(q.serial).value;
    var name := WriteCommonName(q.commonName).value;
    var validity := WriteValidity(q.notBefore, q.notAfter).value;
    var extensions := WriteExplicit(3, WriteExtensions(q.isCa).value).value;
    body := version + serial + algorithm + name + validity + name + spki + extensions;
    SequenceIs(body);
    var c5 := spki + extensions;
    var c4 := name + c5;
    var c3 := validity + c4;
    var c2 := name + c3;
    var c1 := algorithm + c2;
    var c0 := serial + c1;
    assert body == version + c0;
    VersionOpens(c0);
    IntegerIs(q.serial);
    Opens(0x02, IntegerBody(q.serial), serial, c1);
    AlgorithmIs(oid, parameters);
    Opens(0x30, WriteOid(oid).value + parameters, algorithm, c2);
    NameIs(q.commonName);
    Opens(0x30, NameBody(q.commonName), name, c3);
    ValidityIs(q.notBefore, q.notAfter);
    Opens(0x30, WriteTime(q.notBefore).value + WriteTime(q.notAfter).value, validity, c4);
    Opens(0x30, NameBody(q.commonName), name, c5);
    Opens(0x30, spkiBody, spki, extensions);
  }

  lemma IntegerIs(value: seq<u8>)
    requires WriteInteger(value).Ok?
    ensures value != [] && EncodeNode(0x02, IntegerBody(value)) == WriteInteger(value)
  {
  }

  lemma AlgorithmIs(oid: seq<u8>, parameters: seq<u8>)
    requires AlgorithmIdentifier(oid, parameters).Ok?
    ensures WriteOid(oid).Ok? && EncodeNode(0x30, WriteOid(oid).value + parameters) == AlgorithmIdentifier(oid, parameters)
  {
  }

  lemma ValidityIs(notBefore: seq<u8>, notAfter: seq<u8>)
    requires WriteValidity(notBefore, notAfter).Ok?
    ensures WriteTime(notBefore).Ok? && WriteTime(notAfter).Ok?
    ensures EncodeNode(0x30, WriteTime(notBefore).value + WriteTime(notAfter).value) == WriteValidity(notBefore, notAfter)
  {
    hide EncodeNode, WriteTime;
  }

  /** The body of a written name: the one attribute set. */
  function NameBody(cn: seq<u8>): seq<u8> {
    var written := WriteCommonName(cn);
    if written.Ok? && ParseNode(written.value).Ok? then ParseNode(written.value).value.0.body else []
  }

  lemma NameIs(cn: seq<u8>)
    requires WriteCommonName(cn).Ok?
    ensures EncodeNode(0x30, NameBody(cn)) == WriteCommonName(cn)
  {
    hide EncodeNode, ParseNode, WriteOid, WriteUtf8;
    var oid := WriteOid([0x55, 0x04, 0x03]).value;
    var value := WriteUtf8(cn).value;
    var rdn := EncodeNode(0x31, WriteSequence(oid + value).value).value;
    Opens(0x30, rdn, WriteCommonName(cn).value, []);
  }

  lemma ExtensionTail(G: Given, isCa: bool)
    requires WriteExplicit(3, WriteExtensions(isCa).value).Ok?
    ensures TbsExtensions(G, WriteExplicit(3, WriteExtensions(isCa).value).value) == Ok(Seen(Some(isCa), None))
  {
    hide EncodeLen, ParseNode, ExpectOnly, WriteExtensions, ParseExtensions;
    ExtensionsOpen(G, isCa);
    var list := WriteExtensions(isCa).value;
    Opens(0xA3, list, WriteExplicit(3, list).value, []);
  }

  /**
   A certificate built for a request, an algorithm, a key and a signature parses to exactly those: version 3,
   the normalised serial, one name for issuer and subject, both times, key, CA flag, signature, and the
   signed bytes byte for byte.
   */
  lemma CertificateRoundTrip(G: Given, q: Request, oid: seq<u8>, parameters: seq<u8>, keyOid: seq<u8>, keyParameters: seq<u8>,
                             key: seq<u8>, signature: seq<u8>, algorithm: seq<u8>, keyAlgorithm: seq<u8>, spki: seq<u8>,
                             tbs: seq<u8>, certificate: seq<u8>)
    requires AsciiIsUtf8(G) && OneNodeAtMost(parameters) && OneNodeAtMost(keyParameters)
    requires AlgorithmIdentifier(oid, parameters) == Ok(algorithm)
    requires AlgorithmIdentifier(keyOid, keyParameters) == Ok(keyAlgorithm)
    requires SubjectPublicKeyInfo(keyAlgorithm, key) == Ok(spki)
    requires BuildTbs(q, algorithm, spki) == Ok(tbs)
    requires BuildCertificate(tbs, algorithm, signature) == Ok(certificate) && |certificate| <= MAX_CERTIFICATE
    ensures ParseCertificate(G, certificate).Ok?
    ensures var c := ParseCertificate(G, certificate).value;
            && c.version == 3 && c.serial == IntegerBody(q.serial)
            && c.issuer == c.subject == NameBody(q.commonName)
            && c.notBefore == q.notBefore && c.notAfter == q.notAfter
            && c.tbsAlgorithm == c.certificateAlgorithm == oid
            && c.keyAlgorithm == keyOid && c.key == key
            && c.ca == Some(q.isCa) && c.pathLen == None
            && c.signature == signature && c.rawTbsDer == tbs
  {
    hide EncodeNode, ParseNode, Expect, ExpectOnly, FirstEncoded, TbsFields, Validity, TbsExtensions, AlgorithmOid, KeyAlgorithm, Key,
      BitString, BuildTbs, AlgorithmIdentifier, WriteBitString, IntegerBody, NameBody, WriteTime, WriteOid, WriteExplicit,
      WriteExtensions, AsciiIsUtf8, OneNodeAtMost;
    var bits := WriteBitString(signature).value;
    var children := tbs + algorithm + bits;
    Opens(0x30, children, certificate, []);
    AlgorithmOpens(oid, parameters, algorithm);
    SpkiOpens(keyOid, keyParameters, key, keyAlgorithm, spki);
    var spkiBody := keyAlgorithm + WriteBitString(key).value;
    var body := TbsOpens(q, oid, parameters, algorithm, spkiBody, spki, tbs);
    assert children == tbs + (algorithm + bits);
    Opens(0x30, body, tbs, algorithm + bits);
    FirstOpens(0x30, body, tbs, algorithm + bits);
    Opens(0x30, WriteOid(oid).value + parameters, algorithm, bits);
    BitStringOpens(signature, bits);
    TbsParts(q, algorithm, spki);
    ValidityOpens(G, q.notBefore, q.notAfter, WriteValidity(q.notBefore, q.notAfter).value);
    ExtensionTail(G, q.isCa);
  }

  lemma FirstOpens(tag: u8, body: seq<u8>, encoded: seq<u8>, rest: seq<u8>)
    requires EncodeNode(tag, body) == Ok(encoded)
    ensures FirstEncoded(encoded + rest) == Ok(encoded)
  {
    hide EncodeNode, ParseNode, FirstEncoded;
    Opens(tag, body, encoded, rest);
    FirstIsNode(encoded + rest);
  }

  lemma TbsParts(q: Request, algorithm: seq<u8>, spki: seq<u8>)
    requires BuildTbs(q, algorithm, spki).Ok?
    ensures q.serial != [] && WriteValidity(q.notBefore, q.notAfter).Ok? && WriteExtensions(q.isCa).Ok?
    ensures WriteExplicit(3, WriteExtensions(q.isCa).value).Ok?
  {
    hide EncodeNode, WriteValidity, WriteExtensions, WriteCommonName;
  }
}
