/** Which byte strings are certificates, and where each parsed field stands in them. */
module CertificateLayout {
  import opened Words
  import opened Wrappers
  import opened Der
  import opened CertificateDer
  import opened CertificateExtensions

  /** The bodies of the fields of a TBS certificate, in order; the version is the body of its integer. */
  datatype Layout = Layout(version: Option<seq<u8>>, serial: seq<u8>, algorithm: seq<u8>, issuer: seq<u8>, validity: seq<u8>,
                           subject: seq<u8>, spki: seq<u8>, tail: seq<u8>)

  function VersionBytes(version: Option<seq<u8>>): Written {
    if version == None then Ok([])
    else
      var integer :- EncodeNode(0x02, version.value);
      EncodeNode(0xA0, integer)
  }

  function LayoutBytes(l: Layout): Written {
    var version :- VersionBytes(l.version);
    var serial :- EncodeNode(0x02, l.serial);
    var algorithm :- EncodeNode(0x30, l.algorithm);
    var issuer :- EncodeNode(0x30, l.issuer);
    var validity :- EncodeNode(0x30, l.validity);
    var subject :- EncodeNode(0x30, l.subject);
    var spki :- EncodeNode(0x30, l.spki);
    Ok(version + (serial + (algorithm + (issuer + (validity + (subject + (spki + l.tail)))))))
  }

  /** Absent, version 1; otherwise one more than an integer of at most 2. */
  predicate VersionMeans(version: Option<seq<u8>>, v: nat) {
    if version == None then v == 1 else 1 <= v <= 3 && SmallInteger(version.value) == Ok(v - 1)
  }

  predicate Holds(l: Layout, t: Tbs) {
    && VersionMeans(l.version, t.version)
    && t.serial == l.serial && t.algorithm == l.algorithm && t.issuer == l.issuer && t.validity == l.validity
    && t.subject == l.subject && t.spki == l.spki && t.tail == l.tail
  }

  lemma VersionReads(version: Option<seq<u8>>, serial: seq<u8>, rest: seq<u8>, v: nat)
    requires VersionBytes(version).Ok? && EncodeNode(0x02, serial).Ok?
    ensures var r := Version(VersionBytes(version).value + (EncodeNode(0x02, serial).value + rest));
            VersionMeans(version, v) <==> r == Ok((v, EncodeNode(0x02, serial).value + rest))
  {
    hide EncodeNode, ParseNode, SmallInteger;
    var field := EncodeNode(0x02, serial).value;
    Opens(0x02, serial, field, rest);
    if version == None {
      assert VersionBytes(version).value + (field + rest) == field + rest;
    } else {
      var integer := EncodeNode(0x02, version.value).value;
      Opens(0x02, version.value, integer, []);
      Opens(0xA0, integer, VersionBytes(version).value, field + rest);
    }
  }

  /** A TBS body is read field by field. */
  lemma FieldsRead(l: Layout, t: Tbs)
    requires LayoutBytes(l).Ok?
    ensures TbsFields(LayoutBytes(l).value) == Ok(t) <==> Holds(l, t)
  {
    hide EncodeNode, ParseNode, Expect, Version, VersionMeans, VersionBytes;
    var c5 := EncodeNode(0x30, l.spki).value + l.tail;
    var c4 := EncodeNode(0x30, l.subject).value + c5;
    var c3 := EncodeNode(0x30, l.validity).value + c4;
    var c2 := EncodeNode(0x30, l.issuer).value + c3;
    var c1 := EncodeNode(0x30, l.algorithm).value + c2;
    Opens(0x02, l.serial, EncodeNode(0x02, l.serial).value, c1);
    Opens(0x30, l.algorithm, EncodeNode(0x30, l.algorithm).value, c2);
    Opens(0x30, l.issuer, EncodeNode(0x30, l.issuer).value, c3);
    Opens(0x30, l.validity, EncodeNode(0x30, l.validity).value, c4);
    Opens(0x30, l.subject, EncodeNode(0x30, l.subject).value, c5);
    Opens(0x30, l.spki, EncodeNode(0x30, l.spki).value, l.tail);
    var body := LayoutBytes(l).value;
    assert body == VersionBytes(l.version).value + (EncodeNode(0x02, l.serial).value + c1);
    if TbsFields(body) == Ok(t) {
      var (v, c0) := Version(body).value;
      VersionLeaves(body);
      VersionReads(l.version, l.serial, c1, v);
      ReadVersion(l.version, EncodeNode(0x02, l.serial).value + c1, l.serial, c1);
    }
    if Holds(l, t) {
      VersionReads(l.version, l.serial, c1, t.version);
    }
  }

  /** Whatever version is read, it is the field in front and leaves what follows. */
  lemma ReadVersion(version: Option<seq<u8>>, after: seq<u8>, serial: seq<u8>, rest: seq<u8>)
    requires VersionBytes(version).Ok? && EncodeNode(0x02, serial).Ok? && after == EncodeNode(0x02, serial).value + rest
    ensures var r := Version(VersionBytes(version).value + after); r.Ok? ==> r.value.1 == after && VersionMeans(version, r.value.0)
  {
    hide EncodeNode, ParseNode, SmallInteger, VersionMeans;
    var r := Version(VersionBytes(version).value + after);
    Opens(0x02, serial, EncodeNode(0x02, serial).value, rest);
    if version == None {
      assert VersionBytes(version).value + after == after;
    } else {
      var integer := EncodeNode(0x02, version.value).value;
      Opens(0x02, version.value, integer, []);
      Opens(0xA0, integer, VersionBytes(version).value, after);
    }
    if r.Ok? {
      VersionReads(version, serial, rest, r.value.0);
    }
  }

  lemma VersionLeaves(body: seq<u8>)
    ensures Version(body).Ok? ==> 1 <= Version(body).value.0 <= 3
  {
    hide ParseNode, SmallInteger, ExpectOnly;
  }

  /** And whatever is read has that form. */
  lemma FieldsAre(body: seq<u8>) returns (l: Layout)
    requires TbsFields(body).Ok?
    ensures LayoutBytes(l) == Ok(body) && Holds(l, TbsFields(body).value)
  {
    hide EncodeNode, ParseNode, Expect, Version, VersionBytes;
    var t := TbsFields(body).value;
    var c0 := Version(body).value.1;
    var version := VersionIs(body);
    var c1 := NodeAt(c0, 0x02);
    var c2 := NodeAt(c1, 0x30);
    var c3 := NodeAt(c2, 0x30);
    var c4 := NodeAt(c3, 0x30);
    var c5 := NodeAt(c4, 0x30);
    var tail := NodeAt(c5, 0x30);
    l := Layout(version, t.serial, t.algorithm, t.issuer, t.validity, t.subject, t.spki, t.tail);
  }

  lemma NodeAt(input: seq<u8>, tag: u8) returns (rest: seq<u8>)
    requires Expect(input, tag).Ok?
    ensures rest == Expect(input, tag).value.1
    ensures EncodeNode(tag, Expect(input, tag).value.0).Ok? && input == EncodeNode(tag, Expect(input, tag).value.0).value + rest
  {
    hide EncodeNode, ParseNode;
    NodeCanonical(input);
    rest := Expect(input, tag).value.1;
  }

  lemma VersionIs(body: seq<u8>) returns (version: Option<seq<u8>>)
    requires Version(body).Ok?
    ensures VersionBytes(version).Ok? && body == VersionBytes(version).value + Version(body).value.1
    ensures VersionMeans(version, Version(body).value.0)
  {
    hide EncodeNode, ParseNode, SmallInteger, ExpectOnly;
    NodeCanonical(body);
    var (first, rest) := ParseNode(body).value;
    if first.tag == 0xA0 {
      OnlyIs(first.body, 0x02);
      version := Some(ExpectOnly(first.body, 0x02).value);
    } else {
      version := None;
      assert body == [] + body;
    }
  }

  // The parts of fields

  /** Two times, each UTCTime or GeneralizedTime in valid UTF-8. */
  predicate IsTime(G: Given, tag: u8, time: seq<u8>) {
    (tag == 0x17 || tag == 0x18) && EncodeNode(tag, time).Ok? && G.utf8(time)
  }

  lemma ValidityIff(G: Given, body: seq<u8>, from: seq<u8>, until: seq<u8>)
    ensures Validity(G, body) == Ok((from, until)) <==>
              exists t: u8, u: u8 :: IsTime(G, t, from) && IsTime(G, u, until) && body == EncodeNode(t, from).value + EncodeNode(u, until).value
  {
    hide EncodeNode, ParseNode;
    if Validity(G, body) == Ok((from, until)) {
      NodeCanonical(body);
      var (before, rest) := ParseNode(body).value;
      NodeCanonical(rest);
      var after := ParseNode(rest).value.0;
      assert EncodeNode(after.tag, after.body).value + [] == rest;
      assert IsTime(G, before.tag, from) && IsTime(G, after.tag, until);
    }
    forall t: u8, u: u8 | IsTime(G, t, from) && IsTime(G, u, until) && body == EncodeNode(t, from).value + EncodeNode(u, until).value
      ensures Validity(G, body) == Ok((from, until))
    {
      Opens(t, from, EncodeNode(t, from).value, EncodeNode(u, until).value);
      Opens(u, until, EncodeNode(u, until).value, []);
    }
  }

  /** An algorithm: its object identifier and at most one parameter node. */
  lemma AlgorithmIff(body: seq<u8>, oid: seq<u8>)
    ensures AlgorithmOid(body) == Ok(oid) <==>
              EncodeNode(0x06, oid).Ok? && exists parameters :: OneNodeAtMost(parameters) && body == EncodeNode(0x06, oid).value + parameters
  {
    hide EncodeNode, ParseNode;
    if AlgorithmOid(body) == Ok(oid) {
      NodeCanonical(body);
      assert OneNodeAtMost(Expect(body, 0x06).value.1);
    }
    if EncodeNode(0x06, oid).Ok? {
      forall parameters | OneNodeAtMost(parameters) && body == EncodeNode(0x06, oid).value + parameters ensures AlgorithmOid(body) == Ok(oid) {
        Opens(0x06, oid, EncodeNode(0x06, oid).value, parameters);
      }
    }
  }

  /** A key: its algorithm, then the bits of the key as a BIT STRING without unused bits. */
  lemma KeyIff(spki: seq<u8>, oid: seq<u8>, key: seq<u8>)
    ensures KeyAlgorithm(spki) == Ok(oid) && Key(spki) == Ok(key) <==>
              exists algorithm :: AlgorithmOid(algorithm) == Ok(oid) && IsKey(spki, algorithm, key)
  {
    hide EncodeNode, ParseNode, AlgorithmOid;
    if KeyAlgorithm(spki) == Ok(oid) && Key(spki) == Ok(key) {
      NodeCanonical(spki);
      var (algorithm, rest) := Expect(spki, 0x30).value;
      OnlyIs(rest, 0x03);
      var bits := ExpectOnly(rest, 0x03).value;
      assert bits == [0x00] + key;
      assert IsKey(spki, algorithm, key);
    }
    forall algorithm | AlgorithmOid(algorithm) == Ok(oid) && IsKey(spki, algorithm, key)
      ensures KeyAlgorithm(spki) == Ok(oid) && Key(spki) == Ok(key)
    {
      var bits := EncodeNode(0x03, [0x00] + key).value;
      Opens(0x30, algorithm, EncodeNode(0x30, algorithm).value, bits);
      Opens(0x03, [0x00] + key, bits, []);
      SomeBytes(0x03, [0x00] + key, bits);
    }
  }

  predicate IsKey(spki: seq<u8>, algorithm: seq<u8>, key: seq<u8>) {
    && EncodeNode(0x30, algorithm).Ok? && EncodeNode(0x03, [0x00] + key).Ok?
    && spki == EncodeNode(0x30, algorithm).value + EncodeNode(0x03, [0x00] + key).value
  }

  /** Unique identifiers: nodes of tag 0x81 or 0x82. */
  predicate UniqueIds(ids: seq<Node>) {
    forall i :: 0 <= i < |ids| ==> (ids[i].tag == 0x81 || ids[i].tag == 0x82) && EncodeNode(ids[i].tag, ids[i].body).Ok?
  }

  function IdBytes(ids: seq<Node>): seq<u8>
    requires UniqueIds(ids)
  {
    if ids == [] then [] else EncodeNode(ids[0].tag, ids[0].body).value + IdBytes(ids[1..])
  }

  lemma {:induction false} IdsSkipped(ids: seq<Node>, rest: seq<u8>)
    requires UniqueIds(ids) && (rest != [] ==> rest[0] != 0x81 && rest[0] != 0x82)
    ensures SkipUniqueIds(IdBytes(ids) + rest) == Ok(rest)
  {
    hide EncodeNode, ParseNode;
    if ids == [] {
      assert IdBytes(ids) + rest == rest;
    } else {
      var first := EncodeNode(ids[0].tag, ids[0].body).value;
      IdsSkipped(ids[1..], rest);
      assert IdBytes(ids) + rest == first + (IdBytes(ids[1..]) + rest);
      Opens(ids[0].tag, ids[0].body, first, IdBytes(ids[1..]) + rest);
      SomeBytes(ids[0].tag, ids[0].body, first);
    }
  }

  lemma {:induction false} SkippedIs(tail: seq<u8>) returns (ids: seq<Node>)
    requires SkipUniqueIds(tail).Ok?
    ensures UniqueIds(ids) && tail == IdBytes(ids) + SkipUniqueIds(tail).value
    ensures var rest := SkipUniqueIds(tail).value; rest != [] ==> rest[0] != 0x81 && rest[0] != 0x82
    decreases |tail|
  {
    hide EncodeNode, ParseNode;
    ids := [];
    if tail != [] && (tail[0] == 0x81 || tail[0] == 0x82) {
      NodeCanonical(tail);
      var (node, rest) := ParseNode(tail).value;
      SomeBytes(node.tag, node.body, EncodeNode(node.tag, node.body).value);
      var others := SkippedIs(rest);
      ids := [node] + others;
      assert ids[1..] == others;
    }
  }

  /** What the end of a TBS certificate may be: unique identifiers, then nothing or one tagged extension list. */
  ghost predicate TailSays(G: Given, tail: seq<u8>, seen: Seen) {
    exists ids: seq<Node> :: UniqueIds(ids) && TailAfter(G, ids, tail, seen)
  }

  ghost predicate TailAfter(G: Given, ids: seq<Node>, tail: seq<u8>, seen: Seen)
    requires UniqueIds(ids)
  {
    || (tail == IdBytes(ids) && seen == Seen(None, None))
    || (exists es: seq<Extension>, list: seq<u8> ::
          ListFor(G, es, list) && Says(es, Seen(None, None), seen) && EncodeNode(0xA3, list).Ok? && tail == IdBytes(ids) + EncodeNode(0xA3, list).value)
  }

  lemma TailIff(G: Given, tail: seq<u8>, seen: Seen)
    ensures TbsExtensions(G, tail) == Ok(seen) <==> TailSays(G, tail, seen)
  {
    hide EncodeNode, ParseNode, ParseExtensions, ListFor, Says, SkipUniqueIds, ExpectOnly;
    if TbsExtensions(G, tail) == Ok(seen) {
      var ids := SkippedIs(tail);
      var rest := SkipUniqueIds(tail).value;
      if rest == [] {
        assert tail == IdBytes(ids);
      } else {
        var list := ExpectOnly(rest, 0xA3).value;
        OnlyIs(rest, 0xA3);
        ExtensionsIff(G, list, seen);
        var es: seq<Extension> :| ListFor(G, es, list) && Says(es, Seen(None, None), seen);
      }
      assert TailAfter(G, ids, tail, seen);
    }
    if TailSays(G, tail, seen) {
      var ids: seq<Node> :| UniqueIds(ids) && TailAfter(G, ids, tail, seen);
      if tail == IdBytes(ids) && seen == Seen(None, None) {
        IdsSkipped(ids, []);
        assert IdBytes(ids) + [] == tail;
      } else {
        var es: seq<Extension>, list: seq<u8> :|
          ListFor(G, es, list) && Says(es, Seen(None, None), seen) && EncodeNode(0xA3, list).Ok? && tail == IdBytes(ids) + EncodeNode(0xA3, list).value;
        var rest := EncodeNode(0xA3, list).value;
        SomeBytes(0xA3, list, rest);
        IdsSkipped(ids, rest);
        Opens(0xA3, list, rest, []);
        ExtensionsIff(G, list, seen);
      }
    }
  }

  // Whole certificates

  /** The three elements of a certificate, as encoded. */
  function Wrapped(l: Layout, algorithm: seq<u8>, signature: seq<u8>): Written {
    var body :- LayoutBytes(l);
    var tbs :- EncodeNode(0x30, body);
    var identifier :- EncodeNode(0x30, algorithm);
    var bits :- EncodeNode(0x03, [0x00] + signature);
    EncodeNode(0x30, tbs + (identifier + bits))
  }

  /** The fields of a parsed certificate, each from its place. */
  ghost predicate Fields(G: Given, l: Layout, algorithm: seq<u8>, c: Parsed) {
    && VersionMeans(l.version, c.version) && c.serial == l.serial && c.issuer == l.issuer && c.subject == l.subject
    && AlgorithmOid(l.algorithm) == Ok(c.tbsAlgorithm) && AlgorithmOid(algorithm) == Ok(c.certificateAlgorithm)
    && Validity(G, l.validity) == Ok((c.notBefore, c.notAfter))
    && KeyAlgorithm(l.spki) == Ok(c.keyAlgorithm) && Key(l.spki) == Ok(c.key)
    && TailSays(G, l.tail, Seen(c.ca, c.pathLen))
    && LayoutBytes(l) == Ok(c.rawTbs) && EncodeNode(0x30, c.rawTbs) == Ok(c.rawTbsDer)
  }

  /** A well-formed certificate of at most 2^20 bytes parses to its fields. */
  lemma CertificateReads(G: Given, l: Layout, algorithm: seq<u8>, input: seq<u8>, c: Parsed)
    requires Wrapped(l, algorithm, c.signature) == Ok(input) && |input| <= 0x10_0000 && Fields(G, l, algorithm, c)
    ensures ParseCertificate(G, input) == Ok(c)
  {
    hide EncodeNode, ParseNode, Expect, ExpectOnly, FirstEncoded, TbsFields, Validity, TbsExtensions, AlgorithmOid, KeyAlgorithm, Key,
      LayoutBytes, TailSays, VersionMeans;
    var body := LayoutBytes(l).value;
    var tbs := EncodeNode(0x30, body).value;
    var identifier := EncodeNode(0x30, algorithm).value;
    var bits := EncodeNode(0x03, [0x00] + c.signature).value;
    Opens(0x30, tbs + (identifier + bits), input, []);
    FirstOpens(0x30, body, tbs, identifier + bits);
    Opens(0x30, body, tbs, identifier + bits);
    Opens(0x30, algorithm, identifier, bits);
    Opens(0x03, [0x00] + c.signature, bits, []);
    FieldsRead(l, Tbs(c.version, l.serial, l.algorithm, l.issuer, l.validity, l.subject, l.spki, l.tail));
    TailIff(G, l.tail, Seen(c.ca, c.pathLen));
  }

  /** Every accepted certificate is one of those. */
  lemma CertificateIs(G: Given, input: seq<u8>) returns (l: Layout, algorithm: seq<u8>)
    requires ParseCertificate(G, input).Ok?
    ensures var c := ParseCertificate(G, input).value;
            |input| <= 0x10_0000 && Wrapped(l, algorithm, c.signature) == Ok(input) && Fields(G, l, algorithm, c)
  {
    hide EncodeNode, ParseNode, Expect, ExpectOnly, FirstEncoded, TbsFields, Validity, TbsExtensions, AlgorithmOid, KeyAlgorithm, Key,
      LayoutBytes, TailSays, VersionMeans;
    var c := ParseCertificate(G, input).value;
    var outer := ExpectOnly(input, 0x30).value;
    OnlyIs(input, 0x30);
    var afterTbs := NodeAt(outer, 0x30);
    var afterAlgorithm := NodeAt(afterTbs, 0x30);
    OnlyIs(afterAlgorithm, 0x03);
    algorithm := Expect(afterTbs, 0x30).value.0;
    l := FieldsAre(c.rawTbs);
    TailIff(G, l.tail, Seen(c.ca, c.pathLen));
    var bits := ExpectOnly(afterAlgorithm, 0x03).value;
    assert bits == [0x00] + c.signature;
    SignedBytesArePrefix(G, input);
    var times := Validity(G, l.validity).value;
    assert times == (times.0, times.1);
  }

  // What the writers write

  /** A written name: one attribute, the common name (object identifier 2.5.4.3), as a UTF8String. */
  lemma NameBodyIs(cn: seq<u8>)
    requires WriteCommonName(cn).Ok?
    ensures EncodeNode(0x06, [0x55, 0x04, 0x03]).Ok? && EncodeNode(0x0C, cn).Ok?
    ensures var attribute := EncodeNode(0x30, EncodeNode(0x06, [0x55, 0x04, 0x03]).value + EncodeNode(0x0C, cn).value);
            attribute.Ok? && EncodeNode(0x31, attribute.value) == Ok(NameBody(cn))
  {
    hide EncodeNode, ParseNode;
    NameIs(cn);
    var oid := WriteOid([0x55, 0x04, 0x03]).value;
    var rdn := EncodeNode(0x31, WriteSequence(oid + WriteUtf8(cn).value).value).value;
    Opens(0x30, rdn, WriteCommonName(cn).value, []);
  }

  /** Written extensions: basicConstraints alone (object identifier 2.5.29.19), critical, with the flag as its value. */
  lemma ExtensionsWritten(isCa: bool)
    ensures WriteExtension(Extension([0x55, 0x1D, 0x13], Some(0xFF), ConstraintsBytes(Some(if isCa then 0xFF else 0x00), None).value)).Ok?
    ensures ConstraintsBytes(Some(if isCa then 0xFF else 0x00), None).Ok?
    ensures WriteExtensions(isCa)
         == EncodeNode(0x30, WriteExtension(Extension([0x55, 0x1D, 0x13], Some(0xFF), ConstraintsBytes(Some(if isCa then 0xFF else 0x00), None).value)).value)
  {
    hide EncodeNode;
    ExtensionOpensAny(isCa);
    var flag := WriteBoolean(isCa).value;
    assert flag + [] == flag;
    var (oid, critical) := (WriteOid(BASIC_CONSTRAINTS).value, WriteBoolean(true).value);
    var octets := EncodeNode(0x04, WriteSequence(flag).value).value;
    assert oid + critical + octets == oid + (critical + octets);
  }

  lemma ExtensionOpensAny(isCa: bool)
    ensures WriteBasicConstraints(isCa).Ok?
  {
    hide EncodeNode;
    ExtensionOpens(Given(_ => true, (_, _) => true), isCa);
  }

  /**
   An accepted certificate whose extension list ends its basicConstraints with this flag and count says exactly
   that: an authority or not, and the path length.
   */
  lemma AuthorityIsRead(G: Given, l: Layout, algorithm: seq<u8>, signature: seq<u8>, input: seq<u8>, es: seq<Extension>, list: seq<u8>,
                        k: nat, flag: Option<u8>, count: Option<seq<u8>>, ca: bool, pathLen: Option<u32>)
    requires Wrapped(l, algorithm, signature) == Ok(input) && ParseCertificate(G, input).Ok?
    requires ListFor(G, es, list) && EncodeNode(0xA3, list) == Ok(l.tail)
    requires LastConstraints(es, k) && ConstraintsBytes(flag, count) == Ok(es[k].value) && Means(flag, count, ca, pathLen)
    ensures ParseCertificate(G, input).value.ca == Some(ca) && ParseCertificate(G, input).value.pathLen == pathLen
  {
    hide EncodeNode, ParseNode, Expect, ExpectOnly, FirstEncoded, TbsFields, Validity, TbsExtensions, AlgorithmOid, KeyAlgorithm, Key,
      LayoutBytes, ListFor, ConstraintsBytes, Means, BasicConstraints, VersionMeans, BitString;
    var body := LayoutBytes(l).value;
    var tbs := EncodeNode(0x30, body).value;
    var (identifier, bits) := (EncodeNode(0x30, algorithm).value, EncodeNode(0x03, [0x00] + signature).value);
    Opens(0x30, tbs + (identifier + bits), input, []);
    Opens(0x30, body, tbs, identifier + bits);
    FieldsRead(l, TbsFields(body).value);
    ConstraintsRead(flag, count, es[k].value, ca, pathLen);
    var seen := Seen(Some(ca), pathLen);
    assert Reads(es[k], seen);
    assert LastReads(es, seen) && !NoConstraints(es);
    TailReads(G, es, list, l.tail, seen);
  }

  lemma TailReads(G: Given, es: seq<Extension>, list: seq<u8>, tail: seq<u8>, seen: Seen)
    requires ListFor(G, es, list) && EncodeNode(0xA3, list) == Ok(tail) && Says(es, Seen(None, None), seen)
    ensures TbsExtensions(G, tail) == Ok(seen)
  {
    hide EncodeNode, ListFor, Says, TbsExtensions;
    assert UniqueIds([]) && IdBytes([]) == [];
    assert tail == IdBytes([]) + tail;
    assert TailAfter(G, [], tail, seen);
    TailIff(G, tail, seen);
  }

  lemma NameWrites(cn: seq<u8>)
    requires |cn| < 0x1000_0000
    ensures WriteCommonName(cn).Ok? <==> cn != []
    ensures WriteCommonName(cn).Ok? ==> |WriteCommonName(cn).value| <= |cn| + 40
  {
    hide EncodeNode;
  }

  lemma ValidityWrites(from: seq<u8>, until: seq<u8>)
    ensures WriteValidity(from, until).Ok? <==> IsDerTime(from) && IsDerTime(until)
    ensures WriteValidity(from, until).Ok? ==> |WriteValidity(from, until).value| <= 60
  {
    hide EncodeNode;
  }

  lemma ExtensionsWrite(isCa: bool)
    ensures WriteExtensions(isCa).Ok? && |WriteExtensions(isCa).value| <= 110
  {
    hide EncodeNode, WriteBasicConstraints;
    ExtensionOpens(Given(_ => true, (_, _) => true), isCa);
  }

  lemma IntegerWrites(value: seq<u8>)
    requires |value| < 0x1000_0000
    ensures WriteInteger(value).Ok? <==> value != []
    ensures WriteInteger(value).Ok? ==> |WriteInteger(value).value| <= |value| + 7
  {
    hide EncodeNode, IntegerBody;
  }

  lemma SmallNode(tag: u8, body: seq<u8>)
    requires |body| < 0x1_0000_0000
    ensures EncodeNode(tag, body).Ok? && |EncodeNode(tag, body).value| <= |body| + 6
  {
    hide EncodeLen;
  }

  /** A certificate body can be built exactly when the serial and the name are not empty, both times have a DER form, and it all fits. */
  lemma BuildsIff(q: Request, algorithm: seq<u8>, spki: seq<u8>)
    requires |q.serial| + |q.commonName| + |algorithm| + |spki| < 0x1000_0000
    ensures BuildTbs(q, algorithm, spki).Ok? <==> q.serial != [] && q.commonName != [] && IsDerTime(q.notBefore) && IsDerTime(q.notAfter)
  {
    hide EncodeNode, WriteInteger, WriteCommonName, WriteValidity, WriteExtensions, IsDerTime;
    IntegerWrites([0x02]);
    SmallNode(0xA0, WriteInteger([0x02]).value);
    IntegerWrites(q.serial);
    NameWrites(q.commonName);
    ValidityWrites(q.notBefore, q.notAfter);
    ExtensionsWrite(q.isCa);
    SmallNode(0xA3, WriteExtensions(q.isCa).value);
  }

  /** Thirteen or fifteen bytes: digits, then Z. */
  predicate IsDerTime(time: seq<u8>) {
    (|time| == 13 || |time| == 15) && time[|time| - 1] == 0x5A && forall i :: 0 <= i < |time| - 1 ==> 0x30 <= time[i] <= 0x39
  }
}
