/** The grammar of extension lists: what is accepted, and what the certificate says afterwards about being an authority. */
module CertificateExtensions {
  import opened Words
  import opened Wrappers
  import opened Bytes
  import opened Der
  import opened CertificateDer

  // basicConstraints

  function Flag(flag: Option<u8>): Written {
    if flag.Some? then EncodeNode(0x01, [flag.value]) else Ok([])
  }

  function Count(count: Option<seq<u8>>): Written {
    if count.Some? then EncodeNode(0x02, count.value) else Ok([])
  }

  /** A value of the extension: an optional boolean byte and an optional integer body. */
  function ConstraintsBytes(flag: Option<u8>, count: Option<seq<u8>>): Written {
    var f :- Flag(flag);
    var c :- Count(count);
    EncodeNode(0x30, f + c)
  }

  /** What such a value means: an authority when the boolean is there and not zero, and the integer as the path length. */
  predicate Means(flag: Option<u8>, count: Option<seq<u8>>, ca: bool, pathLen: Option<u32>) {
    && ca == (flag.Some? && flag.value != 0)
    && (pathLen.Some? <==> count.Some?)
    && (count.Some? ==> SmallInteger(count.value) == Ok(pathLen.value))
  }

  /** Every such value reads as what it means. */
  lemma ConstraintsRead(flag: Option<u8>, count: Option<seq<u8>>, octets: seq<u8>, ca: bool, pathLen: Option<u32>)
    requires ConstraintsBytes(flag, count) == Ok(octets) && Means(flag, count, ca, pathLen)
    ensures BasicConstraints(octets) == Ok((ca, pathLen))
  {
    hide EncodeNode, ParseNode, Expect, ExpectOnly, SmallInteger;
    var (f, c) := (Flag(flag).value, Count(count).value);
    Opens(0x30, f + c, octets, []);
    if count.Some? {
      Opens(0x02, count.value, c, []);
    }
    if flag.Some? {
      Opens(0x01, [flag.value], f, c);
      SomeBytes(0x01, [flag.value], f);
    } else if count.Some? {
      assert f + c == c;
      SomeBytes(0x02, count.value, c);
    }
  }

  lemma SomeBytes(tag: u8, body: seq<u8>, encoded: seq<u8>)
    requires EncodeNode(tag, body) == Ok(encoded)
    ensures encoded != [] && encoded[0] == tag
  {
    hide EncodeLen;
  }

  /** And nothing else is accepted. */
  lemma ConstraintsAre(octets: seq<u8>) returns (flag: Option<u8>, count: Option<seq<u8>>)
    requires BasicConstraints(octets).Ok?
    ensures ConstraintsBytes(flag, count) == Ok(octets)
    ensures Means(flag, count, BasicConstraints(octets).value.0, BasicConstraints(octets).value.1)
  {
    hide EncodeNode, ParseNode, SmallInteger, ExpectOnly;
    var body := ExpectOnly(octets, 0x30).value;
    OnlyIs(octets, 0x30);
    flag, count := None, None;
    var cursor := body;
    if body != [] {
      NodeCanonical(body);
      var (node, rest) := ParseNode(body).value;
      if node.tag == 0x01 {
        flag, cursor := Some(node.body[0]), rest;
        assert node.body == [node.body[0]];
      }
      if cursor != [] {
        OnlyIs(cursor, 0x02);
        count := Some(ExpectOnly(cursor, 0x02).value);
      }
    }
    assert body == Flag(flag).value + Count(count).value by {
      assert [] + cursor == cursor && body + [] == body;
    }
  }

  /** A number written as a minimal integer is read back, whatever bytes spell it. */
  lemma SmallIntegerReads(value: seq<u8>)
    requires value != [] && OfBe(value) < 0x1_0000_0000
    ensures SmallInteger(IntegerBody(value)) == Ok(OfBe(value))
  {
    hide IntegerBody, OfBe;
    var body := IntegerBody(value);
    IntegerBodyIs(value, body);
    if |body| > 5 {
      WiderThanFour(body);
    }
  }

  lemma WiderThanFour(body: seq<u8>)
    requires MinimalInteger(body) && |body| > 5
    ensures OfBe(body) >= 0x1_0000_0000
  {
    hide OfBe;
    Powers256();
    var limit := [0x01, 0x00, 0x00, 0x00, 0x00];
    TopByteDropped();
    LongerIsLarger(limit, body);
  }

  /** An authority flag and a path length, as issuing certificates carry them: both, only the flag, only the length, or neither. */
  lemma AuthorityRead(ca: bool, n: u32, value: seq<u8>)
    requires value != [] && OfBe(value) == n
    ensures var (flag, count) := (Some(if ca then 0xFF else 0x00), Some(IntegerBody(value)));
            && ConstraintsBytes(flag, count).Ok? && BasicConstraints(ConstraintsBytes(flag, count).value) == Ok((ca, Some(n)))
            && ConstraintsBytes(None, count).Ok? && BasicConstraints(ConstraintsBytes(None, count).value) == Ok((false, Some(n)))
            && ConstraintsBytes(flag, None).Ok? && BasicConstraints(ConstraintsBytes(flag, None).value) == Ok((ca, None))
            && BasicConstraints([0x30, 0x00]) == Ok((false, None))
  {
    hide EncodeNode, BasicConstraints, SmallInteger, IntegerBody;
    var (flag, count) := (Some(if ca then 0xFF else 0x00), Some(IntegerBody(value)));
    SmallIntegerReads(value);
    BodyIsShort(IntegerBody(value));
    ConstraintsRead(flag, count, ConstraintsBytes(flag, count).value, ca, Some(n));
    ConstraintsRead(None, count, ConstraintsBytes(None, count).value, false, Some(n));
    ConstraintsRead(flag, None, ConstraintsBytes(flag, None).value, ca, None);
    EmptySequence();
    ConstraintsRead(None, None, [0x30, 0x00], false, None);
  }

  lemma BodyIsShort(body: seq<u8>)
    requires SmallInteger(body).Ok?
    ensures |body| <= 5
  {
  }

  lemma EmptySequence()
    ensures EncodeNode(0x30, []) == Ok([0x30, 0x00])
  {
    assert EncodeLen(0) == Ok([0]);
    assert [0x30] + [0] + [] == [0x30, 0x00];
  }

  // One extension

  datatype Extension = Extension(oid: seq<u8>, critical: Option<u8>, value: seq<u8>)

  function WriteExtension(e: Extension): Written {
    var oid :- EncodeNode(0x06, e.oid);
    var critical :- Flag(e.critical);
    var value :- EncodeNode(0x04, e.value);
    EncodeNode(0x30, oid + (critical + value))
  }

  predicate Acceptable(G: Given, e: Extension) {
    if e.oid == [0x55, 0x1D, 0x13] then BasicConstraints(e.value).Ok? else G.acceptsOther(e.oid, e.value)
  }

  /** What one extension leaves of what the earlier ones said. */
  function Told(e: Extension, seen: Seen): Seen
    requires e.oid == [0x55, 0x1D, 0x13] ==> BasicConstraints(e.value).Ok?
  {
    if e.oid == [0x55, 0x1D, 0x13] then Seen(Some(BasicConstraints(e.value).value.0), BasicConstraints(e.value).value.1) else seen
  }

  lemma ExtensionReads(G: Given, e: Extension, rest: seq<u8>, seen: Seen)
    requires WriteExtension(e).Ok?
    ensures var r := OneExtension(G, WriteExtension(e).value + rest, seen);
            && (r.Ok? <==> Acceptable(G, e))
            && (r.Ok? ==> r.value == (Told(e, seen), rest))
  {
    hide EncodeNode, ParseNode, BasicConstraints, Expect, ExpectOnly;
    var (oid, critical, value) := (EncodeNode(0x06, e.oid).value, Flag(e.critical).value, EncodeNode(0x04, e.value).value);
    Opens(0x30, oid + (critical + value), WriteExtension(e).value, rest);
    Opens(0x06, e.oid, oid, critical + value);
    Opens(0x04, e.value, value, []);
    SomeBytes(0x04, e.value, value);
    if e.critical.Some? {
      Opens(0x01, [e.critical.value], critical, value);
    } else {
      assert critical + value == value;
    }
  }

  lemma ExtensionIs(G: Given, cursor: seq<u8>, seen: Seen) returns (e: Extension)
    requires OneExtension(G, cursor, seen).Ok?
    ensures WriteExtension(e).Ok? && cursor == WriteExtension(e).value + OneExtension(G, cursor, seen).value.1
  {
    hide EncodeNode, ParseNode, BasicConstraints, ExpectOnly;
    NodeCanonical(cursor);
    var (body, rest) := Expect(cursor, 0x30).value;
    NodeCanonical(body);
    var (oid, afterOid) := Expect(body, 0x06).value;
    var afterCritical := OptionalBoolean(afterOid).value;
    OnlyIs(afterCritical, 0x04);
    var critical := None;
    if afterOid != [] {
      NodeCanonical(afterOid);
      var node := ParseNode(afterOid).value.0;
      if node.tag == 0x01 {
        critical := Some(node.body[0]);
        assert node.body == [node.body[0]];
      }
    }
    e := Extension(oid, critical, ExpectOnly(afterCritical, 0x04).value);
    assert afterOid == Flag(critical).value + afterCritical by {
      assert [] + afterCritical == afterCritical;
    }
  }

  // Lists

  predicate AllWritten(es: seq<Extension>) {
    forall i :: 0 <= i < |es| ==> WriteExtension(es[i]).Ok?
  }

  function WriteAll(es: seq<Extension>): seq<u8>
    requires AllWritten(es)
  {
    if es == [] then [] else WriteExtension(es[0]).value + WriteAll(es[1..])
  }

  /** Extension k is the last basicConstraints of the list. */
  predicate LastConstraints(es: seq<Extension>, k: nat) {
    && k < |es| && es[k].oid == [0x55, 0x1D, 0x13]
    && forall i :: k < i < |es| ==> es[i].oid != [0x55, 0x1D, 0x13]
  }

  predicate NoConstraints(es: seq<Extension>) {
    forall i :: 0 <= i < |es| ==> es[i].oid != [0x55, 0x1D, 0x13]
  }

  predicate Reads(e: Extension, seen: Seen) {
    seen.ca.Some? && BasicConstraints(e.value) == Ok((seen.ca.value, seen.pathLen))
  }

  /** The last basicConstraints of the list says this. */
  predicate LastReads(es: seq<Extension>, seen: Seen) {
    exists k: nat :: k < |es| && LastConstraints(es, k) && Reads(es[k], seen)
  }

  /** What a list says after what came before it: nothing new without basicConstraints, otherwise what the last of them says. */
  predicate Says(es: seq<Extension>, before: Seen, seen: Seen) {
    if NoConstraints(es) then seen == before else LastReads(es, seen)
  }

  lemma SaysFirst(e: Extension, es: seq<Extension>, before: Seen, seen: Seen)
    requires e.oid == [0x55, 0x1D, 0x13] ==> BasicConstraints(e.value).Ok?
    ensures Says([e] + es, before, seen) <==> Says(es, Told(e, before), seen)
  {
    hide BasicConstraints, LastConstraints, Reads;
    var all := [e] + es;
    assert all[0] == e && all[1..] == es;
    LastShifts(all);
    NoneShifts(all);
    if NoConstraints(es) {
      if e.oid == [0x55, 0x1D, 0x13] {
        assert LastConstraints(all, 0);
        NoneIsLast(es);
        assert forall k: nat :: LastConstraints(all, k) ==> k == 0;
        ReadsIs(e, before, seen);
      }
    } else {
      assert forall k: nat | k < |es| :: all[k + 1] == es[k];
      if LastReads(all, seen) {
        var k: nat :| k < |all| && LastConstraints(all, k) && Reads(all[k], seen);
        assert LastConstraints(es, k - 1);
      }
      if LastReads(es, seen) {
        var k: nat :| k < |es| && LastConstraints(es, k) && Reads(es[k], seen);
        assert LastConstraints(all, k + 1);
      }
    }
  }

  lemma ReadsIs(e: Extension, before: Seen, seen: Seen)
    requires e.oid == [0x55, 0x1D, 0x13] && BasicConstraints(e.value).Ok?
    ensures Reads(e, seen) <==> seen == Told(e, before)
  {
    hide BasicConstraints;
  }

  lemma NoneIsLast(es: seq<Extension>)
    requires NoConstraints(es)
    ensures forall k: nat :: !LastConstraints(es, k)
  {
  }

  lemma NoneShifts(all: seq<Extension>)
    requires all != []
    ensures NoConstraints(all) <==> NoConstraints(all[1..]) && all[0].oid != [0x55, 0x1D, 0x13]
  {
    assert forall i :: 0 < i < |all| ==> all[i] == all[1..][i - 1];
  }

  lemma LastShifts(all: seq<Extension>)
    requires all != []
    ensures LastConstraints(all, 0) <==> all[0].oid == [0x55, 0x1D, 0x13] && NoConstraints(all[1..])
    ensures forall k: nat :: k > 0 ==> (LastConstraints(all, k) <==> LastConstraints(all[1..], k - 1))
  {
    var es := all[1..];
    assert forall i :: 0 < i < |all| ==> all[i] == es[i - 1];
    forall k: nat | k > 0 ensures LastConstraints(all, k) <==> LastConstraints(es, k - 1) {
      if LastConstraints(all, k) {
        assert forall i :: k - 1 < i < |es| ==> es[i] == all[i + 1];
      }
    }
  }

  /** Reading a written list: accepted when it is short enough and every extension is, with what the list says. */
  lemma {:induction false} ListReads(G: Given, es: seq<Extension>, count: nat, before: Seen)
    requires AllWritten(es)
    ensures var r := ExtensionsFrom(G, WriteAll(es), count, before);
            && (r.Ok? <==> (es == [] || count + |es| <= 256) && forall i :: 0 <= i < |es| ==> Acceptable(G, es[i]))
            && (r.Ok? ==> Says(es, before, r.value))
  {
    hide OneExtension, WriteExtension, Says, Told, Acceptable;
    if es == [] {
      NothingSaid(before);
    } else {
      ExtensionReads(G, es[0], WriteAll(es[1..]), before);
      assert es == [es[0]] + es[1..];
      WrittenNotEmpty(es[0]);
      AcceptableFirst(G, es);
      if Acceptable(G, es[0]) {
        ToldIs(G, es[0]);
        ListReads(G, es[1..], count + 1, Told(es[0], before));
        forall seen ensures Says(es, before, seen) <==> Says(es[1..], Told(es[0], before), seen) {
          SaysFirst(es[0], es[1..], before, seen);
        }
      }
    }
  }

  lemma NothingSaid(before: Seen)
    ensures Says([], before, before)
  {
  }

  lemma ToldIs(G: Given, e: Extension)
    requires Acceptable(G, e)
    ensures e.oid == [0x55, 0x1D, 0x13] ==> BasicConstraints(e.value).Ok?
  {
  }

  lemma AcceptableFirst(G: Given, es: seq<Extension>)
    requires es != []
    ensures (forall i :: 0 <= i < |es| ==> Acceptable(G, es[i])) <==>
              Acceptable(G, es[0]) && forall i :: 0 <= i < |es[1..]| ==> Acceptable(G, es[1..][i])
  {
    hide Acceptable;
    assert forall i :: 0 < i < |es| ==> es[i] == es[1..][i - 1];
  }

  lemma WrittenNotEmpty(e: Extension)
    requires WriteExtension(e).Ok?
    ensures WriteExtension(e).value != []
  {
    hide EncodeNode;
  }

  /** Whatever list is accepted is a written one. */
  lemma {:induction false} ListIs(G: Given, cursor: seq<u8>, count: nat, before: Seen) returns (es: seq<Extension>)
    requires ExtensionsFrom(G, cursor, count, before).Ok?
    ensures AllWritten(es) && WriteAll(es) == cursor
    decreases |cursor|
  {
    hide OneExtension, WriteExtension;
    es := [];
    if cursor != [] {
      var (seen, rest) := OneExtension(G, cursor, before).value;
      var e := ExtensionIs(G, cursor, before);
      var others := ListIs(G, rest, count + 1, seen);
      es := [e] + others;
      assert es[1..] == others;
    }
  }

  /**
   The extension parser accepts exactly the encoded lists of at most 256 acceptable extensions, and reports
   what the last basicConstraints among them says.
   */
  lemma ExtensionsIff(G: Given, input: seq<u8>, seen: Seen)
    ensures ParseExtensions(G, input) == Ok(seen) <==> exists es: seq<Extension> :: ListFor(G, es, input) && Says(es, Seen(None, None), seen)
  {
    hide ExtensionsFrom, WriteAll, Says, AllWritten, Acceptable, EncodeNode, ParseNode, ExpectOnly;
    if ParseExtensions(G, input) == Ok(seen) {
      var body := ExpectOnly(input, 0x30).value;
      OnlyIs(input, 0x30);
      var es := ListIs(G, body, 0, Seen(None, None));
      ListReads(G, es, 0, Seen(None, None));
      assert ListFor(G, es, input) && Says(es, Seen(None, None), seen);
    }
    forall es: seq<Extension> | ListFor(G, es, input) && Says(es, Seen(None, None), seen) ensures ParseExtensions(G, input) == Ok(seen) {
      Opens(0x30, WriteAll(es), input, []);
      ListReads(G, es, 0, Seen(None, None));
      SaysOne(es, seen, ExtensionsFrom(G, WriteAll(es), 0, Seen(None, None)).value);
    }
  }

  ghost predicate ListFor(G: Given, es: seq<Extension>, input: seq<u8>) {
    && AllWritten(es) && |es| <= 256 && (forall i :: 0 <= i < |es| ==> Acceptable(G, es[i]))
    && EncodeNode(0x30, WriteAll(es)) == Ok(input)
  }

  lemma SaysOne(es: seq<Extension>, a: Seen, b: Seen)
    requires Says(es, Seen(None, None), a) && Says(es, Seen(None, None), b)
    ensures a == b
  {
    hide BasicConstraints;
    forall k: nat, l: nat | LastConstraints(es, k) && LastConstraints(es, l) ensures k == l {
    }
  }
}
