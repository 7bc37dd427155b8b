/** ECDSA signatures as DER: one writer, two parsers, and the bijection between them. */
module Ecdsa {
  import opened Words
  import opened Wrappers
  import opened Bytes
  import opened Der

  type Scalar = s: seq<u8> | |s| == 32 witness seq(32, _ => 0)

  function WriteSignature(r: Scalar, s: Scalar): Result<seq<u8>, DerError> {
    var rDer :- WriteInteger(r);
    var sDer :- WriteInteger(s);
    EncodeNode(0x30, rDer + sDer)
  }

  /** An integer body to 32 bytes. */
  function ScalarOf(body: seq<u8>): Result<Scalar, DerError> {
    if body == [] then Err(ParseFailure)
    else if body[0] >= 0x80 then Err(ParseFailure)
    else if |body| > 1 && body[0] == 0x00 && body[1] < 0x80 then Err(ParseFailure)
    else
      var normalized := if |body| > 1 && body[0] == 0x00 then body[1..] else body;
      if |normalized| > 32 then Err(InvalidLength) else Ok(Zeros(32 - |normalized|) + normalized)
  }

  /** `der_integer_to_p256_scalar`, which copies into a zeroed buffer from the right. */
  method DerIntegerToScalar(body: seq<u8>) returns (r: Result<Scalar, DerError>)
    ensures r == ScalarOf(body)
  {
    hide And;
    if body == [] {
      return Err(ParseFailure);
    }
    TopBit(body[0]);
    if And(body[0], 0x80) != 0 {
      return Err(ParseFailure);
    }
    if |body| > 1 && body[0] == 0x00 {
      TopBit(body[1]);
      if And(body[1], 0x80) == 0 {
        return Err(ParseFailure);
      }
    }
    var normalized := if |body| > 1 && body[0] == 0x00 then body[1..] else body;
    if |normalized| > 32 {
      return Err(InvalidLength);
    }
    var out := new u8[32](_ => 0);
    var at := 32 - |normalized|;
    for i := 0 to |normalized|
      invariant forall k :: 0 <= k < 32 ==> out[k] == if at <= k < at + i then normalized[k - at] else 0
    {
      out[at + i] := normalized[i];
    }
    assert out[..] == Zeros(at) + normalized;
    return Ok(out[..]);
  }

  function ParseSignature(der: seq<u8>): Result<(Scalar, Scalar), DerError> {
    var (outer, rem) :- ParseNode(der);
    if outer.tag != 0x30 || rem != [] then Err(ParseFailure)
    else
      var (rNode, rest) :- ParseNode(outer.body);
      var (sNode, tail) :- ParseNode(rest);
      if rNode.tag != 0x02 || sNode.tag != 0x02 || tail != [] then Err(ParseFailure)
      else
        var r :- ScalarOf(rNode.body);
        var s :- ScalarOf(sNode.body);
        Ok((r, s))
  }

  /** The validator's own copy, whose only error is a failed signature. */
  function ValidatorScalar(body: seq<u8>): Option<Scalar> {
    if body == [] || body[0] >= 0x80 then None
    else if |body| > 1 && body[0] == 0x00 && body[1] < 0x80 then None
    else
      var normalized := if |body| > 1 && body[0] == 0x00 then body[1..] else body;
      if |normalized| > 32 then None else Some(Zeros(32 - |normalized|) + normalized)
  }

  function ValidatorSignature(der: seq<u8>): Option<(Scalar, Scalar)> {
    match ParseNode(der)
    case Err(_) => None
    case Ok((outer, rem)) =>
      if outer.tag != 0x30 || rem != [] then None
      else match ParseNode(outer.body)
        case Err(_) => None
        case Ok((rNode, rest)) =>
          match ParseNode(rest)
          case Err(_) => None
          case Ok((sNode, tail)) =>
            if rNode.tag != 0x02 || sNode.tag != 0x02 || tail != [] then None
            else match (ValidatorScalar(rNode.body), ValidatorScalar(sNode.body))
              case (Some(r), Some(s)) => Some((r, s))
              case _ => None
  }

  /** What is read is minimal and keeps its value. */
  lemma ReadKeepsValue(body: seq<u8>)
    requires ScalarOf(body).Ok?
    ensures MinimalInteger(body) && OfBe(ScalarOf(body).value) == OfBe(body)
  {
    hide OfBe;
    var normalized := if |body| > 1 && body[0] == 0x00 then body[1..] else body;
    ZerosKeepValue(32 - |normalized|, normalized);
    if |body| > 1 && body[0] == 0x00 {
      LeadingZero(body);
    }
  }

  /** A body decodes to a scalar exactly when it is the written body of that scalar. */
  lemma ScalarIff(body: seq<u8>, value: Scalar)
    ensures ScalarOf(body) == Ok(value) <==> body == IntegerBody(value)
  {
    hide ScalarOf, IntegerBody, MinimalInteger, OfBe, ToBe;
    IntegerBodyIs(value, body);
    BeCanonical(value);
    if ScalarOf(body).Ok? {
      ReadKeepsValue(body);
      BeCanonical(ScalarOf(body).value);
    }
    if body == IntegerBody(value) {
      BodyFits(value);
    }
  }

  lemma {:induction false} ZerosKeepValue(j: nat, s: seq<u8>)
    ensures OfBe(Zeros(j) + s) == OfBe(s)
  {
    if j > 0 {
      ZerosKeepValue(j - 1, s);
      LeadingZero(Zeros(j) + s);
      assert (Zeros(j) + s)[1..] == Zeros(j - 1) + s;
    } else {
      assert Zeros(0) + s == s;
    }
  }

  /** A written scalar is never too long to read. */
  lemma BodyFits(value: Scalar)
    ensures ScalarOf(IntegerBody(value)).Ok?
  {
    hide Strip;
    IntegerBodyIs(value, []);
    var s := Strip(value);
    if s[0] >= 0x80 {
      assert ([0] + s)[1..] == s;
    }
  }

  lemma WrittenSizes(r: Scalar, s: Scalar)
    ensures WriteInteger(r).Ok? && WriteInteger(s).Ok?
    ensures |WriteInteger(r).value + WriteInteger(s).value| < 0x1_0000_0000
  {
    hide Strip, EncodeNode, IntegerBody;
  }

  /** Every pair of scalars comes back from its DER encoding. */
  lemma SignatureRoundTrip(r: Scalar, s: Scalar)
    ensures WriteSignature(r, s).Ok? && ParseSignature(WriteSignature(r, s).value) == Ok((r, s))
  {
    hide EncodeNode, ParseNode, IntegerBody, ScalarOf;
    WrittenSizes(r, s);
    var rDer, sDer := WriteInteger(r).value, WriteInteger(s).value;
    var der := WriteSignature(r, s).value;
    NodeRoundTrip(0x30, rDer + sDer, []);
    assert der + [] == der;
    NodeRoundTrip(0x02, IntegerBody(r), sDer);
    NodeRoundTrip(0x02, IntegerBody(s), []);
    assert sDer + [] == sDer;
    ScalarIff(IntegerBody(r), r);
    ScalarIff(IntegerBody(s), s);
  }

  /** Every accepted byte string is the encoding of what it decodes to. */
  lemma SignatureCanonical(der: seq<u8>)
    requires ParseSignature(der).Ok?
    ensures var (r, s) := ParseSignature(der).value; WriteSignature(r, s) == Ok(der)
  {
    hide EncodeNode, ParseNode, IntegerBody, ScalarOf;
    var (outer, rem) := ParseNode(der).value;
    var (rNode, rest) := ParseNode(outer.body).value;
    var (sNode, tail) := ParseNode(rest).value;
    NodeCanonical(der);
    NodeCanonical(outer.body);
    NodeCanonical(rest);
    var (r, s) := ParseSignature(der).value;
    ScalarIff(rNode.body, r);
    ScalarIff(sNode.body, s);
    WrittenSizes(r, s);
    assert WriteInteger(s).value == EncodeNode(0x02, sNode.body).value == rest;
    assert WriteInteger(r).value + rest == outer.body;
    assert EncodeNode(0x30, outer.body).value == der;
  }

  /** So parsing is the inverse of writing, in both directions. */
  lemma SignatureBijection(der: seq<u8>, r: Scalar, s: Scalar)
    ensures ParseSignature(der) == Ok((r, s)) <==> WriteSignature(r, s) == Ok(der)
  {
    hide ParseSignature, WriteSignature;
    SignatureRoundTrip(r, s);
    if ParseSignature(der) == Ok((r, s)) {
      SignatureCanonical(der);
    }
  }

  /** The two parsers accept the same byte strings with the same values. */
  lemma ParsersAgree(der: seq<u8>)
    ensures ValidatorSignature(der) == if ParseSignature(der).Ok? then Some(ParseSignature(der).value) else None
  {
    hide ParseNode;
  }

  /** Where the parts of a written signature stand; each integer is the shortest nonnegative one of its value. */
  lemma SignatureLayout(r: Scalar, s: Scalar)
    ensures WriteSignature(r, s).Ok?
    ensures var (e, a, b) := (WriteSignature(r, s).value, IntegerBody(r), IntegerBody(s));
            && |e| == 6 + |a| + |b| && e[0] == 0x30 && e[1] as int == 4 + |a| + |b|
            && e[2] == 0x02 && e[3] as int == |a| && e[4..4 + |a|] == a
            && e[4 + |a|] == 0x02 && e[5 + |a|] as int == |b| && e[6 + |a|..] == b
            && MinimalInteger(a) && OfBe(a) == OfBe(r) && MinimalInteger(b) && OfBe(b) == OfBe(s)
  {
    hide IntegerBody, OfBe, MinimalInteger, EncodeNode;
    var (a, b) := (IntegerBody(r), IntegerBody(s));
    IntegerBodyIs(r, a);
    IntegerBodyIs(s, b);
    ShortNode(0x02, a);
    ShortNode(0x02, b);
    ShortNode(0x30, EncodeNode(0x02, a).value + EncodeNode(0x02, b).value);
  }

  lemma ShortNode(tag: u8, body: seq<u8>)
    requires |body| < 128
    ensures EncodeNode(tag, body) == Ok([tag, |body|] + body)
  {
    NodeIs(tag, body);
    LenIs(|body|);
    var (e, l) := (EncodeNode(tag, body).value, EncodeLen(|body|).value);
    assert l == [|body|] && e[1..1 + |l|] == l;
    assert e[1] == e[1..2][0] == |body|;
    assert e == [e[0], e[1]] + e[2..];
  }
}
