/** DER lengths, nodes and integers: the writers, the strict parser, and their being inverses. */
module Der {
  import Arith
  import opened Words
  import opened Wrappers
  import opened Bytes

  datatype DerError = ParseFailure | InvalidLength | InvalidEncoding | UnsupportedFeature

  datatype Node = Node(tag: u8, body: seq<u8>)

  // Lengths

  /** Drops leading zeros, but not the last byte. */
  function Strip(s: seq<u8>): (r: seq<u8>)
    ensures |r| <= |s| && (s != [] ==> r != [])
    ensures |r| > 1 ==> r[0] != 0
  {
    if |s| > 1 && s[0] == 0 then Strip(s[1..]) else s
  }

  function EncodeLen(n: nat): (r: Result<seq<u8>, DerError>)
    ensures r.Ok? <==> n < 0x1_0000_0000
    ensures r.Ok? ==> 1 <= |r.value| <= 5
  {
    if n < 128 then Ok([n])
    else if n >= 0x1_0000_0000 then Err(InvalidLength)
    else
      var content := Strip(ToBe(n, 4));
      Ok([0x80 + |content|] + content)
  }

  /** The length and how many bytes it took. */
  function ParseLen(input: seq<u8>): (r: Result<(nat, nat), DerError>)
    ensures r.Ok? ==> r.value.0 < 0x1_0000_0000 && 1 <= r.value.1 <= |input|
  {
    if input == [] then Err(ParseFailure)
    else
      var first := input[0];
      if first < 0x80 then Ok((first, 1))
      else
        var octets := first - 0x80;
        if octets == 0 || octets > 4 || |input| < 1 + octets then Err(ParseFailure)
        else if input[1] == 0 then Err(ParseFailure)
        else if octets == 1 && input[1] < 0x80 then Err(ParseFailure)
        else
          FourBytes(input[1..1 + octets]);
          Ok((OfBe(input[1..1 + octets]), 1 + octets))
  }

  lemma FourBytes(s: seq<u8>)
    requires |s| <= 4
    ensures OfBe(s) < 0x1_0000_0000
  {
    BeCanonical(s);
    Powers256();
    Power256Grows(|s|, 4);
  }

  lemma {:induction false} Power256Grows(a: nat, b: nat)
    requires a <= b
    ensures Power256(a) <= Power256(b)
  {
    if a < b {
      Power256Grows(a, b - 1);
    }
  }

  /** The accumulating loop of `parse_der_length`. */
  method ParseDerLength(input: seq<u8>) returns (r: Result<(nat, nat), DerError>)
    ensures r == ParseLen(input)
  {
    hide And;
    if input == [] {
      return Err(ParseFailure);
    }
    var first := input[0];
    TopBit(first);
    if And(first, 0x80) == 0 {
      return Ok((first, 1));
    }
    var octets: nat := And(first, 0x7f);
    if octets == 0 || octets > 4 || |input| < 1 + octets {
      return Err(ParseFailure);
    }
    if input[1] == 0 {
      return Err(ParseFailure);
    }
    if octets == 1 && input[1] < 0x80 {
      return Err(ParseFailure);
    }
    var len: nat := 0;
    for i := 1 to 1 + octets
      invariant len == OfBe(input[1..i])
    {
      assert input[1..i + 1][..i - 1] == input[1..i];
      len := 256 * len + input[i];
    }
    return Ok((len, 1 + octets));
  }

  lemma TopBit(b: u8)
    ensures And(b, 0x80) == 0 <==> b < 0x80
    ensures And(b, 0x7f) == b % 0x80
  {
    hide And;
    SmallPowers();
    AndMask(b, 7);
    HighBit(b, 7);
    SevenBits(b);
  }

  lemma SevenBits(b: u8)
    ensures Arith.Mod(b, 128) == b % 0x80
  {
  }

  lemma {:induction false} HighBit(b: nat, k: nat)
    requires b < 2 * Pow2(k)
    ensures And(b, Pow2(k)) == 0 <==> b < Pow2(k)
  {
    if k > 0 && b != 0 {
      HighBit(b / 2, k - 1);
    }
  }

  lemma {:induction false} StripZeros(j: nat, s: seq<u8>)
    requires s != [] && s[0] != 0
    ensures Strip(Zeros(j) + s) == s
  {
    if j > 0 {
      assert (Zeros(j) + s)[1..] == Zeros(j - 1) + s;
      StripZeros(j - 1, s);
    } else {
      assert Zeros(0) + s == s;
    }
  }

  /** More room only adds leading zeros. */
  lemma {:induction false} WiderIsPadded(s: seq<u8>, j: nat)
    ensures ToBe(OfBe(s), |s| + j) == Zeros(j) + s
  {
    if s == [] {
      ZeroIsZeros(j);
    } else {
      var front, last := s[..|s| - 1], s[|s| - 1];
      WiderIsPadded(front, j);
      assert OfBe(s) / 256 == OfBe(front) && OfBe(s) % 256 == last;
      assert Zeros(j) + s == (Zeros(j) + front) + [last];
    }
  }

  lemma {:induction false} ZeroIsZeros(j: nat)
    ensures ToBe(0, j) == Zeros(j)
  {
    if j > 0 {
      ZeroIsZeros(j - 1);
      assert Zeros(j) == Zeros(j - 1) + [0];
    }
  }

  lemma {:induction false} ValueOfStripped(s: seq<u8>)
    ensures OfBe(Strip(s)) == OfBe(s)
  {
    if |s| > 1 && s[0] == 0 {
      ValueOfStripped(s[1..]);
      LeadingZero(s);
    }
  }

  lemma {:induction false} LeadingZero(s: seq<u8>)
    requires s != [] && s[0] == 0
    ensures OfBe(s[1..]) == OfBe(s)
  {
    if |s| > 1 {
      var front := s[..|s| - 1];
      LeadingZero(front);
      assert s[1..][..|s| - 2] == front[1..];
    }
  }

  /** Every length below 2^32 parses back from its encoding, whatever follows. */
  lemma LenRoundTrip(n: nat, rest: seq<u8>)
    requires n < 0x1_0000_0000
    ensures var e := EncodeLen(n).value; ParseLen(e + rest) == Ok((n, |e|))
  {
    if n >= 128 {
      var content := Strip(ToBe(n, 4));
      Powers256();
      BeRoundTrip(n, 4);
      ValueOfStripped(ToBe(n, 4));
      var e := EncodeLen(n).value;
      assert (e + rest)[1..1 + |content|] == content;
      if |content| == 1 {
        OneByte(content);
      }
    }
  }

  lemma OneByte(s: seq<u8>)
    requires |s| == 1
    ensures OfBe(s) == s[0]
  {
    assert s[..0] == [];
  }

  /** The strict parser accepts nothing but encodings. */
  lemma LenCanonical(input: seq<u8>)
    requires ParseLen(input).Ok?
    ensures var (n, used) := ParseLen(input).value; EncodeLen(n) == Ok(input[..used])
  {
    var (n, used) := ParseLen(input).value;
    if input[0] >= 0x80 {
      var content := input[1..used];
      WiderIsPadded(content, 4 - |content|);
      StripZeros(4 - |content|, content);
      Large(content);
      assert input[..used] == [input[0]] + content;
    } else {
      assert input[..1] == [input[0]];
    }
  }

  lemma Large(s: seq<u8>)
    requires s != [] && s[0] != 0 && (|s| == 1 ==> s[0] >= 0x80)
    ensures OfBe(s) >= 128
  {
    if |s| == 1 {
      OneByte(s);
    } else {
      AtLeast(s[..|s| - 1]);
    }
  }

  lemma {:induction false} AtLeast(s: seq<u8>)
    requires s != [] && s[0] != 0
    ensures OfBe(s) >= 1
  {
    if |s| == 1 {
      OneByte(s);
    } else {
      AtLeast(s[..|s| - 1]);
    }
  }

  // Nodes

  function EncodeNode(tag: u8, body: seq<u8>): (r: Result<seq<u8>, DerError>)
    ensures r.Ok? <==> |body| < 0x1_0000_0000
    ensures r.Ok? ==> |body| + 2 <= |r.value| <= |body| + 6
  {
    var len :- EncodeLen(|body|);
    Ok([tag] + len + body)
  }

  function ParseNode(input: seq<u8>): (r: Result<(Node, seq<u8>), DerError>)
    ensures r.Ok? ==> |r.value.0.body| + |r.value.1| < |input| && |r.value.0.body| < 0x1_0000_0000
  {
    if |input| < 2 then Err(ParseFailure)
    else
      var (len, used) :- ParseLen(input[1..]);
      if |input| < 1 + used + len then Err(ParseFailure)
      else Ok((Node(input[0], input[1 + used..1 + used + len]), input[1 + used + len..]))
  }

  /** Any node whose body is shorter than 2^32 parses back from its encoding, with what follows left over. */
  lemma NodeRoundTrip(tag: u8, body: seq<u8>, rest: seq<u8>)
    requires |body| < 0x1_0000_0000
    ensures ParseNode(EncodeNode(tag, body).value + rest) == Ok((Node(tag, body), rest))
  {
    hide EncodeLen, ParseLen;
    var e := EncodeLen(|body|).value;
    var input := EncodeNode(tag, body).value + rest;
    assert input[1..] == e + (body + rest);
    LenRoundTrip(|body|, body + rest);
    assert input == [tag] + e + body + rest;
  }

  /** What parses is the encoding of the node and the rest: no second encoding exists. */
  lemma NodeCanonical(input: seq<u8>)
    requires ParseNode(input).Ok?
    ensures var (node, rest) := ParseNode(input).value;
            EncodeNode(node.tag, node.body).Ok? && input == EncodeNode(node.tag, node.body).value + rest
  {
    hide EncodeLen, ParseLen;
    var (len, used) := ParseLen(input[1..]).value;
    LenCanonical(input[1..]);
    var (node, rest) := ParseNode(input).value;
    assert input == [input[0]] + input[1..][..used] + node.body + rest;
  }

  // Integers

  /** Big-endian bytes of a nonnegative integer: no needless leading zero, one added before a set top bit. */
  function IntegerBody(value: seq<u8>): (body: seq<u8>)
    requires value != []
    ensures body != [] && |body| <= |value| + 1
  {
    var s := Strip(value);
    if s[0] >= 0x80 then [0] + s else s
  }

  function WriteInteger(value: seq<u8>): (r: Result<seq<u8>, DerError>)
    ensures r.Ok? ==> value != [] && r == EncodeNode(0x02, IntegerBody(value))
  {
    if value == [] then Err(InvalidLength) else EncodeNode(0x02, IntegerBody(value))
  }

  /** `write_der_integer`, with its loop and insertion. */
  method WriteDerInteger(value: seq<u8>) returns (r: Result<seq<u8>, DerError>)
    ensures r == WriteInteger(value)
  {
    if value == [] {
      return Err(InvalidLength);
    }
    var body := value;
    while |body| > 1 && body[0] == 0
      invariant body != [] && Strip(body) == Strip(value)
    {
      body := body[1..];
    }
    TopBit(body[0]);
    if And(body[0], 0x80) != 0 {
      body := [0x00] + body;
    }
    return EncodeNode(0x02, body);
  }

  /** Nonnegative and minimal, as X.690 section 8.3 asks. */
  predicate MinimalInteger(body: seq<u8>) {
    && body != [] && body[0] < 0x80
    && (|body| > 1 && body[0] == 0 ==> body[1] >= 0x80)
  }

  /** The written body is the one minimal encoding of the value. */
  lemma IntegerBodyIs(value: seq<u8>, body: seq<u8>)
    requires value != []
    ensures MinimalInteger(IntegerBody(value)) && OfBe(IntegerBody(value)) == OfBe(value)
    ensures MinimalInteger(body) && OfBe(body) == OfBe(value) ==> body == IntegerBody(value)
  {
    hide Strip;
    var s := Strip(value);
    ValueOfStripped(value);
    if s[0] >= 0x80 {
      LeadingZero([0] + s);
      assert ([0] + s)[1..] == s;
    }
    if MinimalInteger(body) && OfBe(body) == OfBe(value) {
      MinimalUnique(body, IntegerBody(value));
    }
  }

  lemma MinimalUnique(a: seq<u8>, b: seq<u8>)
    requires MinimalInteger(a) && MinimalInteger(b) && OfBe(a) == OfBe(b)
    ensures a == b
  {
    if |a| < |b| {
      LongerIsLarger(a, b);
    } else if |b| < |a| {
      LongerIsLarger(b, a);
    } else {
      BeCanonical(a);
      BeCanonical(b);
    }
  }

  /** A minimal body of more bytes has a larger value. */
  lemma LongerIsLarger(a: seq<u8>, b: seq<u8>)
    requires MinimalInteger(a) && MinimalInteger(b) && |a| < |b|
    ensures OfBe(a) < OfBe(b)
  {
    TopOfBody(a);
    var n := |b| - 1;
    Power256Grows(|a|, n);
    if b[0] == 0 {
      LeadingZero(b);
      TopByte(b[1..]);
      Power256Grows(|a| - 1, n - 1);
      Scaled(b[1], Power256(n - 1));
    } else {
      TopByte(b);
      Scaled(b[0], Power256(n));
    }
    BeCanonical(a);
  }

  lemma Scaled(x: nat, p: nat)
    requires x >= 1
    ensures x * p >= p && (x >= 0x80 ==> x * p >= 128 * p)
  {
    assert x * p >= 1 * p;
    if x >= 0x80 {
      assert x * p >= 128 * p;
    }
  }

  /** The first byte weighs 256^(n-1). */
  lemma {:induction false} TopByte(s: seq<u8>)
    requires s != []
    ensures s[0] * Power256(|s| - 1) <= OfBe(s)
    ensures OfBe(s) < (s[0] + 1) * Power256(|s| - 1)
  {
    if |s| == 1 {
      OneByte(s);
    } else {
      TopByte(s[..|s| - 1]);
      Weights(s[0], Power256(|s| - 2), OfBe(s[..|s| - 1]), s[|s| - 1]);
    }
  }

  lemma Weights(x: nat, p: nat, v: nat, b: u8)
    requires x * p <= v && v < (x + 1) * p
    ensures x * (256 * p) <= 256 * v + b && 256 * v + b < (x + 1) * (256 * p)
  {
    assert x * (256 * p) == 256 * (x * p);
    assert (x + 1) * (256 * p) == 256 * ((x + 1) * p);
  }

  lemma TopOfBody(a: seq<u8>)
    requires MinimalInteger(a)
    ensures OfBe(a) < 128 * Power256(|a| - 1)
  {
    TopByte(a);
    var p := Power256(|a| - 1);
    Below(a[0] + 1, 128, p);
  }

  lemma Below(x: nat, y: nat, p: nat)
    requires x <= y
    ensures x * p <= y * p
  {
  }

  // Positions

  /** A length: itself below 128, otherwise a count of bytes and the shortest bytes that spell it. */
  lemma LenIs(n: nat)
    requires n < 0x1_0000_0000
    ensures var e := EncodeLen(n).value;
            if n < 128 then e == [n]
            else |e| >= 2 && e[0] as int == 0x80 + |e| - 1 && e[1] != 0 && OfBe(e[1..]) == n
  {
    if n >= 128 {
      Powers256();
      BeRoundTrip(n, 4);
      ValueOfStripped(ToBe(n, 4));
      var content := Strip(ToBe(n, 4));
      assert EncodeLen(n).value[1..] == content;
      if |content| == 1 {
        OneByte(content);
      }
    }
  }

  /** A node: tag, length of the body, body. */
  lemma NodeIs(tag: u8, body: seq<u8>)
    requires |body| < 0x1_0000_0000
    ensures var (e, l) := (EncodeNode(tag, body).value, EncodeLen(|body|).value);
            e[0] == tag && |e| == 1 + |l| + |body| && e[1..1 + |l|] == l && e[1 + |l|..] == body
  {
    hide EncodeLen;
  }
}
