/** Base64 as section 4 of RFC 4648 defines it, encoder and strict decoder. */
module Base64 {
  import opened Arith
  import opened Words
  import opened Wrappers

  datatype PemError = InvalidLength | InvalidEncoding | ParseFailure | SliceOutOfRange

  // Base64, section 4 of RFC 4648

  /** The alphabet: upper case, lower case, digits, plus and slash. */
  function Letter(v: nat): char
    requires v < 64
  {
    if v < 26 then (v + 'A' as nat) as char
    else if v < 52 then (v - 26 + 'a' as nat) as char
    else if v < 62 then (v - 52 + '0' as nat) as char
    else if v == 62 then '+'
    else '/'
  }

  function Sextet(c: char): (r: Result<nat, PemError>)
    ensures r.Ok? ==> r.value < 64
  {
    if 'A' <= c <= 'Z' then Ok(c as nat - 'A' as nat)
    else if 'a' <= c <= 'z' then Ok(26 + (c as nat - 'a' as nat))
    else if '0' <= c <= '9' then Ok(52 + (c as nat - '0' as nat))
    else if c == '+' then Ok(62)
    else if c == '/' then Ok(63)
    else Err(InvalidEncoding)
  }

  lemma SextetRoundTrip(v: nat, c: char)
    ensures v < 64 ==> Sextet(Letter(v)) == Ok(v) && Letter(v) != '=' && Letter(v) > ' ' && Letter(v) != '-' && Letter(v) <= 'z'
    ensures Sextet(c).Ok? ==> Letter(Sextet(c).value) == c && c != '='
  {
  }

  /** Up to three bytes as a 24-bit number. */
  function Pack(b: seq<u8>): (n: nat)
    requires 1 <= |b| <= 3
    ensures n < 0x100_0000
    ensures |b| < 3 ==> n % 0x100 == 0
    ensures |b| < 2 ==> n % 0x1_0000 == 0
  {
    0x1_0000 * (b[0] as int) + (if |b| > 1 then 0x100 * (b[1] as int) else 0) + (if |b| > 2 then b[2] else 0)
  }

  /** The four sextets of a 24-bit number. */
  function Sextet0(n: nat): nat { n / 0x4_0000 % 64 }

  function Sextet1(n: nat): nat { n / 0x1000 % 64 }

  function Sextet2(n: nat): nat { n / 0x40 % 64 }

  function Sextet3(n: nat): nat { n % 64 }

  /** One, two or three bytes as four characters. */
  function Group(b: seq<u8>): (q: string)
    requires 1 <= |b| <= 3
    ensures |q| == 4
  {
    hide Letter, Pack;
    var n := Pack(b);
    [ Letter(Sextet0(n)),
      Letter(Sextet1(n)),
      if |b| > 1 then Letter(Sextet2(n)) else '=',
      if |b| > 2 then Letter(Sextet3(n)) else '=']
  }

  function Encode(b: seq<u8>): string {
    hide Group;
    if b == [] then "" else if |b| <= 3 then Group(b) else Group(b[..3]) + Encode(b[3..])
  }

  lemma {:induction false} EncodeLength(b: seq<u8>)
    ensures |Encode(b)| % 4 == 0 && (b != [] ==> Encode(b) != "")
  {
    hide Group;
    if |b| > 3 {
      EncodeLength(b[3..]);
    }
  }

  method EncodeBase64(input: seq<u8>) returns (out: string)
    ensures out == Encode(input)
  {
    hide Letter, Pack, Encode, Sextet0, Sextet1, Sextet2, Sextet3;
    out := "";
    var idx := 0;
    while idx + 3 <= |input|
      invariant idx <= |input| && out + Encode(input[idx..]) == Encode(input)
    {
      var n := Pack(input[idx..idx + 3]);
      SextetBounds(n);
      var quad := [Letter(Sextet0(n)), Letter(Sextet1(n)), Letter(Sextet2(n)), Letter(Sextet3(n))];
      EncodeSplits(input[idx..]);
      assert input[idx..][..3] == input[idx..idx + 3] && input[idx..][3..] == input[idx + 3..];
      out := out + quad;
      idx := idx + 3;
    }
    EncodeShort(input[idx..]);
    var rem := |input| - idx;
    if rem == 1 {
      var n := Pack(input[idx..]);
      SextetBounds(n);
      out := out + [Letter(Sextet0(n)), Letter(Sextet1(n)), '=', '='];
    } else if rem == 2 {
      var n := Pack(input[idx..]);
      SextetBounds(n);
      out := out + [Letter(Sextet0(n)), Letter(Sextet1(n)), Letter(Sextet2(n)), '='];
    }
  }

  lemma SextetBounds(n: nat)
    ensures Sextet0(n) < 64 && Sextet1(n) < 64 && Sextet2(n) < 64 && Sextet3(n) < 64
  {
  }

  lemma EncodeShort(b: seq<u8>)
    requires |b| <= 3
    ensures Encode(b) == if b == [] then "" else Group(b)
  {
    hide Group;
  }

  lemma EncodeSplits(b: seq<u8>)
    requires |b| >= 3
    ensures Encode(b) == Group(b[..3]) + Encode(b[3..])
  {
    hide Group;
    if |b| == 3 {
      assert b[..3] == b;
    }
  }

  /** What the inner loop has read of a quartet: sextets, zero for padding, and how many were padding. */
  datatype Acc = Acc(sextets: seq<nat>, pads: nat)

  function ReadChar(acc: Acc, c: char): Result<Acc, PemError> {
    if c == '=' then Ok(Acc(acc.sextets + [0], acc.pads + 1))
    else if acc.pads != 0 then Err(InvalidEncoding)
    else
      var v :- Sextet(c);
      Ok(Acc(acc.sextets + [v], 0))
  }

  function ReadChars(q: string): (r: Result<Acc, PemError>)
    ensures r.Ok? ==> |r.value.sextets| == |q| && forall i :: 0 <= i < |q| ==> r.value.sextets[i] < 64
  {
    if q == "" then Ok(Acc([], 0))
    else
      var acc :- ReadChars(q[..|q| - 1]);
      ReadChar(acc, q[|q| - 1])
  }

  /** The 24 bits of four sextets. */
  function Join(sextets: seq<nat>): (n: nat)
    requires |sextets| == 4 && forall i :: 0 <= i < 4 ==> sextets[i] < 64
    ensures n < 0x100_0000
  {
    0x4_0000 * sextets[0] + 0x1000 * sextets[1] + 0x40 * sextets[2] + sextets[3]
  }

  function Bytes3(acc: Acc): seq<u8>
    requires |acc.sextets| == 4 && forall i :: 0 <= i < 4 ==> acc.sextets[i] < 64
  {
    hide Join;
    var n := Join(acc.sextets);
    [n / 0x1_0000] + (if acc.pads < 2 then [n / 0x100 % 0x100] else []) + (if acc.pads == 0 then [n % 0x100] else [])
  }

  /** One quartet; padding is allowed in the last only. */
  function Quartet(q: string, isLast: bool): Result<seq<u8>, PemError>
    requires |q| == 4
  {
    var acc :- ReadChars(q);
    if acc.pads > 2 then Err(InvalidEncoding)
    else if !isLast && acc.pads != 0 then Err(InvalidEncoding)
    else Ok(Bytes3(acc))
  }

  function DecodeFrom(s: string): Result<seq<u8>, PemError>
    requires |s| % 4 == 0
  {
    if s == "" then Ok([])
    else
      var bytes :- Quartet(s[..4], |s| == 4);
      var rest :- DecodeFrom(s[4..]);
      Ok(bytes + rest)
  }

  function Decode(s: string): Result<seq<u8>, PemError> {
    if |s| % 4 != 0 then Err(InvalidEncoding) else DecodeFrom(s)
  }

  lemma Refusal(s: string)
    requires |s| % 4 == 0 && s != "" && Quartet(s[..4], |s| == 4).Err?
    ensures DecodeFrom(s) == Err(InvalidEncoding)
  {
    hide ReadChars, Bytes3, DecodeFrom;
    OneRefusal(s[..4]);
    DecodeUnfolds(s);
  }

  lemma DecodeUnfolds(s: string)
    requires |s| % 4 == 0 && s != ""
    ensures Quartet(s[..4], |s| == 4).Err? ==> DecodeFrom(s) == Err(Quartet(s[..4], |s| == 4).error)
  {
    hide Quartet;
  }

  lemma {:induction false} OneRefusal(q: string)
    ensures ReadChars(q).Err? ==> ReadChars(q).error == InvalidEncoding
  {
    if q != "" {
      OneRefusal(q[..|q| - 1]);
    }
  }

  method DecodeBase64(input: string) returns (r: Result<seq<u8>, PemError>)
    ensures r == Decode(input)
  {
    hide Quartet, ReadChars, DecodeFrom, Prefixed;
    if |input| % 4 != 0 {
      return Err(InvalidEncoding);
    }
    var out := [];
    var at := 0;
    PrefixedNone(DecodeFrom(input));
    assert input[0..] == input;
    while at < |input|
      invariant at <= |input| && at % 4 == 0
      invariant DecodeFrom(input) == Prefixed(out, DecodeFrom(input[at..]))
    {
      var isLast := at + 4 == |input|;
      assert input[at..][..4] == input[at..at + 4] && input[at..][4..] == input[at + 4..];
      var bytes := DecodeQuartet(input[at..at + 4], isLast);
      DecodeStep(input[at..]);
      if bytes.Err? {
        PrefixedError(out);
        return Err(InvalidEncoding);
      }
      PrefixedMore(out, bytes.value, DecodeFrom(input[at + 4..]));
      out := out + bytes.value;
      at := at + 4;
    }
    PrefixedEnd(out);
    return Ok(out);
  }

  function Prefixed(out: seq<u8>, r: Result<seq<u8>, PemError>): Result<seq<u8>, PemError> {
    if r.Ok? then Ok(out + r.value) else r
  }

  lemma PrefixedError(out: seq<u8>)
    ensures Prefixed(out, Err(InvalidEncoding)) == Err(InvalidEncoding)
  {
  }

  lemma PrefixedNone(r: Result<seq<u8>, PemError>)
    ensures Prefixed([], r) == r
  {
    if r.Ok? {
      assert [] + r.value == r.value;
    }
  }

  lemma PrefixedMore(a: seq<u8>, b: seq<u8>, r: Result<seq<u8>, PemError>)
    ensures Prefixed(a, Prefixed(b, r)) == Prefixed(a + b, r)
  {
    if r.Ok? {
      assert a + (b + r.value) == a + b + r.value;
    }
  }

  lemma PrefixedEnd(out: seq<u8>)
    ensures Prefixed(out, DecodeFrom("")) == Ok(out)
  {
    assert out + [] == out;
  }

  function Continued(first: Result<seq<u8>, PemError>, rest: string): Result<seq<u8>, PemError>
    requires |rest| % 4 == 0
  {
    if first.Ok? then Prefixed(first.value, DecodeFrom(rest)) else Err(InvalidEncoding)
  }

  lemma DecodeStep(s: string)
    requires |s| % 4 == 0 && s != ""
    ensures DecodeFrom(s) == Continued(Quartet(s[..4], |s| == 4), s[4..])
  {
    hide ReadChars;
    if Quartet(s[..4], |s| == 4).Err? {
      Refusal(s);
    }
  }

  method DecodeQuartet(q: string, isLast: bool) returns (r: Result<seq<u8>, PemError>)
    requires |q| == 4
    ensures r == Quartet(q, isLast)
  {
    hide Sextet;
    var acc := Acc([], 0);
    for i := 0 to 4
      invariant ReadChars(q[..i]) == Ok(acc)
    {
      assert q[..i + 1][..i] == q[..i];
      var next := ReadChar(acc, q[i]);
      if next.Err? {
        CharStops(q, i);
        return Err(InvalidEncoding);
      }
      acc := next.value;
    }
    assert q[..4] == q;
    if acc.pads > 2 {
      return Err(InvalidEncoding);
    }
    if !isLast && acc.pads != 0 {
      return Err(InvalidEncoding);
    }
    return Ok(Bytes3(acc));
  }

  lemma CharStops(q: string, i: nat)
    requires i < |q| && ReadChars(q[..i]).Ok? && ReadChar(ReadChars(q[..i]).value, q[i]).Err?
    ensures ReadChars(q) == Err(InvalidEncoding)
  {
    hide Sextet;
    assert q[..i + 1][..i] == q[..i];
    RefusalStays(q, i + 1);
    OneRefusal(q);
  }

  lemma {:induction false} RefusalStays(q: string, i: nat)
    requires i <= |q| && ReadChars(q[..i]).Err?
    ensures ReadChars(q).Err?
    decreases |q| - i
  {
    if i == |q| {
      assert q[..i] == q;
    } else {
      assert q[..i + 1][..i] == q[..i];
      RefusalStays(q, i + 1);
    }
  }

  /** A quartet, one character at a time. */
  lemma FourChars(q: string)
    requires |q| == 4
    ensures ReadChars(q) ==
      (var r0 := ReadChar(Acc([], 0), q[0]);
       if r0.Err? then Err(InvalidEncoding) else
       var r1 := ReadChar(r0.value, q[1]);
       if r1.Err? then Err(InvalidEncoding) else
       var r2 := ReadChar(r1.value, q[2]);
       if r2.Err? then Err(InvalidEncoding) else ReadChar(r2.value, q[3]))
  {
    hide Sextet, ReadChars;
    NextChar(q, 0);
    NextChar(q, 1);
    NextChar(q, 2);
    NextChar(q, 3);
    assert q[..4] == q && q[..0] == "";
    NoChars();
    OneRefusal(q[..1]);
    OneRefusal(q[..2]);
    OneRefusal(q[..3]);
  }

  lemma NoChars()
    ensures ReadChars("") == Ok(Acc([], 0))
  {
  }

  lemma NextChar(q: string, i: nat)
    requires i < |q|
    ensures ReadChars(q[..i + 1]) == if ReadChars(q[..i]).Ok? then ReadChar(ReadChars(q[..i]).value, q[i]) else ReadChars(q[..i])
  {
    hide Sextet;
    assert q[..i + 1][..i] == q[..i];
  }

  /** What the characters of a group read as. */
  lemma GroupReads(b: seq<u8>)
    requires 1 <= |b| <= 3
    ensures ReadChars(Group(b)) == Ok(Acc([Sextet0(Pack(b)), Sextet1(Pack(b)), if |b| > 1 then Sextet2(Pack(b)) else 0,
                                           if |b| > 2 then Sextet3(Pack(b)) else 0], 3 - |b|))
  {
    hide Letter, Sextet, ReadChars, Pack, Sextet0, Sextet1, Sextet2, Sextet3;
    var n := Pack(b);
    SextetBounds(n);
    FourChars(Group(b));
    var (s2, s3) := (if |b| > 1 then Sextet2(n) else 0, if |b| > 2 then Sextet3(n) else 0);
    assert [] + [Sextet0(n)] + [Sextet1(n)] + [s2] + [s3] == [Sextet0(n), Sextet1(n), s2, s3];
    SextetRoundTrip(Sextet0(n), 'A');
    SextetRoundTrip(Sextet1(n), 'A');
    SextetRoundTrip(Sextet2(n), 'A');
    SextetRoundTrip(Sextet3(n), 'A');
  }

  /** A group decodes to its bytes. */
  lemma GroupBack(b: seq<u8>, isLast: bool)
    requires 1 <= |b| <= 3 && (|b| < 3 ==> isLast)
    ensures Quartet(Group(b), isLast) == Ok(b)
  {
    hide ReadChars, Group, Join, Pack, Sextet0, Sextet1, Sextet2, Sextet3;
    GroupReads(b);
    var acc := ReadChars(Group(b)).value;
    Rejoined(b);
    Unpacked(b);
    assert Bytes3(acc) == b;
  }

  lemma Rejoined(b: seq<u8>)
    requires 1 <= |b| <= 3
    ensures var n := Pack(b);
            var s := [Sextet0(n), Sextet1(n), if |b| > 1 then Sextet2(n) else 0, if |b| > 2 then Sextet3(n) else 0];
            (forall i :: 0 <= i < 4 ==> s[i] < 64) && Join(s) == n
  {
    hide Pack;
    var n := Pack(b);
    Sextets(n);
  }

  lemma Sextets(n: nat)
    requires n < 0x100_0000
    ensures 0x4_0000 * Sextet0(n) + 0x1000 * Sextet1(n) + 0x40 * Sextet2(n) + Sextet3(n) == n
    ensures n % 0x100 == 0 ==> Sextet3(n) == 0
    ensures n % 0x1_0000 == 0 ==> Sextet2(n) == 0
  {
    hide Sextet0, Sextet1, Sextet2, Sextet3;
    SextetSum(n);
    NoLastSextet(n);
    NoThirdSextet(n);
  }

  lemma SextetSum(n: nat)
    requires n < 0x100_0000
    ensures 0x4_0000 * Sextet0(n) + 0x1000 * Sextet1(n) + 0x40 * Sextet2(n) + Sextet3(n) == n
  {
    hide Sextet0, Sextet1, Sextet2, Sextet3;
    var a, c := n / 0x40, n / 0x1000;
    LastStep(n);
    ThirdStep(n);
    SecondStep(n);
  }

  lemma LastStep(n: nat)
    ensures n == 0x40 * (n / 0x40) + Sextet3(n)
  {
  }

  lemma ThirdStep(n: nat)
    ensures n / 0x40 == 0x40 * (n / 0x1000) + Sextet2(n)
  {
    var q := n / 0x40;
    QuotientIs(n, 0x1000, q / 0x40, 0x40 * (q % 0x40) + n % 0x40);
  }

  lemma SecondStep(n: nat)
    requires n < 0x100_0000
    ensures n / 0x1000 == 0x40 * Sextet0(n) + Sextet1(n)
  {
    var q := n / 0x1000;
    QuotientIs(n, 0x4_0000, q / 0x40, 0x1000 * (q % 0x40) + n % 0x1000);
    QuotientIs(q / 0x40, 64, 0, q / 0x40);
  }

  lemma NoLastSextet(n: nat)
    ensures n % 0x100 == 0 ==> Sextet3(n) == 0
  {
    if n % 0x100 == 0 {
      var q := n / 0x100;
      QuotientIs(n, 64, 4 * q, 0);
    }
  }

  lemma NoThirdSextet(n: nat)
    ensures n % 0x1_0000 == 0 ==> Sextet2(n) == 0
  {
    if n % 0x1_0000 == 0 {
      var q := n / 0x1_0000;
      QuotientIs(n, 0x40, 0x400 * q, 0);
      QuotientIs(0x400 * q, 64, 16 * q, 0);
    }
  }

  lemma Unpacked(b: seq<u8>)
    requires 1 <= |b| <= 3
    ensures Pack(b) / 0x1_0000 == b[0]
    ensures |b| > 1 ==> Pack(b) / 0x100 % 0x100 == b[1]
    ensures |b| > 2 ==> Pack(b) % 0x100 == b[2]
  {
    var b0: int, b1: int, b2: int := b[0], if |b| > 1 then b[1] else 0, if |b| > 2 then b[2] else 0;
    QuotientIs(Pack(b), 0x100, 0x100 * b0 + b1, b2);
    QuotientIs(0x100 * b0 + b1, 0x100, b0, b1);
    QuotientIs(Pack(b), 0x1_0000, b0, 0x100 * b1 + b2);
  }

  /** Every byte string comes back from its base64 text. */
  lemma {:induction false} Base64RoundTrip(b: seq<u8>)
    ensures Decode(Encode(b)) == Ok(b)
  {
    hide Group, Quartet;
    EncodeLength(b);
    if b == [] {
    } else if |b| <= 3 {
      GroupBack(b, true);
      assert Encode(b)[..4] == Encode(b) && Encode(b)[4..] == "";
      DecodeStep(Encode(b));
      PrefixedEnd(b);
    } else {
      Base64RoundTrip(b[3..]);
      EncodeLength(b[3..]);
      GroupBack(b[..3], false);
      var s := Encode(b);
      assert s[..4] == Group(b[..3]) && s[4..] == Encode(b[3..]);
      assert b == b[..3] + b[3..];
    }
  }

  /** The bits a short last group drops are zero. */
  predicate Clear(acc: Acc)
    requires |acc.sextets| == 4
  {
    (acc.pads == 2 ==> acc.sextets[1] % 16 == 0) && (acc.pads == 1 ==> acc.sextets[2] % 4 == 0)
  }

  /** What an accepted quartet looks like. */
  lemma QuartetShape(q: string, isLast: bool)
    requires |q| == 4 && Quartet(q, isLast).Ok?
    ensures var acc := ReadChars(q).value;
            && acc.pads <= 2 && acc.sextets[0] < 64 && acc.sextets[1] < 64 && acc.sextets[2] < 64 && acc.sextets[3] < 64
            && Letter(acc.sextets[0]) == q[0] && Letter(acc.sextets[1]) == q[1]
            && (if acc.pads < 2 then Letter(acc.sextets[2]) == q[2] else q[2] == '=' && acc.sextets[2] == 0)
            && (if acc.pads < 1 then Letter(acc.sextets[3]) == q[3] else q[3] == '=' && acc.sextets[3] == 0)
  {
    hide Letter, Sextet, ReadChars, Bytes3;
    FourChars(q);
    SextetRoundTrip(64, q[0]);
    SextetRoundTrip(64, q[1]);
    SextetRoundTrip(64, q[2]);
    SextetRoundTrip(64, q[3]);
  }

  /** The number packed from a decoded quartet: its 24 bits with the dropped ones cleared. */
  lemma Repacked(acc: Acc)
    requires |acc.sextets| == 4 && (forall i :: 0 <= i < 4 ==> acc.sextets[i] < 64) && acc.pads <= 2
    requires (acc.pads > 0 ==> acc.sextets[3] == 0) && (acc.pads > 1 ==> acc.sextets[2] == 0)
    ensures |Bytes3(acc)| == 3 - acc.pads
    ensures var n := Pack(Bytes3(acc));
            && Sextet0(n) == acc.sextets[0]
            && Sextet1(n) == (if acc.pads == 2 then acc.sextets[1] - acc.sextets[1] % 16 else acc.sextets[1])
            && (acc.pads < 2 ==> Sextet2(n) == (if acc.pads == 1 then acc.sextets[2] - acc.sextets[2] % 4 else acc.sextets[2]))
            && (acc.pads < 1 ==> Sextet3(n) == acc.sextets[3])
  {
    hide Join, Pack, Sextet0, Sextet1, Sextet2, Sextet3;
    var n := Join(acc.sextets);
    var (s0, s1, s2, s3) := (acc.sextets[0], acc.sextets[1], acc.sextets[2], acc.sextets[3]);
    PackedBack(acc);
    if acc.pads == 0 {
      Split(s0, s1, s2, s3);
    } else if acc.pads == 1 {
      LowTwo(s0, s1, s2);
      Split(s0, s1, s2 - s2 % 4, 0);
    } else {
      LowFour(s0, s1);
      Split(s0, s1 - s1 % 16, 0, 0);
    }
  }

  lemma PackedBack(acc: Acc)
    requires |acc.sextets| == 4 && (forall i :: 0 <= i < 4 ==> acc.sextets[i] < 64) && acc.pads <= 2
    ensures |Bytes3(acc)| == 3 - acc.pads
    ensures var n := 0x4_0000 * acc.sextets[0] + 0x1000 * acc.sextets[1] + 0x40 * acc.sextets[2] + acc.sextets[3];
            Pack(Bytes3(acc)) == if acc.pads == 0 then n else if acc.pads == 1 then n - n % 0x100 else n - n % 0x1_0000
  {
    var n := Join(acc.sextets);
    var q := n / 0x100;
    QuotientIs(n, 0x1_0000, q / 0x100, 0x100 * (q % 0x100) + n % 0x100);
  }

  lemma LowTwo(s0: nat, s1: nat, s2: nat)
    ensures (0x4_0000 * s0 + 0x1000 * s1 + 0x40 * s2) % 0x100 == 0x40 * (s2 % 4)
  {
    QuotientIs(0x4_0000 * s0 + 0x1000 * s1 + 0x40 * s2, 0x100, 0x400 * s0 + 0x10 * s1 + s2 / 4, 0x40 * (s2 % 4));
  }

  lemma LowFour(s0: nat, s1: nat)
    ensures (0x4_0000 * s0 + 0x1000 * s1) % 0x1_0000 == 0x1000 * (s1 % 16)
  {
    QuotientIs(0x4_0000 * s0 + 0x1000 * s1, 0x1_0000, 4 * s0 + s1 / 16, 0x1000 * (s1 % 16));
  }

  lemma Split(s0: nat, s1: nat, s2: nat, s3: nat)
    requires s0 < 64 && s1 < 64 && s2 < 64 && s3 < 64
    ensures var n := 0x4_0000 * s0 + 0x1000 * s1 + 0x40 * s2 + s3;
            Sextet0(n) == s0 && Sextet1(n) == s1 && Sextet2(n) == s2 && Sextet3(n) == s3
  {
    var n := 0x4_0000 * s0 + 0x1000 * s1 + 0x40 * s2 + s3;
    QuotientIs(n, 0x40, 0x1000 * s0 + 0x40 * s1 + s2, s3);
    QuotientIs(0x1000 * s0 + 0x40 * s1 + s2, 64, 0x40 * s0 + s1, s2);
    QuotientIs(n, 0x1000, 0x40 * s0 + s1, 0x40 * s2 + s3);
    QuotientIs(0x40 * s0 + s1, 64, s0, s1);
    QuotientIs(n, 0x4_0000, s0, 0x1000 * s1 + 0x40 * s2 + s3);
    QuotientIs(s0, 64, 0, s0);
  }

  lemma LettersDiffer(v: nat, w: nat)
    requires v < 64 && w < 64
    ensures Letter(v) == Letter(w) <==> v == w
  {
  }

  /** An accepted quartet is the group of its bytes exactly when its dropped bits are zero. */
  lemma QuartetCanonicalIff(q: string, isLast: bool)
    requires |q| == 4 && Quartet(q, isLast).Ok?
    ensures var bytes := Quartet(q, isLast).value;
            1 <= |bytes| <= 3 && (Group(bytes) == q <==> Clear(ReadChars(q).value))
    ensures ReadChars(q).value.pads == 3 - |Quartet(q, isLast).value|
  {
    hide Letter, ReadChars, Bytes3, Pack, Sextet0, Sextet1, Sextet2, Sextet3;
    QuartetShape(q, isLast);
    var acc := ReadChars(q).value;
    Repacked(acc);
    var n := Pack(Bytes3(acc));
    SextetBounds(n);
    LettersDiffer(Sextet0(n), acc.sextets[0]);
    LettersDiffer(Sextet1(n), acc.sextets[1]);
    LettersDiffer(Sextet2(n), acc.sextets[2]);
    LettersDiffer(Sextet3(n), acc.sextets[3]);
    var g := Group(Bytes3(acc));
    assert g == q <==> g[0] == q[0] && g[1] == q[1] && g[2] == q[2] && g[3] == q[3];
  }

  /** The dropped bits of the last quartet are zero. */
  predicate TailClear(s: string) {
    |s| >= 4 && ReadChars(s[|s| - 4..]).Ok? ==> Clear(ReadChars(s[|s| - 4..]).value)
  }

  /** Accepted text re-encodes to itself exactly when its dropped bits are zero; otherwise it is a second spelling. */
  lemma {:induction false} CanonicalIff(s: string)
    requires Decode(s).Ok?
    ensures Encode(Decode(s).value) == s <==> TailClear(s)
    decreases |s|
  {
    hide Group, Quartet, ReadChars, Clear;
    if s != "" {
      DecodeStep(s);
      var (q, isLast) := (s[..4], |s| == 4);
      var bytes := Quartet(q, isLast).value;
      QuartetCanonicalIff(q, isLast);
      if isLast {
        assert s[4..] == "" && q == s && s[|s| - 4..] == s;
        PrefixedEnd(bytes);
        EncodeShort(bytes);
        QuartetIs(q, isLast);
      } else {
        InnerQuartet(q);
        var rest := Decode(s[4..]).value;
        CanonicalIff(s[4..]);
        assert s[|s| - 4..] == s[4..][|s[4..]| - 4..];
        assert Decode(s).value == bytes + rest;
        EncodeSplits(bytes + rest);
        assert (bytes + rest)[..3] == bytes && (bytes + rest)[3..] == rest;
        assert s == q + s[4..];
        GroupFixed(q, bytes);
      }
    }
  }

  lemma QuartetIs(q: string, isLast: bool)
    requires |q| == 4 && Quartet(q, isLast).Ok?
    ensures ReadChars(q).Ok?
  {
  }

  lemma InnerQuartet(q: string)
    requires |q| == 4 && Quartet(q, false).Ok?
    ensures |Quartet(q, false).value| == 3 && Group(Quartet(q, false).value) == q
  {
    hide ReadChars, Group, Join;
    QuartetCanonicalIff(q, false);
  }

  lemma GroupFixed(q: string, bytes: seq<u8>)
    requires |bytes| == 3 && Group(bytes) == q
    ensures |q| == 4
  {
  }

  /** Two spellings of one byte. */
  lemma TwoSpellings()
    ensures Decode("QQ==") == Decode("QR==") == Ok([0x41])
  {
    OneSpelling("QQ==", 'Q', 16);
    OneSpelling("QR==", 'R', 17);
  }

  lemma OneSpelling(s: string, c: char, v: nat)
    requires s == ['Q', c, '=', '='] && Sextet(c) == Ok(v) && 16 <= v < 32
    ensures Decode(s) == Ok([0x41])
  {
    hide ReadChars, DecodeFrom;
    FourChars(s);
    assert [] + [16] + [v] + [0] + [0] == [16, v, 0, 0];
    assert ReadChars(s) == Ok(Acc([16, v, 0, 0], 2));
    assert Bytes3(Acc([16, v, 0, 0], 2)) == [0x41];
    assert s[..4] == s && s[4..] == "";
    DecodeStep(s);
    PrefixedEnd([0x41]);
  }

  // The text, character by character

  /** Table 1 of RFC 4648: three runs of consecutive characters, then plus and slash; and the reader inverts it. */
  lemma AlphabetIs(v: nat)
    ensures Letter(0) == 'A' && Letter(25) == 'Z' && Letter(26) == 'a' && Letter(51) == 'z' && Letter(52) == '0' && Letter(61) == '9'
    ensures Letter(62) == '+' && Letter(63) == '/'
    ensures v < 61 && v != 25 && v != 51 ==> Letter(v + 1) as int == Letter(v) as int + 1
    ensures v < 64 ==> Sextet(Letter(v)) == Ok(v)
  {
  }

  /** A group of three bytes is four letters that spell, in base 64, the number the bytes spell in base 256; shorter groups are padded. */
  lemma GroupIs(b: seq<u8>)
    requires 1 <= |b| <= 3
    ensures var (q, b1, b2) := (Group(b), if |b| > 1 then b[1] as int else 0, if |b| > 2 then b[2] as int else 0);
            && Sextet(q[0]).Ok? && Sextet(q[1]).Ok?
            && (if |b| > 1 then Sextet(q[2]).Ok? else q[2] == '=') && (if |b| > 2 then Sextet(q[3]).Ok? else q[3] == '=')
            && 0x4_0000 * Sextet(q[0]).value + 0x1000 * Sextet(q[1]).value + (if |b| > 1 then 0x40 * Sextet(q[2]).value else 0)
               + (if |b| > 2 then Sextet(q[3]).value else 0) == 0x1_0000 * (b[0] as int) + 0x100 * b1 + b2
  {
    hide Letter, Sextet, Sextet0, Sextet1, Sextet2, Sextet3;
    var n := Pack(b);
    SextetBounds(n);
    SextetSum(n);
    ShortSextets(n);
    SextetRoundTrip(Sextet0(n), 'A');
    SextetRoundTrip(Sextet1(n), 'A');
    SextetRoundTrip(Sextet2(n), 'A');
    SextetRoundTrip(Sextet3(n), 'A');
  }

  lemma ShortSextets(n: nat)
    ensures n % 0x100 == 0 ==> Sextet3(n) == 0
    ensures n % 0x1_0000 == 0 ==> Sextet2(n) == 0
  {
    hide Sextet2, Sextet3;
    NoLastSextet(n);
    NoThirdSextet(n);
  }

  /** Group k of the text encodes bytes 3k to 3k + 2. */
  lemma {:induction false} GroupAt(b: seq<u8>, k: nat)
    requires 3 * k < |b|
    ensures 4 * k + 4 <= |Encode(b)|
    ensures Encode(b)[4 * k..4 * k + 4] == Group(b[3 * k..if 3 * k + 3 < |b| then 3 * k + 3 else |b|])
  {
    hide Group, Encode;
    if |b| <= 3 {
      EncodeShort(b);
      assert b[0..|b|] == b && Encode(b)[0..4] == Encode(b);
    } else {
      EncodeSplits(b);
      var (head, rest) := (Group(b[..3]), Encode(b[3..]));
      if k == 0 {
        assert (head + rest)[0..4] == head;
      } else {
        GroupAt(b[3..], k - 1);
        var end := if 3 * k + 3 < |b| then 3 * k + 3 else |b|;
        AfterThree(b, 3 * k, end);
        AfterHead(head, rest, 4 * k - 4, 4 * k);
      }
    }
  }

  lemma AfterThree(b: seq<u8>, i: nat, j: nat)
    requires 3 <= i <= j <= |b|
    ensures b[3..][i - 3..j - 3] == b[i..j]
  {
  }

  lemma AfterHead(head: string, rest: string, i: nat, j: nat)
    requires |head| == 4 && i <= j <= |rest|
    ensures (head + rest)[i + 4..j + 4] == rest[i..j]
  {
  }
}
