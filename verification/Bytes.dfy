/** Big-endian byte strings of fixed length. */
module Bytes {
  import Arith
  import opened Words

  /** The low n bytes of x, most significant first. */
  function ToBe(x: nat, n: nat): (s: seq<u8>)
    ensures |s| == n
  {
    if n == 0 then [] else ToBe(x / 256, n - 1) + [x % 256]
  }

  function OfBe(s: seq<u8>): nat {
    if s == [] then 0 else 256 * OfBe(s[..|s| - 1]) + s[|s| - 1]
  }

  function Power256(n: nat): (p: nat)
    ensures p > 0
  {
    if n == 0 then 1 else 256 * Power256(n - 1)
  }

  lemma Powers256()
    ensures Power256(1) == 0x100 && Power256(2) == 0x1_0000 && Power256(3) == 0x100_0000 && Power256(4) == 0x1_0000_0000
    ensures Power256(6) == 0x1_0000_0000_0000 && Power256(8) == 0x1_0000_0000_0000_0000
  {
    assert Power256(2) == 0x1_0000;
    assert Power256(4) == 0x1_0000_0000;
    assert Power256(6) == 0x1_0000_0000_0000;
  }

  /** Numbers that fit come back. */
  lemma {:induction false} BeRoundTrip(x: nat, n: nat)
    requires x < Power256(n)
    ensures OfBe(ToBe(x, n)) == x
  {
    if n > 0 {
      BeRoundTrip(x / 256, n - 1);
      assert ToBe(x, n)[..n - 1] == ToBe(x / 256, n - 1);
    }
  }

  /** Any byte string is the encoding of its value, and the value fits. */
  lemma {:induction false} BeCanonical(s: seq<u8>)
    ensures ToBe(OfBe(s), |s|) == s && OfBe(s) < Power256(|s|)
  {
    if s != [] {
      var front, last := s[..|s| - 1], s[|s| - 1];
      BeCanonical(front);
      assert OfBe(s) / 256 == OfBe(front) && OfBe(s) % 256 == last;
      assert s == front + [last];
    }
  }

  /** Equal encodings of numbers that fit are encodings of the same number. */
  lemma BeInjective(x: nat, y: nat, n: nat)
    requires x < Power256(n) && y < Power256(n) && ToBe(x, n) == ToBe(y, n)
    ensures x == y
  {
    BeRoundTrip(x, n);
    BeRoundTrip(y, n);
  }

  /** Byte i weighs 256 to the number of bytes after it. */
  lemma {:induction false} BeDigit(s: seq<u8>, i: nat)
    requires i < |s|
    ensures s[i] == OfBe(s) / Power256(|s| - 1 - i) % 256
  {
    var (front, last, k) := (s[..|s| - 1], s[|s| - 1], |s| - 1 - i);
    assert OfBe(s) / 256 == OfBe(front) && OfBe(s) % 256 == last;
    if k == 0 {
      assert OfBe(s) / 1 == OfBe(s);
    } else {
      BeDigit(front, i);
      DivideTwice(OfBe(s), Power256(k - 1));
    }
  }

  lemma DivideTwice(x: nat, p: nat)
    requires 0 < p
    ensures x / (256 * p) == x / 256 / p
  {
    hide Arith.Mul, Arith.Div, Arith.Mod;
    Arith.DivDiv(x, 256, p);
    Arith.DivIs(x, 256);
    Arith.DivIs(x / 256, p);
    Product256(p);
    Arith.DivIs(x, 256 * p);
  }

  lemma Product256(p: int)
    ensures Arith.Mul(256, p) == 256 * p
  {
  }

  function Zeros(j: nat): (z: seq<u8>)
    ensures |z| == j
  {
    seq(j, _ => 0)
  }

  lemma {:induction false} BeConcat(a: seq<u8>, b: seq<u8>)
    ensures OfBe(a + b) == OfBe(a) * Power256(|b|) + OfBe(b)
  {
    if b == [] {
      assert a + b == a;
    } else {
      var (front, last) := (b[..|b| - 1], b[|b| - 1]);
      BeConcat(a, front);
      assert (a + b)[..|a + b| - 1] == a + front;
      Reweigh(OfBe(a), Power256(|front|), OfBe(front), last);
    }
  }

  lemma Reweigh(x: nat, p: nat, y: nat, b: nat)
    ensures 256 * (x * p + y) + b == x * (256 * p) + (256 * y + b)
  {
  }
}
