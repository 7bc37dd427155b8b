/** Single bits of the bitwise operators. */
module Bits {
  import opened Arith
  import opened Words

  /** Bits by halving, as the operators recurse. */
  lemma BitHalves(x: nat, t: nat)
    ensures BitAt(x, 0) == x % 2
    ensures BitAt(x, t + 1) == BitAt(x / 2, t)
  {
    hide Mul, Div, Mod;
    DivisionByOne(x);
    var p := Pow2(t);
    DivMod(x / 2, p);
    var d, r := Div(x / 2, p), Mod(x / 2, p);
    Distrib(d, p, p);
    DivModUnique(x, 2 * p, d, 2 * r + x % 2);
  }

  lemma DivisionByOne(x: int)
    ensures Div(x, Pow2(0)) == x
  {
  }

  lemma {:induction false} BitOr(a: nat, b: nat, t: nat)
    ensures BitAt(Or(a, b), t) == Max(BitAt(a, t), BitAt(b, t))
    decreases t
  {
    hide BitAt;
    NoBits(t);
    if t == 0 {
      BitHalves(a, 0);
      BitHalves(b, 0);
      BitHalves(Or(a, b), 0);
    } else {
      BitHalves(a, t - 1);
      BitHalves(b, t - 1);
      BitHalves(Or(a, b), t - 1);
      BitOr(a / 2, b / 2, t - 1);
    }
  }

  lemma {:induction false} NoBits(t: nat)
    ensures BitAt(0, t) == 0
  {
    BitHalves(0, 0);
    if t > 0 {
      BitHalves(0, t - 1);
      NoBits(t - 1);
    }
  }

  lemma {:induction false} BitOfPower(d: nat, t: nat)
    ensures BitAt(Pow2(d), t) == if t == d then 1 else 0
  {
    hide BitAt;
    BitHalves(Pow2(d), 0);
    if t > 0 {
      BitHalves(Pow2(d), t - 1);
      if d > 0 {
        BitOfPower(d - 1, t - 1);
      } else {
        NoBits(t - 1);
      }
    }
  }

  /** Testing a bit with a one-bit mask. */
  lemma {:induction false} BitTest(x: nat, d: nat)
    ensures And(x, Pow2(d)) != 0 <==> BitAt(x, d) == 1
  {
    hide BitAt;
    BitHalves(x, 0);
    if d > 0 {
      BitHalves(x, d - 1);
      BitTest(x / 2, d - 1);
      NoBits(d);
    }
  }

  /** A left shift by k moves bit t - k to bit t. */
  lemma {:induction false} BitShl(x: nat, k: nat, t: nat)
    ensures BitAt(Shl(x, k), t) == if t < k then 0 else BitAt(x, t - k)
  {
    hide BitAt, Mul;
    if k == 0 {
      MulUnit(x);
    } else {
      ShlHalves(x, k);
      BitHalves(Shl(x, k), 0);
      if t > 0 {
        BitHalves(Shl(x, k), t - 1);
        BitShl(x, k - 1, t - 1);
      }
    }
  }

  lemma ShlHalves(x: nat, k: nat)
    requires 0 < k
    ensures Shl(x, k) == 2 * Shl(x, k - 1)
  {
    hide Mul;
    Distrib(x, Pow2(k - 1), Pow2(k - 1));
  }

  /** Truncation to n bits keeps the bits below n. */
  lemma {:induction false} BitTruncated(x: nat, n: nat, t: nat)
    requires t < n
    ensures BitAt(Mod(x, Pow2(n)), t) == BitAt(x, t)
  {
    hide BitAt, Mul, Div, Mod;
    var p := Pow2(n - 1);
    DivMod(x / 2, p);
    var d, r := Div(x / 2, p), Mod(x / 2, p);
    Distrib(d, p, p);
    DivModUnique(x, 2 * p, d, 2 * r + x % 2);
    BitHalves(x, 0);
    BitHalves(Mod(x, Pow2(n)), 0);
    if t > 0 {
      BitHalves(x, t - 1);
      BitHalves(Mod(x, Pow2(n)), t - 1);
      BitTruncated(x / 2, n - 1, t - 1);
    }
  }

  lemma Pow2Is64()
    ensures Pow2(64) == 0x1_0000_0000_0000_0000
  {
    hide Mul;
    Pow2Is32();
    Pow2Add(32, 32);
    WordSquare();
  }

  lemma WordSquare()
    ensures Mul(B, B) == 0x1_0000_0000_0000_0000
  {
  }

  function XorByte(a: u8, b: u8): u8 {
    hide Xor;
    SmallPowers();
    XorBound(a, b, 8);
    Xor(a, b)
  }

  lemma XorByteTwice(a: u8, b: u8)
    ensures XorByte(XorByte(a, b), b) == a
  {
    hide Xor;
    XorTwice(a, b);
  }

  lemma {:induction false} XorTwice(a: nat, b: nat)
    ensures Xor(Xor(a, b), b) == a
    decreases a + b
  {
    if a == 0 || b == 0 {
      XorZero(a, b);
      XorZero(b, b);
    } else {
      XorTwice(a / 2, b / 2);
      XorHalves(Xor(a, b), b);
      XorHalves(a, b);
    }
  }

  lemma XorHalves(a: nat, b: nat)
    ensures Xor(a, b) / 2 == Xor(a / 2, b / 2) && Xor(a, b) % 2 == (a + b) % 2
  {
  }

  /** Exclusive or with one value is injective. */
  lemma {:induction false} XorCancels(a: nat, b: nat, c: nat)
    requires Xor(a, b) == Xor(a, c)
    ensures b == c
    decreases a + b + c
  {
    hide Xor;
    if a == 0 {
      ZeroXor(b);
      ZeroXor(c);
    } else {
      XorHalves(a, b);
      XorHalves(a, c);
      XorCancels(a / 2, b / 2, c / 2);
      ParityCancels(a, b, c);
    }
  }

  lemma ZeroXor(b: nat)
    ensures Xor(0, b) == b
  {
  }

  lemma ParityCancels(a: nat, b: nat, c: nat)
    requires (a + b) % 2 == (a + c) % 2
    ensures b % 2 == c % 2
  {
  }

  lemma {:induction false} BitXor(a: nat, b: nat, t: nat)
    ensures BitAt(Xor(a, b), t) == (BitAt(a, t) + BitAt(b, t)) % 2
    decreases t
  {
    hide BitAt, Xor;
    XorHalves(a, b);
    BitHalves(a, 0);
    BitHalves(b, 0);
    BitHalves(Xor(a, b), 0);
    if t > 0 {
      BitHalves(a, t - 1);
      BitHalves(b, t - 1);
      BitHalves(Xor(a, b), t - 1);
      BitXor(a / 2, b / 2, t - 1);
    }
  }

  lemma {:induction false} BitAnd(a: nat, b: nat, t: nat)
    ensures BitAt(And(a, b), t) == Min(BitAt(a, t), BitAt(b, t))
    decreases t
  {
    hide BitAt;
    NoBits(t);
    if t == 0 {
      BitHalves(a, 0);
      BitHalves(b, 0);
      BitHalves(And(a, b), 0);
    } else {
      BitHalves(a, t - 1);
      BitHalves(b, t - 1);
      BitHalves(And(a, b), t - 1);
      BitAnd(a / 2, b / 2, t - 1);
    }
  }

  /** Exclusive or works on the low k bits and the rest apart. */
  lemma {:induction false} XorSplit(a: nat, b: nat, c: nat, d: nat, k: nat)
    requires c < Pow2(k) && d < Pow2(k)
    ensures 0 <= Mul(a, Pow2(k)) && 0 <= Mul(b, Pow2(k))
    ensures Xor(Mul(a, Pow2(k)) + c, Mul(b, Pow2(k)) + d) == Mul(Xor(a, b), Pow2(k)) + Xor(c, d)
  {
    hide Mul, Xor, Pow2;
    MulSign(a, Pow2(k));
    MulSign(b, Pow2(k));
    if k == 0 {
      Pow2Zero();
      MulUnit(a);
      MulUnit(b);
      MulUnit(Xor(a, b));
      ZeroXor(0);
    } else {
      var p := Pow2(k - 1);
      Pow2Twice(k);
      XorSplit(a, b, c / 2, d / 2, k - 1);
      Distrib(a, p, p);
      Distrib(b, p, p);
      Distrib(Xor(a, b), p, p);
      MulSign(a, p);
      MulSign(b, p);
      XorDoubled(Mul(a, p), Mul(b, p), c, d, Mul(Xor(a, b), p));
    }
  }

  lemma Pow2Twice(k: nat)
    requires 0 < k
    ensures Pow2(k) == 2 * Pow2(k - 1)
  {
  }

  lemma XorDoubled(m: nat, n: nat, c: nat, d: nat, high: int)
    requires Xor(m + c / 2, n + d / 2) == high + Xor(c / 2, d / 2)
    ensures Xor(2 * m + c, 2 * n + d) == 2 * high + Xor(c, d)
  {
    hide Xor;
    XorHalves(2 * m + c, 2 * n + d);
    XorHalves(c, d);
    HalfAndParity(m, c);
    HalfAndParity(n, d);
    SameParity(m, n, c, d);
  }

  lemma HalfAndParity(m: nat, c: nat)
    ensures (2 * m + c) / 2 == m + c / 2
  {
  }

  lemma SameParity(m: nat, n: nat, c: nat, d: nat)
    ensures (2 * m + c + (2 * n + d)) % 2 == (c + d) % 2
  {
  }

  /** Byte by byte. */
  lemma XorBytes(a: nat, b: nat)
    ensures Xor(a, b) / 256 == Xor(a / 256, b / 256) && Xor(a, b) % 256 == XorByte(a % 256, b % 256)
  {
    hide Xor, Mul;
    SmallPowers();
    XorSplit(a / 256, b / 256, a % 256, b % 256, 8);
    XorBound(a % 256, b % 256, 8);
    Times256(a / 256);
    Times256(b / 256);
    Times256(Xor(a / 256, b / 256));
    QuotientIs(Xor(a, b), 256, Xor(a / 256, b / 256), Xor(a % 256, b % 256));
  }

  lemma Times256(x: int)
    ensures Mul(x, 256) == 256 * x
  {
  }
}
