/** Machine words as ranges of `int`, and the bitwise operators the source applies to them. */
module Words {
  import opened Arith

  const B: int := 0x1_0000_0000

  type u8 = x: int | 0 <= x < 0x100
  type u16 = x: int | 0 <= x < 0x1_0000
  type u32 = x: int | 0 <= x < 0x1_0000_0000
  type u64 = x: int | 0 <= x < 0x1_0000_0000_0000_0000
  type i64 = x: int | -0x8000_0000_0000_0000 <= x < 0x8000_0000_0000_0000

  function Max(a: int, b: int): int {
    if a < b then b else a
  }

  function Min(a: int, b: int): int {
    if a < b then a else b
  }

  function Pow2(k: nat): (p: nat)
    ensures 0 < p
  {
    if k == 0 then 1 else 2 * Pow2(k - 1)
  }

  /** Bitwise operators on naturals, least significant bit first. */
  function Or(a: nat, b: nat): nat
    decreases a + b
  {
    if a == 0 then b else if b == 0 then a else 2 * Or(a / 2, b / 2) + Max(a % 2, b % 2)
  }

  function And(a: nat, b: nat): nat {
    if a == 0 || b == 0 then 0 else 2 * And(a / 2, b / 2) + Min(a % 2, b % 2)
  }

  function Xor(a: nat, b: nat): nat
    decreases a + b
  {
    if a == 0 then b else if b == 0 then a else 2 * Xor(a / 2, b / 2) + (a + b) % 2
  }

  /** `v << k` and `v >> k` on a 32-bit word. */
  function Shl32(v: u32, k: nat): u32 {
    Mul(v, Pow2(k)) % B
  }

  function Shr32(v: u32, k: nat): u32 {
    DivMod(v, Pow2(k));
    Div(v, Pow2(k))
  }

  lemma {:induction false} Pow2Add(a: nat, b: nat)
    ensures Mul(Pow2(a), Pow2(b)) == Pow2(a + b)
  {
    hide Mul;
    if a == 0 {
      MulUnit(Pow2(b));
    } else {
      Pow2Add(a - 1, b);
      Distrib(Pow2(b), Pow2(a - 1), Pow2(a - 1));
    }
  }

  lemma Pow2Is32()
    ensures Pow2(31) == 0x8000_0000 && Pow2(32) == B
  {
    Pow2Add(8, 8);
    assert Pow2(8) == 0x100;
    Pow2Add(16, 16);
  }

  lemma {:induction false} Pow2Monotone(a: nat, b: nat)
    requires a <= b
    ensures Pow2(a) <= Pow2(b)
  {
    if a < b {
      Pow2Monotone(a, b - 1);
    }
  }

  lemma Pow2Zero()
    ensures Pow2(0) == 1
  {
  }

  /** The number of significant bits. */
  function BitLen(x: nat): (n: nat)
    ensures x < Pow2(n)
    ensures 0 < x ==> 0 < n && Pow2(n - 1) <= x
  {
    if x == 0 then 0 else 1 + BitLen(x / 2)
  }

  lemma {:induction false} BitLenMonotone(x: nat, n: nat)
    requires x < Pow2(n)
    ensures BitLen(x) <= n
  {
    if x != 0 {
      BitLenMonotone(x / 2, n - 1);
    }
  }

  function LeadingZeros(x: u32): (z: nat)
    ensures z <= 32 && BitLen(x) == 32 - z
    ensures 0 < x ==> z < 32
  {
    Pow2Is32();
    BitLenMonotone(x, 32);
    32 - BitLen(x)
  }

  /** Bit fields that do not overlap: `(h << k) | l` is a sum when `l` has at most `k` bits. */
  lemma {:induction false} OrDisjoint(h: nat, l: nat, k: nat)
    requires l < Pow2(k)
    ensures 0 <= Mul(h, Pow2(k)) && Or(Mul(h, Pow2(k)), l) == Mul(h, Pow2(k)) + l
  {
    hide Mul;
    MulSign(h, Pow2(k));
    if k == 0 {
    } else if h == 0 {
      MulUnit(Pow2(k));
    } else if l != 0 {
      OrDisjoint(h, l / 2, k - 1);
      Distrib(h, Pow2(k - 1), Pow2(k - 1));
      MulSign(h, Pow2(k - 1));
    }
  }

  lemma {:induction false} OrCommutes(a: nat, b: nat)
    ensures Or(a, b) == Or(b, a)
    decreases a + b
  {
    if a != 0 && b != 0 {
      OrCommutes(a / 2, b / 2);
    }
  }

  /** Masking with 2^k - 1 keeps the low k bits. */
  lemma {:induction false} AndMask(x: nat, k: nat)
    ensures And(x, Pow2(k) - 1) == Mod(x, Pow2(k))
  {
    hide Mul, Div, Mod;
    var p := Pow2(k);
    DivMod(x, p);
    if k == 0 {
    } else if x == 0 {
      ModSmall(0, p);
    } else {
      var h := Pow2(k - 1);
      AndMask(x / 2, k - 1);
      assert (p - 1) / 2 == h - 1 && (p - 1) % 2 == 1;
      DivMod(x / 2, h);
      var q := Div(x / 2, h);
      Distrib(q, h, h);
      MulComm(p, q);
      MulComm(h, q);
      DivModUnique(x, p, q, 2 * Mod(x / 2, h) + x % 2);
    }
  }

  lemma AndZero(x: nat)
    ensures And(x, 0) == 0
  {
  }

  lemma AndOne(x: nat)
    ensures And(x, 1) == x % 2
  {
    if x != 0 {
      assert And(x / 2, 0) == 0;
    }
  }

  /** The bits of `v * 2^k` that leave a 32-bit word are `v >> (32 - k)`; the rest is a multiple of 2^k. */
  lemma ShlSplit(v: u32, k: nat)
    requires 0 < k < 32
    ensures Mul(v, Pow2(k)) == Shl32(v, k) + B * Shr32(v, 32 - k)
    ensures Shr32(v, 32 - k) < Pow2(k)
    ensures Shl32(v, k) == Mul(Mod(v, Pow2(32 - k)), Pow2(k))
  {
    hide Mul, Div, Mod, Pow2;
    Pow2Is32();
    Pow2Add(32 - k, k);
    var p, q := Pow2(k), Pow2(32 - k);
    var hi, low := Div(v, q), Mod(v, q);
    DivMod(v, q);
    Distrib(p, Mul(q, hi), low);
    MulComm(q, hi);
    MulAssoc(hi, q, p);
    MulIsProduct(hi);
    MulSign(low, p);
    MulMono(p, low, q - 1);
    Distrib(p, q, 1);
    MulUnit(p);
    MulCancel(q, hi, p);
  }

  lemma MulIsProduct(x: int)
    ensures Mul(x, B) == B * x && Mul(B, x) == B * x
  {
  }

  /** `(v << k) | carry` in one word. */
  lemma ShlOr(v: u32, k: nat, carry: u32)
    requires 0 < k < 32 && carry < Pow2(k)
    ensures 0 <= Or(Shl32(v, k), carry) < B
    ensures Or(Shl32(v, k), carry) + B * Shr32(v, 32 - k) == Mul(v, Pow2(k)) + carry
    ensures Shr32(v, 32 - k) < Pow2(k)
  {
    hide Mul, Div, Mod, Pow2;
    var p, q, low := Pow2(k), Pow2(32 - k), Mod(v, Pow2(32 - k));
    ShlSplit(v, k);
    OrDisjoint(low, carry, k);
    Pow2Is32();
    Pow2Add(32 - k, k);
    MulMono(p, low, q - 1);
    Distrib(p, q, 1);
    MulUnit(p);
  }

  lemma {:induction false} OrBounds(a: nat, b: nat, k: nat)
    requires a < Pow2(k) && b < Pow2(k)
    ensures Or(a, b) < Pow2(k)
    ensures b <= Or(a, b) && a <= Or(a, b)
    decreases k
  {
    if a != 0 && b != 0 {
      OrBounds(a / 2, b / 2, k - 1);
    }
  }

  lemma {:induction false} OrZero(a: nat, b: nat)
    ensures Or(a, b) == 0 <==> a == 0 && b == 0
    decreases a + b
  {
    if a != 0 && b != 0 {
      OrZero(a / 2, b / 2);
    }
  }

  lemma {:induction false} XorZero(a: nat, b: nat)
    ensures Xor(a, b) == 0 <==> a == b
    decreases a + b
  {
    if a != 0 && b != 0 {
      XorZero(a / 2, b / 2);
    }
  }

  lemma {:induction false} XorBound(a: nat, b: nat, k: nat)
    requires a < Pow2(k) && b < Pow2(k)
    ensures Xor(a, b) < Pow2(k)
    decreases k
  {
    if a != 0 && b != 0 {
      XorBound(a / 2, b / 2, k - 1);
    }
  }

  /** The number whose bit t is f(t), for t < n. */
  function FromBits(f: int -> int, n: nat): int {
    if n == 0 then 0 else FromBits(f, n - 1) + Mul(f(n - 1), Pow2(n - 1))
  }

  function BitAt(x: nat, t: nat): (b: nat)
    ensures b <= 1
  {
    Div(x, Pow2(t)) % 2
  }

  /** The low n bits of a number rebuild it modulo 2^n. */
  lemma {:induction false} BitsRebuild(x: nat, f: int -> int, n: nat)
    requires forall t :: 0 <= t < n ==> f(t) == BitAt(x, t)
    ensures FromBits(f, n) == Mod(x, Pow2(n))
  {
    hide Mul, Div, Mod;
    if n == 0 {
      MulUnit(x);
      DivModUnique(x, 1, x, 0);
    } else {
      BitsRebuild(x, f, n - 1);
      SplitBit(x, n - 1);
    }
  }

  lemma {:induction false} FromBitsBound(f: int -> int, n: nat)
    requires forall t :: 0 <= t < n ==> 0 <= f(t) <= 1
    ensures 0 <= FromBits(f, n) < Pow2(n)
  {
    hide Mul;
    if n != 0 {
      FromBitsBound(f, n - 1);
      MulUnit(Pow2(n - 1));
      assert f(n - 1) == 0 || f(n - 1) == 1;
    }
  }

  /** Reading the bits back out. */
  lemma {:induction false} BitsReadBack(f: int -> int, n: nat, t: nat)
    requires t < n && forall i :: 0 <= i < n ==> 0 <= f(i) <= 1
    ensures 0 <= FromBits(f, n) && BitAt(FromBits(f, n), t) == f(t)
  {
    hide Mul, Div, Mod;
    FromBitsBound(f, n);
    FromBitsBound(f, n - 1);
    var x, p := FromBits(f, n - 1), Pow2(t);
    if t == n - 1 {
      MulComm(f(t), p);
      DivModUnique(FromBits(f, n), p, f(t), x);
    } else {
      BitsReadBack(f, n - 1, t);
      Pow2Add(n - 2 - t, t);
      var c, w := f(n - 1), Pow2(n - 2 - t);
      MulUnit(Pow2(n - 1));
      MulComm(w, p);
      DivMod(x, p);
      Distrib(p, Div(x, p), 2 * w);
      Distrib(p, w, w);
      if c == 1 {
        DivModUnique(FromBits(f, n), p, Div(x, p) + 2 * w, Mod(x, p));
      }
    }
  }

  lemma SplitBit(x: nat, k: nat)
    ensures Mod(x, Pow2(k + 1)) == Mod(x, Pow2(k)) + Mul(BitAt(x, k), Pow2(k))
    ensures Div(x, Pow2(k)) == 2 * Div(x, Pow2(k + 1)) + BitAt(x, k)
  {
    hide Mul, Div, Mod;
    var p := Pow2(k);
    DivMod(x, p);
    var q := Div(x, p);
    var h, b := q / 2, q % 2;
    Distrib(p, 2 * h, b);
    Distrib(p, h, h);
    Distrib(h, p, p);
    MulComm(p, h);
    MulComm(2 * p, h);
    MulComm(p, b);
    MulUnit(p);
    DivModUnique(x, 2 * p, h, Mul(b, p) + Mod(x, p));
  }

  /** Shifts where no bit leaves the word. */
  function Shl(x: nat, k: nat): nat {
    MulSign(x, Pow2(k));
    Mul(x, Pow2(k))
  }

  function Shr(x: nat, k: nat): nat {
    DivMod(x, Pow2(k));
    Div(x, Pow2(k))
  }

  lemma SmallPowers()
    ensures Pow2(1) == 2 && Pow2(2) == 4 && Pow2(3) == 8 && Pow2(4) == 16 && Pow2(5) == 32 && Pow2(6) == 64
    ensures Pow2(7) == 128 && Pow2(8) == 256 && Pow2(10) == 1024 && Pow2(12) == 4096
  {
    assert Pow2(2) == 4;
    assert Pow2(4) == 16;
    assert Pow2(6) == 64;
    assert Pow2(8) == 256;
    assert Pow2(10) == 1024;
  }

  /** The masks, shifts and joins of the packing code, as arithmetic. */
  lemma Masks(x: nat)
    ensures And(x, 3) == x % 4 && And(x, 15) == x % 16 && And(x, 63) == x % 64 && And(x, 255) == x % 256 && And(x, 1023) == x % 1024
    ensures And(x, 4095) == x % 4096
  {
    hide And;
    SmallPowers();
    AndMask(x, 2);
    AndMask(x, 4);
    AndMask(x, 6);
    AndMask(x, 8);
    AndMask(x, 10);
    AndMask(x, 12);
  }

  lemma Shifts(x: nat)
    ensures Shl(x, 2) == 4 * x && Shl(x, 4) == 16 * x && Shl(x, 6) == 64 * x && Shl(x, 8) == 256 * x && Shl(x, 10) == 1024 * x
    ensures Shr(x, 2) == x / 4 && Shr(x, 4) == x / 16 && Shr(x, 6) == x / 64 && Shr(x, 8) == x / 256 && Shr(x, 10) == x / 1024
  {
    SmallPowers();
  }

  lemma Join(h: nat, l: nat, k: nat)
    requires l < Pow2(k)
    ensures Or(Shl(h, k), l) == Shl(h, k) + l && Or(l, Shl(h, k)) == Shl(h, k) + l
  {
    OrDisjoint(h, l, k);
    OrCommutes(l, Shl(h, k));
  }
}
