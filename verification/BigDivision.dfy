/** Reduction, division, gcd, modular exponentiation and modular inverse on `BigUint`. */
module BigDivision {
  import opened Arith
  import opened Words
  import opened Limbs
  import opened LimbOps
  import opened Knuth
  import opened Wrappers
  import opened BigUints
  import opened BigShifts

  /** Subtracting the modulus at most once brings 2v + bit back below it; `high` is the limb above the window. */
  lemma BitReduce(t: int, prefix: int, high: int, w: int, v: int)
    requires 0 <= prefix < w && 0 <= high && v < w && 0 <= t < 2 * v
    requires t == prefix + Mul(high, w)
    ensures high <= 1
    ensures high != 0 ==> prefix < v && prefix - v + w == t - v && Mod(t, v) == t - v
    ensures high == 0 && prefix >= v ==> t == prefix && Mod(t, v) == t - v
    ensures high == 0 && prefix < v ==> Mod(t, v) == prefix
  {
    hide Mul, Mod;
    MulUnit(w);
    if high >= 2 {
      MulMono(w, 2, high);
      Distrib(w, 1, 1);
    }
    MulUnit(v);
    if t >= v {
      DivModUnique(t, v, 1, t - v);
    } else {
      ModSmall(t, v);
    }
  }

  lemma EvenLow(s: seq<u32>, v: int)
    requires |s| > 0 && Val(s) == 2 * v
    ensures s[0] % 2 == 0
    ensures 0 <= Or(s[0], 1) < B && Val(s[0 := Or(s[0], 1)]) == Val(s) + 1
  {
    hide Mul, Val, W, Pow2;
    assert s == [s[0]] + s[1..];
    ValCons(s[0], s[1..]);
    Pow2One();
    DoubleIs(s[0] / 2);
    OrDisjoint(s[0] / 2, 1, 1);
    ValUpdate(s, 0, Or(s[0], 1));
    WOne();
    MulUnit(W(0));
  }

  lemma Pow2One()
    ensures Pow2(1) == 2
  {
  }

  lemma WOne()
    ensures W(0) == 1
  {
  }

  lemma DoubleIs(h: int)
    ensures Mul(h, 2) == 2 * h && Mul(2, h) == 2 * h
  {
  }

  /** Shift the next bit of the dividend in. */
  method ShiftIn(rem: array<u32>, ghost v: nat, bit: u32)
    requires rem.Length > 0 && bit <= 1
    requires v == Val(rem[..]) && 2 * v < W(rem.Length)
    modifies rem
    ensures Val(rem[..]) == 2 * v + bit
  {
    hide Mul, Mod, Val, W, Or;
    DoubleIs(v);
    ModSmall(2 * v, W(rem.Length));
    LimbsLshift1(rem);
    ghost var shifted := rem[..];
    EvenLow(shifted, v);
    if bit == 1 {
      rem[0] := Or(rem[0], 1);
      assert rem[..] == shifted[0 := rem[0]];
    }
  }

  /** One bit of the bitwise remainder: shift the bit in, subtract the modulus when it fits. */
  method ReduceBit(rem: array<u32>, modulus: seq<u32>, bit: u32)
    requires |modulus| > 0 && rem.Length == |modulus| + 1 && bit <= 1
    requires Val(rem[..]) < Val(modulus)
    modifies rem
    ensures Val(rem[..]) == Mod(2 * Val(old(rem[..])) + bit, Val(modulus))
  {
    hide Mul, Mod, Val, W;
    var n := |modulus|;
    ghost var t := 2 * Val(rem[..]) + bit;
    ValBound(modulus);
    WStep(n);
    ShiftIn(rem, Val(rem[..]), bit);
    TopLimb(rem[..], n);
    assert rem[..][..n] == rem[..n] && modulus[..n] == modulus;
    BitReduce(t, Val(rem[..n]), rem[n], W(n), Val(modulus));
    var ge := GeLimbsPrefix(rem[..], modulus, n);
    MulUnit(W(n));
    if rem[n] != 0 || ge {
      var high := rem[n];
      SubLimbsPrefix(rem, modulus, n);
      assert rem[n] == rem[n..][0] == high;
      if high > 0 {
        ghost var low := rem[..n];
        rem[n] := high - 1;
        assert rem[..n] == low;
      }
    }
    TopLimb(rem[..], n);
    assert rem[..][..n] == rem[..n];
  }

  lemma TopLimb(s: seq<u32>, n: nat)
    requires |s| == n + 1
    ensures Val(s) == Val(s[..n]) + Mul(s[n], W(n)) && 0 <= Val(s[..n]) < W(n)
  {
    hide Val, W;
    ValPrefix(s, n);
    assert s[..n + 1] == s;
    ValBound(s[..n]);
  }

  lemma ByteBounds(x: u8)
    ensures Div(x, Pow2(8)) == 0 && Div(x, Pow2(0)) == x
  {
    PowEight();
    Pow2Zero();
  }

  /** Bitwise remainder over the big-endian bytes of the dividend. */
  method BitwiseRemainder(bytes: seq<u8>, modulus: seq<u32>) returns (r: seq<u32>)
    requires |modulus| > 0 && 0 < Val(modulus)
    ensures |r| == |modulus| && Val(r) == Mod(BeVal(bytes), Val(modulus))
  {
    hide Mul, Div, Mod, Val, W, Pow2, BeVal;
    var n := |modulus|;
    var rem := new u32[n + 1](_ => 0);
    ValZeros(rem[..]);
    BeSingle(0);
    ModSmall(0, Val(modulus));
    assert bytes[..0] == [];
    for i := 0 to |bytes|
      invariant Val(rem[..]) == Mod(BeVal(bytes[..i]), Val(modulus))
    {
      var byte := bytes[i];
      ghost var acc: nat := BeVal(bytes[..i]);
      ghost var start := acc;
      var bit := 8;
      ByteBounds(byte);
      Pow2Zero();
      MulUnit(start);
      while bit > 0
        invariant 0 <= bit <= 8
        invariant acc == Mul(start, Pow2(8 - bit)) + Div(byte, Pow2(bit))
        invariant Val(rem[..]) == Mod(acc, Val(modulus))
      {
        bit := bit - 1;
        SplitBit(byte, bit);
        AndOne(Shr32(byte, bit));
        DoublePower(start, 7 - bit);
        ModDouble(acc, Val(modulus), Div(byte, Pow2(bit)) % 2);
        ReduceBit(rem, modulus, And(Shr32(byte, bit), 1));
        acc := 2 * acc + Div(byte, Pow2(bit)) % 2;
      }
      PowEight();
      ByteScale(start);
      MulComm(start, 256);
      BeSnoc(bytes[..i], byte);
      assert bytes[..i + 1] == bytes[..i] + [byte];
    }
    assert bytes[..|bytes|] == bytes;
    ValBound(modulus);
    r := rem[..n];
    SmallWindow([], rem[..], modulus);
    assert rem[..][..n] == r;
  }

  lemma DoublePower(x: int, k: nat)
    ensures Mul(x, Pow2(k + 1)) == 2 * Mul(x, Pow2(k))
  {
    hide Mul;
    Distrib(x, Pow2(k), Pow2(k));
  }

  lemma ModDouble(a: int, m: int, bit: int)
    requires 0 < m
    ensures Mod(2 * Mod(a, m) + bit, m) == Mod(2 * a + bit, m)
  {
    hide Mul, Mod;
    CongMod(a, m);
    CongAdd(Mod(a, m), a, Mod(a, m), a, m);
    CongAdd(2 * Mod(a, m), 2 * a, bit, bit, m);
  }

  /** Limb counts with a fast 2n-by-n path. */
  predicate FastSize(n: nat) {
    n == 8 || n == 12 || n == 16 || n == 24 || n == 32 || n == 64
  }

  /** `self mod modulus`: early return, small modulus, Knuth for the fast sizes, bitwise otherwise. */
  method Modulo(a: BigUint, modulus: BigUint) returns (r: BigUint)
    ensures Val(r) == if Val(modulus) == 0 then 0 else Mod(Val(a), Val(modulus))
  {
    hide Mul, Mod, Val, W, BeVal;
    ZeroIsEmpty(modulus);
    ValEmpty();
    if |modulus| == 0 {
      return ZERO;
    }
    var order := Cmp(a, modulus);
    if order == Less {
      ModSmall(Val(a), Val(modulus));
      return a;
    }
    if |modulus| == 1 {
      var rem := ModuloSmallU32(a, modulus[0]);
      ValCons(modulus[0], []);
      assert modulus == [modulus[0]] + [];
      ValCons(rem, []);
      assert [rem] == [rem] + [];
      r := FromLimbs([rem]);
      return;
    }
    var nLimbs := |modulus|;
    if FastSize(nLimbs) && |a| == nLimbs * 2 {
      var fast := Mod2nByNLimb(a, modulus);
      if fast.Some? {
        r := FromLimbs(fast.value);
        return;
      }
    }
    var bytes := ToBeBytes(a);
    var rem := BitwiseRemainder(bytes, modulus);
    r := FromLimbs(rem);
  }

  /** One shift of the shift-subtract division. */
  lemma DivStep(a: int, q: int, r: int, d: int, s: nat, sub: bool)
    requires a == Mul(q, d) + r && 0 <= r < Mul(d, Pow2(s + 1))
    requires sub <==> r >= Mul(d, Pow2(s))
    ensures Mul(d, Pow2(s + 1)) == 2 * Mul(d, Pow2(s))
    ensures sub ==> a == Mul(q + Pow2(s), d) + (r - Mul(d, Pow2(s))) && 0 <= r - Mul(d, Pow2(s)) < Mul(d, Pow2(s))
    ensures !sub ==> r < Mul(d, Pow2(s))
  {
    hide Mul, Pow2;
    Distrib(d, q, Pow2(s));
    MulComm(d, Pow2(s));
    DoublePower(d, s);
  }

  lemma DivBegin(a: BigUint, d: BigUint)
    requires 0 < Val(d) <= Val(a)
    ensures BitLength(d) <= BitLength(a)
    ensures Val(a) < Mul(Val(d), Pow2(BitLength(a) - BitLength(d) + 1))
  {
    hide Mul, Val, Pow2, BitLength;
    var la, ld := BitLength(a), BitLength(d);
    if la < ld {
      Pow2Monotone(la, ld - 1);
    }
    Pow2Add(ld - 1, la - ld + 1);
    MulMono(Pow2(la - ld + 1), Pow2(ld - 1), Val(d));
  }

  /** Quotient and remainder; a zero divisor gives quotient zero and the dividend back. */
  method DivRem(a: BigUint, divisor: BigUint) returns (q: BigUint, r: BigUint)
    ensures Val(divisor) == 0 ==> Val(q) == 0 && r == a
    ensures 0 < Val(divisor) ==> Val(q) == Div(Val(a), Val(divisor)) && Val(r) == Mod(Val(a), Val(divisor))
  {
    hide Mul, Div, Mod, Val, W, Pow2, BitLength;
    ZeroIsEmpty(divisor);
    OneIsOne();
    if |divisor| == 0 {
      return ZERO, a;
    }
    var order := Cmp(a, divisor);
    if order == Less {
      ModSmall(Val(a), Val(divisor));
      return ZERO, a;
    }
    q, r := ZERO, a;
    DivBegin(a, divisor);
    MulUnit(Val(divisor));
    var s := BitLength(a) - BitLength(divisor) + 1;
    while s > 0
      invariant 0 <= s
      invariant Val(a) == Mul(Val(q), Val(divisor)) + Val(r)
      invariant Val(r) < Mul(Val(divisor), Pow2(s))
    {
      s := s - 1;
      var shifted := ShlBits(divisor, s);
      order := Cmp(r, shifted);
      DivStep(Val(a), Val(q), Val(r), Val(divisor), s, order != Less);
      if order != Less {
        r := Sub(r, shifted);
        var qBit := ShlBits(ONE, s);
        MulUnit(Pow2(s));
        q := Add(q, qBit);
      }
    }
    Pow2Zero();
    MulComm(Val(q), Val(divisor));
    DivModUnique(Val(a), Val(divisor), Val(q), Val(r));
  }

  /** base^e. */
  function Exp(base: nat, e: nat): nat {
    if e == 0 then 1 else MulSign(base, Exp(base, e - 1)); Mul(base, Exp(base, e - 1))
  }

  lemma {:induction false} ExpSquare(base: nat, e: nat)
    ensures 0 <= Mul(base, base) && Exp(Mul(base, base), e) == Exp(base, 2 * e)
  {
    hide Mul;
    MulSign(base, base);
    if e != 0 {
      ExpSquare(base, e - 1);
      MulAssoc(base, base, Exp(base, 2 * e - 2));
      assert Exp(base, 2 * e - 1) == Mul(base, Exp(base, 2 * e - 2));
    }
  }

  lemma {:induction false} ExpCong(a: nat, b: nat, e: nat, m: nat)
    requires 0 < m && Cong(a, b, m)
    ensures Cong(Exp(a, e), Exp(b, e), m)
  {
    hide Mul, Mod, Cong;
    if e == 0 {
      CongRefl(1, m);
    } else {
      ExpCong(a, b, e - 1, m);
      CongMul(a, b, Exp(a, e - 1), Exp(b, e - 1), m);
    }
  }

  lemma CongRefl(a: int, m: int)
    requires 0 < m
    ensures Cong(a, a, m)
  {
  }

  lemma CongTrans(a: int, b: int, c: int, m: int)
    requires 0 < m && Cong(a, b, m) && Cong(b, c, m)
    ensures Cong(a, c, m)
  {
  }

  /** One square-and-multiply step keeps result * b^e modulo m. */
  lemma SquareMultiply(result: nat, b: nat, e: nat, m: nat, result': nat, b': nat)
    requires 0 < m && 0 < e
    requires b' == Mod(Mul(b, b), m)
    requires result' == if e % 2 == 1 then Mod(Mul(result, b), m) else result
    ensures Cong(Mul(result', Exp(b', e / 2)), Mul(result, Exp(b, e)), m)
  {
    hide Mul, Mod, Cong;
    var h := e / 2;
    MulSign(b, b);
    CongMod(Mul(b, b), m);
    ExpCong(b', Mul(b, b), h, m);
    ExpSquare(b, h);
    if e % 2 == 1 {
      CongMod(Mul(result, b), m);
      CongMul(result', Mul(result, b), Exp(b', h), Exp(b, 2 * h), m);
      MulAssoc(result, b, Exp(b, 2 * h));
    } else {
      CongScale(result, Exp(b', h), Exp(b, e), m);
    }
  }

  method ModMul(a: BigUint, b: BigUint, modulus: BigUint) returns (r: BigUint)
    requires 0 < Val(modulus)
    ensures Val(r) == Mod(Mul(Val(a), Val(b)), Val(modulus))
  {
    var product := Multiply(a, b);
    r := Modulo(product, modulus);
  }

  /** What `mod_exp` computes: the power modulo m, except 1 for exponent zero with modulus one. */
  function ModPower(base: nat, e: nat, m: nat): nat {
    if m == 0 then 0 else if m == 1 && e == 0 then 1 else Mod(Exp(base, e), m)
  }

  method ModExp(base: BigUint, exp: BigUint, modulus: BigUint) returns (result: BigUint)
    ensures Val(result) == ModPower(Val(base), Val(exp), Val(modulus))
    ensures 0 < Val(modulus) ==>
              (Val(result) == Mod(Exp(Val(base), Val(exp)), Val(modulus)) <==> !(Val(modulus) == 1 && Val(exp) == 0))
  {
    hide Mul, Mod, Cong, Val, W, Exp;
    ZeroIsEmpty(modulus);
    OneIsOne();
    if |modulus| == 0 {
      return ZERO;
    }
    ghost var m, all := Val(modulus), Exp(Val(base), Val(exp));
    result := ONE;
    var b := Modulo(base, modulus);
    var e := exp;
    ExpBegin(Val(base), Val(exp), m);
    ZeroIsEmpty(e);
    while |e| != 0
      invariant |e| == 0 <==> Val(e) == 0
      invariant Cong(Mul(Val(result), Exp(Val(b), Val(e))), all, m)
      invariant Val(exp) == 0 ==> Val(e) == 0
      invariant if Val(result) < m then m > 1 || Val(exp) > 0 else m == 1 && Val(result) == 1 && (Val(e) > 0 || Val(exp) == 0)
      decreases Val(e)
    {
      ghost var result0, b0, e0 := Val(result), Val(b), Val(e);
      LimbParity(e);
      if e[0] % 2 == 1 {
        result := ModMul(result, b, modulus);
      }
      e := Shr1(e);
      b := ModMul(b, b, modulus);
      SquareMultiply(result0, b0, e0, m, Val(result), Val(b));
      CongTrans(Mul(Val(result), Exp(Val(b), Val(e))), Mul(result0, Exp(b0, e0)), all, m);
      ZeroIsEmpty(e);
    }
    ExpEnd(Val(result), Val(b), all, m);
  }

  lemma LimbParity(e: BigUint)
    requires |e| > 0
    ensures e[0] % 2 == Val(e) % 2
  {
    hide Val;
    ValCons(e[0], e[1..]);
    assert e == [e[0]] + e[1..];
    EvenPart(e[0], Val(e[1..]));
  }

  lemma EvenPart(x: int, y: int)
    ensures (x + B * y) % 2 == x % 2
  {
    var h := 0x8000_0000 * y;
    assert B * y == 2 * h;
  }

  lemma ExpBegin(base: nat, e: nat, m: nat)
    requires 0 < m
    ensures Cong(Mul(1, Exp(Mod(base, m), e)), Exp(base, e), m)
  {
    hide Mul, Mod, Exp;
    CongMod(base, m);
    ExpCong(Mod(base, m), base, e, m);
    MulUnit(Exp(Mod(base, m), e));
  }

  lemma ExpEnd(result: nat, b: nat, all: nat, m: nat)
    requires 0 < m && Cong(Mul(result, Exp(b, 0)), all, m)
    ensures result < m ==> result == Mod(all, m)
    ensures m == 1 ==> Mod(all, m) == 0
  {
    hide Mul, Mod;
    MulUnit(result);
    if result < m {
      CongSmall(result, all, m);
    }
  }

  /** d divides both a and b. */
  ghost predicate CommonDivisor(d: int, a: int, b: int) {
    0 < d && Mod(a, d) == 0 && Mod(b, d) == 0
  }

  lemma EuclidStep(a: int, b: int, d: int)
    requires 0 < b
    ensures CommonDivisor(d, a, b) <==> CommonDivisor(d, b, Mod(a, b))
  {
    hide Mul, Div, Mod;
    if 0 < d && Mod(b, d) == 0 {
      DivMod(a, b);
      ModSmall(0, d);
      CongScale(Div(a, b), b, 0, d);
      MulComm(Div(a, b), b);
      MulUnit(Div(a, b));
      CongRefl(Mod(a, b), d);
      CongAdd(Mul(b, Div(a, b)), 0, Mod(a, b), Mod(a, b), d);
    }
  }

  lemma ZeroRemainder(d: int)
    requires 0 < d
    ensures Mod(0, d) == 0 && Mod(d, d) == 0
  {
  }

  /** Greatest in the order of divisibility; zero exactly for two zeros. */
  method Gcd(left: BigUint, right: BigUint) returns (g: BigUint)
    ensures Val(g) == 0 <==> Val(left) == 0 && Val(right) == 0
    ensures 0 < Val(g) ==> CommonDivisor(Val(g), Val(left), Val(right))
    ensures forall d :: CommonDivisor(d, Val(left), Val(right)) ==> Mod(Val(g), d) == 0
  {
    hide Mul, Div, Mod, Val;
    var a, b := left, right;
    ZeroIsEmpty(b);
    while |b| != 0
      invariant |b| == 0 <==> Val(b) == 0
      invariant Val(a) == 0 && Val(b) == 0 <==> Val(left) == 0 && Val(right) == 0
      invariant forall d :: CommonDivisor(d, Val(a), Val(b)) <==> CommonDivisor(d, Val(left), Val(right))
      decreases Val(b)
    {
      var r := Modulo(a, b);
      forall d ensures CommonDivisor(d, Val(a), Val(b)) <==> CommonDivisor(d, Val(b), Val(r)) {
        EuclidStep(Val(a), Val(b), d);
      }
      a := b;
      b := r;
      ZeroIsEmpty(b);
    }
    if 0 < Val(a) {
      ZeroRemainder(Val(a));
      assert CommonDivisor(Val(a), Val(a), Val(b));
    }
    return a;
  }

  /** One step of the extended Euclid updates, with the subtraction done modulo m. */
  lemma InverseStep(a: nat, m: nat, t: nat, newT: nat, r: nat, newR: nat, q: nat, qt: nat, nextT: nat)
    requires 0 < m && 0 < newR
    requires Cong(Mul(t, a), r, m) && Cong(Mul(newT, a), newR, m)
    requires q == Div(r, newR) && qt == Mod(Mul(q, newT), m)
    requires nextT == (if t >= qt then t - qt else t + m - qt)
    ensures Cong(Mul(Mod(nextT, m), a), Mod(r, newR), m)
  {
    hide Mul, Div, Mod, Cong;
    CongMod(Mul(q, newT), m);
    WrapM(t - qt, m);
    CongRefl(t, m);
    CongAdd(t, t, qt, Mul(q, newT), m);
    assert Cong(nextT, t - Mul(q, newT), m) by {
      CongRefl(t - qt, m);
      CongTrans(nextT, t - qt, t - Mul(q, newT), m);
    }
    CongMod(nextT, m);
    CongTrans(Mod(nextT, m), nextT, t - Mul(q, newT), m);
    CongRefl(a, m);
    CongMul(Mod(nextT, m), t - Mul(q, newT), a, a, m);
    Distrib(a, t, Mul(q, newT));
    MulAssoc(q, newT, a);
    CongScale(q, Mul(newT, a), newR, m);
    CongAdd(Mul(t, a), r, Mul(q, Mul(newT, a)), Mul(q, newR), m);
    DivMod(r, newR);
    MulComm(newR, q);
    CongTrans(Mul(Mod(nextT, m), a), Mul(t - Mul(q, newT), a), Mod(r, newR), m);
  }

  lemma WrapM(x: int, m: int)
    requires 0 < m
    ensures Cong(x + m, x, m) && Cong(x, x, m)
  {
    hide Mul, Mod;
    MulUnit(m);
    CongByMultiple(x + m, x, 1, m);
  }

  /** An inverse exists only when the last nonzero remainder is one. */
  lemma NoInverse(a: nat, m: nat, r: nat, x: int)
    requires 0 < m && CommonDivisor(r, a, m) && Cong(Mul(a, x), 1, m)
    ensures r == 1
  {
    hide Mul, Div, Mod;
    var k := CongMultiple(Mul(a, x), 1, m);
    ModSmall(0, r);
    CongScale(x, a, 0, r);
    CongScale(k, m, 0, r);
    MulComm(a, x);
    MulComm(m, k);
    MulUnit(x);
    MulUnit(k);
    CongAdd(Mul(a, x), 0, Mul(m, k), 0, r);
    assert Mul(a, x) - Mul(m, k) == 1;
    if r > 1 {
      ModSmall(1, r);
    }
  }

  /** A modular inverse, found exactly when one exists, that is when a and m have no common divisor but 1. */
  method ModInverse(a: BigUint, m: BigUint) returns (inverse: Option<BigUint>)
    ensures Val(m) == 0 ==> inverse.None?
    ensures inverse.Some? ==> Val(inverse.value) < Val(m) && Cong(Mul(Val(a), Val(inverse.value)), 1, Val(m))
    ensures 0 < Val(m) && inverse.None? ==> forall x :: !Cong(Mul(Val(a), x), 1, Val(m))
    ensures 0 < Val(m) ==> (inverse.Some? <==> forall d :: CommonDivisor(d, Val(a), Val(m)) ==> d == 1)
  {
    hide Mul, Div, Mod, Cong, Val, CommonDivisor;
    ZeroIsEmpty(m);
    OneIsOne();
    if |m| == 0 {
      return None;
    }
    var t, newT := ZERO, ONE;
    var r := m;
    var newR := Modulo(a, m);
    InverseBegin(Val(a), Val(m));
    ZeroIsEmpty(newR);
    forall d ensures CommonDivisor(d, Val(r), Val(newR)) <==> CommonDivisor(d, Val(a), Val(m)) {
      EuclidStep(Val(a), Val(m), d);
    }
    while |newR| != 0
      invariant |newR| == 0 <==> Val(newR) == 0
      invariant 0 < Val(r)
      invariant Cong(Mul(Val(t), Val(a)), Val(r), Val(m)) && Cong(Mul(Val(newT), Val(a)), Val(newR), Val(m))
      invariant forall d :: CommonDivisor(d, Val(r), Val(newR)) <==> CommonDivisor(d, Val(a), Val(m))
      decreases Val(newR)
    {
      var q, rem := DivRem(r, newR);
      var product := Multiply(q, newT);
      var qNewT := Modulo(product, m);
      var order := Cmp(t, qNewT);
      var nextT;
      if order != Less {
        nextT := Sub(t, qNewT);
      } else {
        var sum := Add(t, m);
        nextT := Sub(sum, qNewT);
      }
      forall d ensures CommonDivisor(d, Val(r), Val(newR)) <==> CommonDivisor(d, Val(newR), Val(rem)) {
        EuclidStep(Val(r), Val(newR), d);
      }
      InverseStep(Val(a), Val(m), Val(t), Val(newT), Val(r), Val(newR), Val(q), Val(qNewT), Val(nextT));
      t := newT;
      newT := Modulo(nextT, m);
      r := newR;
      newR := rem;
      ZeroIsEmpty(newR);
    }
    InverseEnd(Val(a), Val(m), Val(t), Val(r));
    var order := Cmp(r, ONE);
    if order != Equal {
      return None;
    }
    var reduced := Modulo(t, m);
    return Some(reduced);
  }

  lemma InverseBegin(a: nat, m: nat)
    requires 0 < m
    ensures Cong(Mul(0, a), m, m) && Cong(Mul(1, a), Mod(a, m), m)
  {
    hide Mul, Mod;
    MulUnit(a);
    MulUnit(m);
    CongByMultiple(m, 0, 1, m);
    CongMod(a, m);
  }

  /** When the remainders have run out, r is the greatest common divisor and t * a is r modulo m. */
  lemma InverseEnd(a: nat, m: nat, t: nat, r: nat)
    requires 0 < m && 0 < r && Cong(Mul(t, a), r, m)
    requires forall d :: CommonDivisor(d, r, 0) <==> CommonDivisor(d, a, m)
    ensures CommonDivisor(r, a, m)
    ensures r == 1 <==> forall d :: CommonDivisor(d, a, m) ==> d == 1
    ensures r == 1 ==> Cong(Mul(a, Mod(t, m)), 1, m)
    ensures r != 1 ==> forall x :: !Cong(Mul(a, x), 1, m)
  {
    hide Mul, Div, Mod;
    ZeroRemainder(r);
    assert CommonDivisor(r, r, 0);
    forall d | r == 1 && CommonDivisor(d, a, m) ensures d == 1 {
      assert CommonDivisor(d, 1, 0);
      if d > 1 {
        ModSmall(1, d);
      }
    }
    CongMod(t, m);
    CongRefl(a, m);
    CongMul(Mod(t, m), t, a, a, m);
    MulComm(a, Mod(t, m));
    if r != 1 {
      forall x ensures !Cong(Mul(a, x), 1, m) {
        if Cong(Mul(a, x), 1, m) {
          NoInverse(a, m, r, x);
        }
      }
    }
  }

  /** What `mod_exp` returns is the power modulo m exactly outside modulus 1 with exponent 0, and there it is 1. */
  lemma ModPowerIs(base: nat, e: nat, m: nat)
    requires 0 < m
    ensures ModPower(base, e, m) == Mod(Exp(base, e), m) <==> !(m == 1 && e == 0)
    ensures ModPower(base, 0, 1) == 1 && ModPower(base, e, 0) == 0
  {
    hide Exp;
  }
}
