/** Knuth's Algorithm D as `mod_2n_by_n_limb` runs it: exact reduction of 2n limbs by n limbs. */
module Knuth {
  import opened Arith
  import opened Words
  import opened Limbs
  import opened LimbOps
  import opened Wrappers

  /**
   The window and the divisor seen through their top limbs: u = (num*B + u3)*p + wl over
   v = (den*B + v2)*p + vl, where p is the weight of the limbs below.
   */
  datatype Tops = Tops(num: int, den: int, v2: int, u3: int, p: int, wl: int, vl: int) {
    ghost predicate Valid() {
      && 0 <= num && 0 < den < B && 0 <= v2 < B && 0 <= u3 < B
      && 0 < p && 0 <= wl < p && 0 <= vl < p
    }

    ghost function U3(): int {
      num * B + u3
    }

    ghost function V2(): int {
      den * B + v2
    }

    ghost function U(): int {
      Mul(U3(), p) + wl
    }

    ghost function V(): int {
      Mul(V2(), p) + vl
    }
  }

  /** What the D3 loop knows: the estimate `q` with its remainder by the top limb, never below the true digit. */
  ghost predicate Estimates(q: int, rhat: int, t: Tops) {
    0 <= q < B && rhat == t.num - Mul(q, t.den) && t.U() < Mul(q + 1, t.V())
  }

  /** The first estimate, from the top two limbs over the top limb. */
  lemma FirstEstimate(t: Tops)
    requires t.Valid() && t.U() < B * t.V()
    ensures var q := Min(Div(t.num, t.den), B - 1);
            0 <= Mul(q, t.den) <= t.num && Estimates(q, t.num - Mul(q, t.den), t)
  {
    hide Mul, Div, Mod;
    var q := Min(Div(t.num, t.den), B - 1);
    DivMod(t.num, t.den);
    MulComm(Div(t.num, t.den), t.den);
    MulSign(q, t.den);
    MulMono(t.den, q, Div(t.num, t.den));
    if q == Div(t.num, t.den) {
      Distrib(t.den, q, 1);
      MulUnit(t.den);
      EstimateNotSmall(t, q);
    } else {
      MulIsProduct(t.V());
    }
  }

  lemma EstimateNotSmall(t: Tops, q: int)
    requires t.Valid() && 0 <= q && t.num < Mul(q + 1, t.den)
    ensures t.U() < Mul(q + 1, t.V())
  {
    hide Mul;
    MulIsProduct(t.num + 1);
    MulMono(t.p, t.U3() + 1, (t.num + 1) * B);
    Distrib(t.p, t.U3(), 1);
    MulUnit(t.p);
    MulAssoc(t.num + 1, B, t.p);
    MulSign(B, t.p);
    MulMono(Mul(B, t.p), t.num + 1, Mul(q + 1, t.den));
    MulAssoc(q + 1, t.den, Mul(B, t.p));
    MulIsProduct(t.den);
    MulAssoc(t.den, B, t.p);
    Distrib(t.p, t.den * B, t.v2);
    MulSign(t.v2, t.p);
    MulMono(q + 1, Mul(t.den, Mul(B, t.p)), t.V());
  }

  /** Comparing the top two divisor limbs times q with the top three window limbs is what the test does. */
  lemma TestMeaning(t: Tops, q: int, rhat: int)
    requires rhat == t.num - Mul(q, t.den)
    ensures Mul(q, t.V2()) - t.U3() == Mul(q, t.v2) - (rhat * B + t.u3)
  {
    hide Mul;
    Distrib(q, t.den * B, t.v2);
    MulIsProduct(t.den);
    MulAssoc(q, t.den, B);
    MulIsProduct(Mul(q, t.den));
  }

  /** When the test rejects the estimate, the estimate minus one is still not too small. */
  lemma Rejected(t: Tops, q: int, rhat: int)
    requires t.Valid() && Estimates(q, rhat, t) && 0 <= rhat && Mul(q, t.v2) > rhat * B + t.u3
    ensures Estimates(q - 1, rhat + t.den, t)
  {
    hide Mul;
    TestMeaning(t, q, rhat);
    MulMono(t.p, t.U3() + 1, Mul(q, t.V2()));
    Distrib(t.p, t.U3(), 1);
    MulUnit(t.p);
    MulAssoc(q, t.V2(), t.p);
    MulMono(q, Mul(t.V2(), t.p), t.V());
    Distrib(t.den, q, 1);
    MulUnit(t.den);
    MulUnit(t.v2);
  }

  /** When the test accepts, the estimate is at most one too large. */
  lemma Accepted(t: Tops, q: int, rhat: int)
    requires t.Valid() && Estimates(q, rhat, t) && Mul(q, t.v2) <= rhat * B + t.u3
    ensures Mul(q - 1, t.V()) <= t.U()
  {
    hide Mul;
    var v2 := t.V2();
    MulSign(t.U3(), t.p);
    MulSign(v2, t.p);
    if q == 0 {
      MulNeg(1, t.V());
      MulUnit(t.V());
    } else {
      TestMeaning(t, q, rhat);
      Distrib(v2 + 1, q, 1);
      MulUnit(v2 + 1);
      Distrib(q, v2, 1);
      MulUnit(q);
      assert Mul(q - 1, v2 + 1) <= t.U3();
      Distrib(t.p, v2, 1);
      MulUnit(t.p);
      MulMono(q - 1, t.V(), Mul(v2 + 1, t.p));
      MulAssoc(q - 1, v2 + 1, t.p);
      MulMono(t.p, Mul(q - 1, v2 + 1), t.U3());
    }
  }

  /** The top two limbs of a vector, and the rest. */
  lemma TopTwo(v: seq<u32>)
    requires |v| >= 2
    ensures var n := |v|;
            Val(v) == Mul(v[n - 1] * B + v[n - 2], W(n - 2)) + Val(v[..n - 2]) && 0 <= Val(v[..n - 2]) < W(n - 2)
  {
    hide Mul, Val, W;
    var n, x: int, y: int := |v|, v[|v| - 1], v[|v| - 2];
    ValPrefix(v, n - 1);
    ValPrefix(v, n - 2);
    assert v[..n] == v;
    ValBound(v[..n - 2]);
    WStep(n - 2);
    MulAssoc(x, B, W(n - 2));
    MulIsProduct(x);
    Distrib(W(n - 2), x * B, y);
  }

  lemma TopThree(u: seq<u32>)
    requires |u| >= 3
    ensures var n := |u| - 1;
            Val(u) == Mul((u[n] * B + u[n - 1]) * B + u[n - 2], W(n - 2)) + Val(u[..n - 2]) && 0 <= Val(u[..n - 2]) < W(n - 2)
  {
    hide Mul, Val, W;
    var n, x: int, y: int := |u| - 1, u[|u| - 1], u[|u| - 2] * B + u[|u| - 3];
    ValPrefix(u, n);
    assert u[..n + 1] == u;
    TopTwo(u[..n]);
    assert u[..n][..n - 2] == u[..n - 2];
    WStep(n - 1);
    WStep(n - 2);
    MulAssoc(x * B, B, W(n - 2));
    MulAssoc(x, B, W(n - 1));
    MulIsProduct(x);
    MulIsProduct(x * B);
    Distrib(W(n - 2), x * B * B, y);
  }

  /** D3: estimate one quotient digit from the top limbs of the window `u` and the divisor `v`. */
  method EstimateDigit(u: seq<u32>, v: seq<u32>) returns (qhat: u32)
    requires |v| >= 2 && |u| == |v| + 1 && v[|v| - 1] != 0
    requires Val(u) < B * Val(v)
    ensures Val(u) < Mul(qhat + 1, Val(v))
    ensures Mul(qhat - 1, Val(v)) <= Val(u)
  {
    hide Mul, Div, Mod, Val, W;
    var n := |v|;
    TopTwo(v);
    TopThree(u);
    var num: u64 := u[n] * B + u[n - 1];
    var den: u64 := v[n - 1];
    ghost var t := Tops(num, den, v[n - 2], u[n - 2], W(n - 2), Val(u[..n - 2]), Val(v[..n - 2]));
    FirstEstimate(t);
    var q: u64 := Min(Div(num, den), B - 1);
    var rhat: u64 := num - Mul(q, den);
    while true
      invariant Estimates(q, rhat, t)
      decreases q
    {
      ProductRoom(q, v[n - 2], 0);
      var lhs: u64 := Mul(q, v[n - 2]);
      if rhat / B != 0 {
        break;
      }
      var rhs: u64 := rhat * B + u[n - 2];
      if lhs <= rhs {
        break;
      }
      MulUnit(v[n - 2]);
      Rejected(t, q, rhat);
      q := q - 1;
      rhat := rhat + den;
    }
    Accepted(t, q, rhat);
    qhat := q;
  }

  /** D4 to D6 on integers: what subtracting q*v and at most one add-back leave in a window of weight `w`. */
  lemma AddBack(was: int, q: int, v: int, w: int, mid: int, borrowed: bool, now: int, carry: int)
    requires 0 < v < w && 0 <= was && 0 <= mid < w && 0 <= now < w && 0 <= carry <= 1
    requires was < Mul(q + 1, v) && Mul(q - 1, v) <= was
    requires mid + Mul(q, v) == was + Mul(if borrowed then 1 else 0, w)
    requires borrowed ==> now + Mul(carry, w) == mid + v
    ensures !borrowed ==> mid == Mod(was, v)
    ensures borrowed ==> carry == 1 && now == Mod(was, v)
  {
    hide Mul, Mod;
    Distrib(v, q, 1);
    MulUnit(v);
    MulUnit(w);
    MulComm(v, q);
    MulComm(v, q - 1);
    if borrowed {
      DivModUnique(was, v, q - 1, now);
    } else {
      DivModUnique(was, v, q, mid);
    }
  }

  /** One quotient digit: the window becomes its remainder by `v`. Add-back spills its carry one limb above the window. */
  method ReduceWindow(u: array<u32>, j: nat, v: seq<u32>)
    requires |v| >= 2 && v[|v| - 1] != 0 && j + |v| < u.Length
    requires Val(u[j..j + |v| + 1]) < B * Val(v)
    modifies u
    ensures u[..j] == old(u[..j])
    ensures 0 < Val(v) && Val(u[j..j + |v| + 1]) == Mod(Val(old(u[j..j + |v| + 1])), Val(v))
  {
    hide Mul, Mod, Val, W;
    var n := |v|;
    CanonicalBound(v);
    ValBound(v);
    WMonotone(n, n + 1);
    ghost var was := u[j..j + n + 1];
    var qhat := EstimateDigit(u[j..j + n + 1], v);
    if qhat != 0 {
      var borrowed := LimbMulSub(u, j, qhat, v);
      ghost var mid := u[j..j + n + 1];
      ValBound(mid);
      if borrowed {
        var carryOut := LimbAddAt(u, j, v);
        ghost var now := u[j..j + n + 1];
        ValBound(now);
        AddBack(Val(was), qhat, Val(v), W(n + 1), Val(mid), true, Val(now), carryOut);
        if carryOut != 0 && j + n + 1 < u.Length {
          u[j + n + 1] := (u[j + n + 1] + carryOut) % B;
        }
        assert u[j..j + n + 1] == now;
      } else {
        AddBack(Val(was), qhat, Val(v), W(n + 1), Val(mid), false, 0, 0);
      }
    } else {
      MulUnit(Val(v));
      ModSmall(Val(was), Val(v));
    }
  }

  /** Reducing the window above `low` changes the whole number by a multiple of `v`. */
  lemma WindowCongruent(low: seq<u32>, was: seq<u32>, now: seq<u32>, v: int)
    requires 0 < v && Val(now) == Mod(Val(was), v)
    ensures Cong(Val(low + was), Val(low + now), v)
  {
    hide Mul, Mod, Val, W;
    ValConcat(low, was);
    ValConcat(low, now);
    CongMod(Val(was), v);
    CongScale(W(|low|), Val(was), Val(now), v);
    CongAdd(Val(low), Val(low), Mul(W(|low|), Val(was)), Mul(W(|low|), Val(now)), v);
  }

  /** A window whose upper part is below `v` holds less than B * v. */
  lemma WindowRoom(x: u32, high: seq<u32>, v: nat)
    requires Val(high) < v
    ensures Val([x] + high) < B * v
  {
    ValCons(x, high);
  }

  /** A window below an n-limb number has a zero top limb. */
  lemma SmallWindow(low: seq<u32>, window: seq<u32>, v: seq<u32>)
    requires |window| == |v| + 1 && Val(window) < Val(v)
    ensures window[|v|] == 0 && Val(window[..|v|]) == Val(window)
    ensures Val(low + window[..|v|]) == Val(low + window)
  {
    hide Mul, Val, W;
    var n := |v|;
    ValBound(v);
    ValPrefix(window, n);
    assert window[..n + 1] == window;
    MulUnit(W(n));
    if window[n] != 0 {
      MulMono(W(n), 1, window[n]);
    }
    ValConcat(low, window);
    ValConcat(low, window[..n]);
  }

  /** D2 to D7: after the loop the low n limbs hold the remainder and limb n is zero. */
  method DigitLoop(u: array<u32>, v: seq<u32>)
    requires |v| >= 2 && v[|v| - 1] != 0 && u.Length == 2 * |v| + 1
    requires Val(u[|v| + 1..]) < Val(v)
    modifies u
    ensures 0 < Val(v) && Val(u[..|v|]) == Mod(Val(old(u[..])), Val(v))
    ensures u[|v|] == 0
  {
    hide Mul, Mod, Val, W;
    var n := |v|;
    CanonicalBound(v);
    ghost var was := u[..];
    var j := n + 1;
    assert u[n + 1..n + 1 + n] == u[n + 1..] && u[..n + 1 + n] == was;
    while j > 0
      invariant 0 <= j <= n + 1
      invariant Val(u[j..j + n]) < Val(v)
      invariant j <= n ==> u[j + n] == 0
      invariant Cong(Val(was), Val(u[..j + n]), Val(v))
    {
      ghost var upper := u[j..j + n];
      ghost var total := u[..j + n];
      j := j - 1;
      ghost var low, window := u[..j], u[j..j + n + 1];
      assert window == [u[j]] + upper && total == low + window;
      WindowRoom(u[j], upper, Val(v));
      ReduceWindow(u, j, v);
      ghost var reduced := u[j..j + n + 1];
      WindowCongruent(low, window, reduced, Val(v));
      SmallWindow(low, reduced, v);
      assert reduced[..n] == u[j..j + n] && reduced[n] == u[j + n];
      assert low + reduced[..n] == u[..j + n];
    }
    assert u[0..n] == u[..n] && u[..0 + n] == u[..n];
    CongSmall(Val(u[..n]), Val(was), Val(v));
  }

  /** Normalising by the leading zeros of the top limb does not overflow n limbs. */
  lemma NormalizedFits(v: seq<u32>, k: nat)
    requires |v| >= 1 && k < 32 && v[|v| - 1] < Pow2(32 - k)
    ensures Mul(Pow2(k), Val(v)) < W(|v|)
  {
    hide Mul, Val, W, Pow2;
    var n, top: int, p, q := |v|, v[|v| - 1], Pow2(k), Pow2(32 - k);
    ValPrefix(v, n - 1);
    assert v[..n] == v;
    ValBound(v[..n - 1]);
    Pow2Is32();
    Pow2Add(k, 32 - k);
    Distrib(W(n - 1), top, 1);
    MulUnit(W(n - 1));
    MulMono(W(n - 1), top + 1, q);
    MulGrows(p, Val(v), Mul(q, W(n - 1)));
    MulAssoc(p, q, W(n - 1));
    WStep(n - 1);
  }

  /** The upper n limbs of the shifted dividend are below the shifted divisor. */
  lemma UpperHalfSmall(u: seq<u32>, d: nat, v: seq<u32>, p: int)
    requires |v| >= 1 && |u| == 2 * |v| + 1 && v[|v| - 1] != 0 && 0 < p
    requires d < W(2 * |v|) && Val(u) == Mul(p, d)
    ensures Val(u[|v| + 1..]) < Mul(p, Val(v))
  {
    hide Mul, Val, W;
    var n, hi := |v|, Val(u[|v| + 1..]);
    CanonicalBound(v);
    ValSplit(u, n + 1);
    WAdd(n + 1, n - 1);
    MulGrows(p, d, W(2 * n));
    MulSwap(p, W(n + 1), W(n - 1));
    MulCancel(W(n + 1), hi, Mul(p, W(n - 1)));
    MulMono(p, W(n - 1), Val(v));
  }

  lemma ShiftExact(p: nat, x: nat, w: nat)
    requires Mul(p, x) < w
    ensures Mod(Mul(p, x), w) == Mul(p, x)
  {
    hide Mul, Mod;
    MulSign(p, x);
    ModSmall(Mul(p, x), w);
  }

  lemma DividendFits(d: seq<u32>, k: nat)
    requires k < 32
    ensures Mul(Pow2(k), Val(d)) < W(|d| + 1)
  {
    hide Mul, Val, W, Pow2;
    ValBound(d);
    Pow2Is32();
    Pow2Monotone(k, 32);
    MulGrows(Pow2(k), Val(d), W(|d|));
    MulMono(W(|d|), Pow2(k), B);
    WStep(|d|);
  }

  lemma TopLimbKept(v: seq<u32>, divisor: seq<u32>, p: int)
    requires |v| == |divisor| > 0 && 0 < p && Val(v) == Mul(p, Val(divisor)) && W(|v| - 1) <= Val(divisor)
    ensures v[|v| - 1] != 0
  {
    hide Mul, Val, W;
    MulMono(Val(divisor), 1, p);
    MulUnit(Val(divisor));
    if v[|v| - 1] == 0 {
      ValDropLeadingZero(v);
      ValBound(v[..|v| - 1]);
    }
  }

  /** D1: both shifted vectors stand for the original values times 2^k, and the divisor keeps its top limb. */
  lemma NormalizedDivisor(divisor: seq<u32>, k: nat, v: seq<u32>)
    requires |divisor| >= 2 && |v| == |divisor|
    requires divisor[|divisor| - 1] != 0 && k == LeadingZeros(divisor[|divisor| - 1])
    requires if k > 0 then Val(v) == Mod(Mul(Pow2(k), Val(divisor)), W(|v|)) else v == divisor
    ensures Val(v) == Mul(Pow2(k), Val(divisor)) && v[|v| - 1] != 0
  {
    hide Mul, Mod, Val, W, Pow2;
    CanonicalBound(divisor);
    if k > 0 {
      NormalizedFits(divisor, k);
      ShiftExact(Pow2(k), Val(divisor), W(|v|));
      TopLimbKept(v, divisor, Pow2(k));
    } else {
      Pow2Zero();
      MulUnit(Val(divisor));
    }
  }

  lemma NormalizedDividend(dividend: seq<u32>, k: nat, u: seq<u32>)
    requires |u| == |dividend| + 1 && k < 32
    requires if k > 0 then Val(u) == Mod(Mul(Pow2(k), Val(dividend + [0])), W(|u|)) else u == dividend + [0]
    ensures Val(u) == Mul(Pow2(k), Val(dividend))
  {
    hide Mul, Mod, Val, W, Pow2;
    ValSnoc(dividend, 0);
    MulUnit(W(|dividend|));
    if k > 0 {
      DividendFits(dividend, k);
      ShiftExact(Pow2(k), Val(dividend), W(|u|));
    } else {
      Pow2Zero();
      MulUnit(Val(dividend));
    }
  }

  /** Dividing the shifted remainder by 2^k gives the remainder of the original values. */
  lemma Unnormalized(d: nat, v: int, p: int)
    requires 0 < v && 0 < p
    ensures 0 < Mul(p, v) && Div(Mod(Mul(p, d), Mul(p, v)), p) == Mod(d, v)
    ensures p == 1 ==> Mod(Mul(p, d), Mul(p, v)) == Mod(d, v)
  {
    hide Mul, Div, Mod;
    MulComm(p, d);
    MulComm(p, v);
    ModScale(d, v, p);
    MulComm(p, Mod(d, v));
    DivModUnique(Mul(p, Mod(d, v)), p, Mod(d, v), 0);
    MulUnit(Mod(d, v));
  }

  /** Fast reduction of a dividend of exactly 2n limbs by n limbs, n at least 2, top divisor limb nonzero. */
  method Mod2nByNLimb(dividend: seq<u32>, divisor: seq<u32>) returns (r: Option<seq<u32>>)
    ensures r.Some? <==> |divisor| >= 2 && |dividend| == 2 * |divisor| && divisor[|divisor| - 1] != 0
    ensures r.Some? ==> |r.value| == |divisor| && 0 < Val(divisor) && Val(r.value) == Mod(Val(dividend), Val(divisor))
  {
    hide Mul, Div, Mod, Val, W, Pow2;
    var n := |divisor|;
    if n < 2 || |dividend| != n * 2 || divisor[n - 1] == 0 {
      return None;
    }
    CanonicalBound(divisor);
    ValBound(dividend);
    var m := n * 2;
    var v := new u32[n](i requires 0 <= i < n => divisor[i]);
    var u := new u32[m + 1](i => if 0 <= i < m then dividend[i] else 0);
    assert v[..] == divisor && u[..] == dividend + [0];

    var normShift := LeadingZeros(v[n - 1]);
    if normShift > 0 {
      LimbsShlBits(v, normShift);
      LimbsShlBits(u, normShift);
    }
    NormalizedDivisor(divisor, normShift, v[..]);
    NormalizedDividend(dividend, normShift, u[..]);
    UpperHalfSmall(u[..], Val(dividend), divisor, Pow2(normShift));

    DigitLoop(u, v[..]);

    // The correction loop of lines 756-764 never runs: the digit loop already left a remainder.
    var ge := GeLimbsPrefix(u[..], v[..], n);
    assert u[..][..n] == u[..n] && v[..][..n] == v[..];
    if u[n] != 0 || ge {
      assert false;
    }

    Unnormalized(Val(dividend), Val(divisor), Pow2(normShift));
    if normShift > 0 {
      LimbsShrBits(u, n, normShift);
    } else {
      Pow2Zero();
    }
    var rem := u[..n];
    // The last subtract of lines 772-774 never runs either.
    ge := GeLimbsPrefix(rem, divisor, n);
    assert rem[..n] == rem && divisor[..n] == divisor;
    if ge {
      assert false;
    }
    return Some(rem);
  }
}
