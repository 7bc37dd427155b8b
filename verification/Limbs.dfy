/** The natural number a little-endian vector of 32-bit limbs stands for. */
module Limbs {
  import opened Arith
  import opened Words

  /** The weight of limb `n`. */
  function W(n: nat): (p: nat)
    ensures 0 < p
  {
    if n == 0 then 1 else B * W(n - 1)
  }

  function Val(s: seq<u32>): nat {
    if |s| == 0 then 0 else Val(s[..|s| - 1]) + Mul(s[|s| - 1], W(|s| - 1))
  }

  function Zeros(n: nat): (z: seq<u32>)
    ensures |z| == n && forall i :: 0 <= i < n ==> z[i] == 0
  {
    seq(n, _ => 0)
  }

  /** No leading zero limb: the form `from_limbs` leaves and every constructor keeps. */
  predicate Canonical(s: seq<u32>) {
    |s| == 0 || s[|s| - 1] != 0
  }

  lemma ValEmpty()
    ensures Val([]) == 0
  {
  }

  lemma ValPrefix(s: seq<u32>, i: nat)
    requires i < |s|
    ensures Val(s[..i + 1]) == Val(s[..i]) + Mul(s[i], W(i))
  {
    assert s[..i + 1][..i] == s[..i];
  }

  lemma ValSnoc(s: seq<u32>, x: u32)
    ensures Val(s + [x]) == Val(s) + Mul(x, W(|s|))
  {
    assert (s + [x])[..|s|] == s;
  }

  lemma {:induction false} WAdd(a: nat, b: nat)
    ensures Mul(W(a), W(b)) == W(a + b)
  {
    hide Mul;
    if a == 0 {
      MulUnit(W(b));
    } else {
      WAdd(a - 1, b);
      MulIsProduct(W(a - 1));
      MulAssoc(B, W(a - 1), W(b));
      MulIsProduct(W(a - 1 + b));
    }
  }

  lemma WStep(n: nat)
    ensures W(n + 1) == B * W(n) && Mul(B, W(n)) == W(n + 1)
  {
    MulIsProduct(W(n));
  }

  lemma {:induction false} WMonotone(a: nat, b: nat)
    requires a <= b
    ensures W(a) <= W(b)
  {
    if a < b {
      WMonotone(a, b - 1);
    }
  }

  lemma {:induction false} ValConcat(a: seq<u32>, b: seq<u32>)
    ensures Val(a + b) == Val(a) + Mul(W(|a|), Val(b))
  {
    hide Mul, W;
    if |b| == 0 {
      assert a + b == a;
      MulUnit(W(|a|));
    } else {
      var b0, x := b[..|b| - 1], b[|b| - 1];
      assert a + b == (a + b0) + [x];
      ValSnoc(a + b0, x);
      ValConcat(a, b0);
      WAdd(|a|, |b0|);
      Distrib(W(|a|), Val(b0), Mul(x, W(|b0|)));
      MulSwap(W(|a|), x, W(|b0|));
    }
  }

  lemma ValCons(x: u32, s: seq<u32>)
    ensures Val([x] + s) == x + B * Val(s)
  {
    hide Mul;
    ValConcat([x], s);
    ValSnoc([], x);
    assert [] + [x] == [x];
    assert W(0) == 1 && W(1) == B * W(0);
    MulUnit(x);
    MulIsProduct(Val(s));
  }

  lemma ValSplit(s: seq<u32>, i: nat)
    requires i <= |s|
    ensures Val(s) == Val(s[..i]) + Mul(W(i), Val(s[i..]))
  {
    assert s == s[..i] + s[i..];
    ValConcat(s[..i], s[i..]);
  }

  lemma {:induction false} ValBound(s: seq<u32>)
    ensures Val(s) < W(|s|)
  {
    hide Mul;
    if |s| != 0 {
      var n := |s| - 1;
      ValBound(s[..n]);
      MulMono(W(n), s[n], B - 1);
      Distrib(W(n), B, 1);
      MulUnit(W(n));
      MulIsProduct(W(n));
    }
  }

  lemma {:induction false} ValZeros(s: seq<u32>)
    requires forall i :: 0 <= i < |s| ==> s[i] == 0
    ensures Val(s) == 0
  {
    hide Mul;
    if |s| != 0 {
      ValZeros(s[..|s| - 1]);
      MulUnit(W(|s| - 1));
    }
  }

  lemma ValDropLeadingZero(s: seq<u32>)
    requires |s| > 0 && s[|s| - 1] == 0
    ensures Val(s) == Val(s[..|s| - 1])
  {
    MulUnit(W(|s| - 1));
  }

  /** A canonical vector of n+1 limbs is at least the weight of its top limb. */
  lemma CanonicalBound(s: seq<u32>)
    requires |s| > 0 && Canonical(s)
    ensures W(|s| - 1) <= Val(s) < W(|s|)
  {
    hide Mul;
    ValBound(s);
    MulMono(W(|s| - 1), 1, s[|s| - 1]);
    MulUnit(W(|s| - 1));
  }

  /** The first limb from the top that differs decides the order. */
  lemma TopLimbDecides(a: seq<u32>, b: seq<u32>, k: nat)
    requires |a| == |b| && k < |a|
    requires a[k] < b[k] && a[k + 1..] == b[k + 1..]
    ensures Val(a) < Val(b)
  {
    hide Mul, W;
    ValSplit(a, k + 1);
    ValSplit(b, k + 1);
    ValPrefix(a, k);
    ValPrefix(b, k);
    ValBound(a[..k]);
    var x: int := a[k];
    MulMono(W(k), x + 1, b[k]);
    Distrib(W(k), x, 1);
    MulUnit(W(k));
  }

  lemma ShorterIsSmaller(a: seq<u32>, b: seq<u32>)
    requires Canonical(a) && Canonical(b) && |a| < |b|
    ensures Val(a) < Val(b)
  {
    ValBound(a);
    WMonotone(|a|, |b| - 1);
    CanonicalBound(b);
  }

  /** Canonical representations are unique. */
  lemma {:induction false} ValInjective(a: seq<u32>, b: seq<u32>)
    requires |a| == |b| && Val(a) == Val(b)
    ensures a == b
  {
    hide Mul, W;
    if |a| != 0 {
      var n := |a| - 1;
      ValBound(a[..n]);
      ValBound(b[..n]);
      MulComm(W(n), a[n]);
      MulComm(W(n), b[n]);
      QuotientsEqual(W(n), a[n], Val(a[..n]), b[n], Val(b[..n]));
      ValInjective(a[..n], b[..n]);
      assert a == a[..n] + [a[n]] && b == b[..n] + [b[n]];
    }
  }

  lemma CanonicalUnique(a: seq<u32>, b: seq<u32>)
    requires Canonical(a) && Canonical(b)
    ensures Val(a) == Val(b) <==> a == b
    ensures |a| < |b| ==> Val(a) < Val(b)
  {
    if |a| < |b| {
      ShorterIsSmaller(a, b);
    } else if |b| < |a| {
      ShorterIsSmaller(b, a);
    } else if Val(a) == Val(b) {
      ValInjective(a, b);
    }
  }

  lemma ZeroIsEmpty(a: seq<u32>)
    requires Canonical(a)
    ensures Val(a) == 0 <==> |a| == 0
  {
    CanonicalUnique(a, []);
  }

  /** Writing one limb moves the value by the difference times its weight. */
  lemma ValUpdate(s: seq<u32>, k: nat, x: u32)
    requires k < |s|
    ensures Val(s[k := x]) == Val(s) + Mul(x - s[k] as int, W(k))
  {
    hide Mul, W, Val;
    var t := s[k := x];
    ValSplit(s, k + 1);
    ValSplit(t, k + 1);
    ValPrefix(s, k);
    ValPrefix(t, k);
    assert t[..k] == s[..k] && t[k + 1..] == s[k + 1..];
    Distrib(W(k), x, s[k]);
  }

  lemma {:induction false} WIsPow2(n: nat)
    ensures W(n) == Pow2(32 * n)
  {
    hide Mul;
    if n != 0 {
      WIsPow2(n - 1);
      Pow2Is32();
      Pow2Add(32, 32 * (n - 1));
      MulIsProduct(W(n - 1));
    }
  }
}
