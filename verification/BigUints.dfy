/** `BigUint`: canonical limb vectors, and the arithmetic the source does on them limb by limb. */
module BigUints {
  import opened Arith
  import opened Words
  import opened Limbs
  import opened LimbOps

  /** The struct's one private field. Every constructor strips leading zero limbs. */
  type BigUint = limbs: seq<u32> | Canonical(limbs)

  datatype Ordering = Less | Equal | Greater

  const ZERO: BigUint := []
  const ONE: BigUint := [1]

  lemma OneIsOne()
    ensures Val(ONE) == 1 && Val(ZERO) == 0
  {
    ValCons(1, []);
    assert [1] + [] == [1];
  }

  method FromLimbs(limbs: seq<u32>) returns (r: BigUint)
    ensures Val(r) == Val(limbs)
  {
    hide Val;
    var v := limbs;
    while |v| > 0 && v[|v| - 1] == 0
      invariant Val(v) == Val(limbs)
      decreases |v|
    {
      ValDropLeadingZero(v);
      v := v[..|v| - 1];
    }
    return v;
  }

  method Cmp(a: BigUint, b: BigUint) returns (o: Ordering)
    ensures o == if Val(a) < Val(b) then Less else if Val(a) == Val(b) then Equal else Greater
    ensures o == Equal <==> a == b
  {
    hide Val;
    CanonicalUnique(a, b);
    CanonicalUnique(b, a);
    if |a| != |b| {
      return if |a| < |b| then Less else Greater;
    }
    var idx := |a|;
    while idx > 0
      invariant 0 <= idx <= |a|
      invariant a[idx..] == b[idx..]
    {
      idx := idx - 1;
      if a[idx] != b[idx] {
        if a[idx] < b[idx] {
          TopLimbDecides(a, b, idx);
        } else {
          TopLimbDecides(b, a, idx);
        }
        return if a[idx] < b[idx] then Less else Greater;
      }
    }
    assert a[0..] == a && b[0..] == b;
    return Equal;
  }

  /** A limb vector read past its end gives zero. */
  function Limb(a: seq<u32>, i: nat): u32 {
    if i < |a| then a[i] else 0
  }

  /** The first `n` limbs of a vector, zero-padded. */
  function Padded(a: seq<u32>, n: nat): (p: seq<u32>)
    ensures |p| == n && forall i :: 0 <= i < n ==> p[i] == Limb(a, i)
  {
    seq(n, i requires 0 <= i < n => Limb(a, i))
  }

  lemma PaddedValue(a: seq<u32>, n: nat)
    requires |a| <= n
    ensures Val(Padded(a, n)) == Val(a)
  {
    hide Val, W, Mul;
    var z := Padded(a, n)[|a|..];
    assert Padded(a, n) == a + z;
    ValConcat(a, z);
    ValZeros(z);
    MulUnit(W(|a|));
  }

  method Add(a: BigUint, b: BigUint) returns (r: BigUint)
    ensures Val(r) == Val(a) + Val(b)
  {
    hide Mul, Val, W, Added;
    var maxLen := Max(|a|, |b|);
    ghost var pa, pb := Padded(a, maxLen), Padded(b, maxLen);
    var out: seq<u32> := [];
    var carry: u64 := 0;
    AddedStart();
    assert pa[..0] == [] && pb[..0] == [];
    for idx := 0 to maxLen
      invariant |out| == idx && carry <= 1
      invariant Added(pa[..idx], out, pb[..idx], carry)
    {
      var sum: u64 := Limb(a, idx) + Limb(b, idx) + carry;
      AddStep(out, carry, sum % B, sum / B, pa, pb);
      out := out + [sum % B];
      carry := sum / B;
    }
    assert pa[..maxLen] == pa && pb[..maxLen] == pb;
    PaddedValue(a, maxLen);
    PaddedValue(b, maxLen);
    AddedValue(pa, out, pb, carry);
    if carry != 0 {
      out := out + [carry];
    }
    r := FromLimbs(out);
  }

  lemma AddedValue(a: seq<u32>, out: seq<u32>, b: seq<u32>, carry: u32)
    requires Added(a, out, b, carry)
    ensures Val(out + [carry]) == Val(a) + Val(b)
    ensures carry == 0 ==> Val(out) == Val(a) + Val(b)
  {
    hide Mul, Val, W;
    ValSnoc(out, carry);
    MulUnit(W(|out|));
  }

  /** The limbs of a number below a width, and how many widths the rest makes. */
  lemma LowLimbs(b: seq<u32>, n: nat) returns (high: nat)
    ensures Val(b) == Val(Padded(b, n)) + Mul(W(n), high)
  {
    hide Mul, Val, W;
    if |b| <= n {
      high := 0;
      PaddedValue(b, n);
      MulUnit(W(n));
    } else {
      high := Val(b[n..]);
      ValSplit(b, n);
      assert Padded(b, n) == b[..n];
    }
  }

  /** A borrow out of the top leaves the difference modulo the width. */
  lemma WrappedDifference(a: seq<u32>, b: seq<u32>, out: seq<u32>, borrow: int)
    requires |out| == |a| && 0 <= borrow <= 1
    requires Val(out) == Val(a) - Val(Padded(b, |a|)) + (if borrow == 1 then W(|a|) else 0)
    ensures Val(out) == Mod(Val(a) - Val(b), W(|a|))
    ensures Val(b) <= Val(a) ==> Val(out) == Val(a) - Val(b)
  {
    hide Mul, Div, Mod, Val, W;
    var high := LowLimbs(b, |a|);
    var w: int := W(|a|);
    ValBound(out);
    ValBound(a);
    MulUnit(w);
    Distrib(w, high, borrow);
    MulNeg(high + borrow, w);
    MulComm(w, high + borrow);
    MulComm(w, -(high + borrow));
    DivModUnique(Val(a) - Val(b), w, -(high + borrow), Val(out));
    if Val(b) <= Val(a) {
      ModSmall(Val(a) - Val(b), w);
    }
  }

  /**
   The difference modulo the width of the minuend, as a release build wraps; the exact difference whenever
   there is one. The source asserts `self >= other` in debug builds.
   */
  method Sub(a: BigUint, b: BigUint) returns (r: BigUint)
    ensures Val(r) == Mod(Val(a) - Val(b), W(|a|))
    ensures Val(b) <= Val(a) ==> Val(r) == Val(a) - Val(b)
  {
    hide Mul, Mod, Val, W, Subtracted;
    ghost var pb := Padded(b, |a|);
    var out: seq<u32> := [];
    var borrow: i64 := 0;
    SubtractedStart();
    assert a[..0] == [] && pb[..0] == [];
    for idx := 0 to |a|
      invariant |out| == idx && 0 <= borrow <= 1
      invariant Subtracted(a[..idx], out, pb[..idx], borrow)
    {
      var x: i64, y: i64 := a[idx], Limb(b, idx);
      var diff: i64 := x - y - borrow;
      if diff < 0 {
        BorrowStep(out, borrow, diff + B, 1, a, pb);
        out := out + [diff + B];
        borrow := 1;
      } else {
        BorrowStep(out, borrow, diff, 0, a, pb);
        out := out + [diff];
        borrow := 0;
      }
    }
    assert a[..|a|] == a && pb[..|a|] == pb;
    SubtractedBorrow(a, out, pb, borrow);
    WrappedDifference(a, b, out, borrow);
    r := FromLimbs(out);
  }

  /** One limb of a row of the schoolbook product. */
  lemma RowStep(out: seq<u32>, i: nat, b: seq<u32>, j: nat, x: u32, carry: int, d: u32, carry': int, acc: int)
    requires j < |b| && i + j < |out|
    requires Val(out) + Mul(carry, W(i + j)) == acc + Mul(Mul(x, Val(b[..j])), W(i))
    requires d + B * carry' == out[i + j] + Mul(x, b[j]) + carry
    ensures Val(out[i + j := d]) + Mul(carry', W(i + j + 1)) == acc + Mul(Mul(x, Val(b[..j + 1])), W(i))
  {
    hide Mul, Val, W;
    var w, o: int, p := W(i + j), out[i + j], Mul(x, b[j]);
    ValUpdate(out, i + j, d);
    CarryOn(w, d - o, carry', p + carry, i + j);
    Distrib(w, p, carry);
    ValPrefix(b, j);
    Distrib(x, Val(b[..j]), Mul(b[j], W(j)));
    MulAssoc(x, b[j], W(j));
    Distrib(W(i), Mul(x, Val(b[..j])), Mul(p, W(j)));
    MulAssoc(p, W(j), W(i));
    WAdd(j, i);
  }

  lemma CarryOn(w: int, d: int, carry: int, x: int, n: nat)
    requires w == W(n) && d + B * carry == x
    ensures Mul(d, w) + Mul(carry, W(n + 1)) == Mul(x, w)
  {
    hide Mul, W;
    WStep(n);
    MulSwap(carry, B, w);
    MulIsProduct(carry);
    MulAssoc(B, carry, w);
    Distrib(w, d, B * carry);
  }

  lemma RowEnd(out: seq<u32>, idx: nat, carry: int, d: u32, carry': int)
    requires idx < |out| && d + B * carry' == out[idx] + carry
    ensures Val(out[idx := d]) + Mul(carry', W(idx + 1)) == Val(out) + Mul(carry, W(idx))
  {
    hide Mul, Val, W;
    ValUpdate(out, idx, d);
    CarryOn(W(idx), d - out[idx] as int, carry', carry, idx);
  }

  /** The carry of a row cannot leave the vector when the row's total fits in it. */
  lemma RowFits(out: seq<u32>, idx: nat, carry: int, total: int)
    requires 0 <= carry && idx <= |out| && (carry == 0 || idx == |out|)
    requires Val(out) + Mul(carry, W(idx)) == total < W(|out|)
    ensures Val(out) == total
  {
    hide Mul, Val, W;
    MulUnit(W(idx));
    if carry != 0 {
      MulMono(W(idx), 1, carry);
    }
  }

  lemma RowTotal(a: seq<u32>, i: nat, b: seq<u32>)
    requires i < |a|
    ensures Mul(Val(a[..i]), Val(b)) + Mul(Mul(a[i], Val(b)), W(i)) == Mul(Val(a[..i + 1]), Val(b))
    ensures Mul(Val(a[..i + 1]), Val(b)) < W(|a| + |b|)
  {
    hide Mul, Val, W;
    ValPrefix(a, i);
    Distrib(Val(b), Val(a[..i]), Mul(a[i], W(i)));
    MulAssoc(a[i], W(i), Val(b));
    MulComm(W(i), Val(b));
    MulAssoc(a[i], Val(b), W(i));
    ValBound(a[..i + 1]);
    ValBound(b);
    WMonotone(i + 1, |a|);
    MulMono(Val(b), Val(a[..i + 1]), W(|a|));
    MulGrows(W(|a|), Val(b), W(|b|));
    WAdd(|a|, |b|);
  }

  method Multiply(a: BigUint, b: BigUint) returns (r: BigUint)
    ensures Val(r) == Mul(Val(a), Val(b))
  {
    hide Mul, Val, W;
    ValEmpty();
    MulUnit(Val(a));
    MulUnit(Val(b));
    if |a| == 0 || |b| == 0 {
      return ZERO;
    }
    var out := new u32[|a| + |b|](_ => 0);
    ValZeros(out[..]);
    assert a[..0] == [];
    for i := 0 to |a|
      invariant Val(out[..]) == Mul(Val(a[..i]), Val(b))
    {
      RowTotal(a, i, b);
      MultiplyRow(out, i, a[i], b, Mul(Val(a[..i + 1]), Val(b)), |a|);
    }
    assert a[..|a|] == a;
    r := FromLimbs(out[..]);
  }

  /** The two inner loops of `mul`: add `x * b` at limb `i`, then let the carry run. */
  method MultiplyRow(out: array<u32>, i: nat, x: u32, b: seq<u32>, ghost total: int, aLen: nat)
    requires i < aLen && out.Length == aLen + |b|
    requires total == Val(out[..]) + Mul(Mul(x, Val(b)), W(i)) < W(out.Length)
    modifies out
    ensures Val(out[..]) == total
  {
    hide Mul, Val, W;
    ghost var acc := Val(out[..]);
    var carry: u64 := 0;
    assert b[..0] == [];
    ValEmpty();
    MulUnit(x);
    MulUnit(W(i));
    for j := 0 to |b|
      invariant carry < B
      invariant Val(out[..]) + Mul(carry, W(i + j)) == acc + Mul(Mul(x, Val(b[..j])), W(i))
    {
      var idx := i + j;
      ProductRoom(x, b[j], carry);
      var cur: u64 := out[idx] + Mul(x, b[j]) + carry;
      RowStep(out[..], i, b, j, x, carry, cur % B, cur / B, acc);
      out[idx] := cur % B;
      carry := cur / B;
    }
    assert b[..|b|] == b;
    var idx := i + |b|;
    while carry != 0 && idx < out.Length
      invariant carry < B && i + |b| <= idx <= out.Length
      invariant Val(out[..]) + Mul(carry, W(idx)) == total
    {
      var cur: u64 := out[idx] + carry;
      RowEnd(out[..], idx, carry, cur % B, cur / B);
      out[idx] := cur % B;
      carry := cur / B;
      idx := idx + 1;
    }
    RowFits(out[..], idx, carry, total);
  }
}
