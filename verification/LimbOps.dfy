/** The in-place limb helpers of `bignum.rs`. A slice the source only reads is a sequence here. */
module LimbOps {
  import opened Arith
  import opened Words
  import opened Limbs

  /** One carry step, low limb to high: the digit kept plus the carry passed on. */
  lemma CarryStep(low: seq<u32>, carry: int, d: u32, carry': int, x: int, acc: int)
    requires Val(low) + Mul(carry, W(|low|)) == acc
    requires d + B * carry' == x + carry
    ensures Val(low + [d]) + Mul(carry', W(|low| + 1)) == acc + Mul(x, W(|low|))
  {
    hide Mul, Val, W;
    var w := W(|low|);
    ValSnoc(low, d);
    WStep(|low|);
    MulSwap(carry', B, w);
    MulIsProduct(Mul(carry', w));
    MulIsProduct(carry');
    MulAssoc(B, carry', w);
    Distrib(w, d, B * carry');
    Distrib(w, x, carry);
  }

  /** One step of a left shift by `k` bits. */
  lemma ShlStep(low: seq<u32>, was: seq<u32>, k: nat, carry: u32)
    requires 0 < k < 32 && |low| < |was| && carry < Pow2(k)
    requires Val(low) + Mul(carry, W(|low|)) == Mul(Pow2(k), Val(was[..|low|]))
    ensures var v, d := was[|low|], Or(Shl32(was[|low|], k), carry);
            && 0 <= d < B
            && Shr32(v, 32 - k) < Pow2(k)
            && Val(low + [d]) + Mul(Shr32(v, 32 - k), W(|low| + 1)) == Mul(Pow2(k), Val(was[..|low| + 1]))
  {
    hide Mul, Val, W, Pow2;
    var i := |low|;
    var v := was[i];
    ShlOr(v, k, carry);
    CarryStep(low, carry, Or(Shl32(v, k), carry), Shr32(v, 32 - k), Mul(v, Pow2(k)), Mul(Pow2(k), Val(was[..i])));
    ValPrefix(was, i);
    Distrib(Pow2(k), Val(was[..i]), Mul(v, W(i)));
    MulComm(v, Pow2(k));
    MulAssoc(Pow2(k), v, W(i));
  }

  lemma ShlDone(now: seq<u32>, was: seq<u32>, p: int, carry: int)
    requires |now| == |was| && Val(now) + Mul(carry, W(|was|)) == Mul(p, Val(was))
    ensures Val(now) == Mod(Mul(p, Val(was)), W(|was|))
  {
    hide Mul, Mod, Val, W;
    ValBound(now);
    MulComm(carry, W(|was|));
    DivModUnique(Mul(p, Val(was)), W(|was|), carry, Val(now));
  }

  lemma ShlStart(p: int)
    ensures Val([]) + Mul(0, W(0)) == Mul(p, Val([]))
  {
    MulUnit(p);
    MulUnit(W(0));
  }

  method LimbsLshift1(limbs: array<u32>)
    modifies limbs
    ensures Val(limbs[..]) == Mod(Mul(2, Val(old(limbs[..]))), W(limbs.Length))
  {
    hide Mul, Mod, Val, W, Shl32, Shr32;
    ghost var was := limbs[..];
    var carry: u32 := 0;
    var i := 0;
    assert Pow2(1) == 2;
    ShlStart(2);
    assert limbs[..0] == [] && was[..0] == [];
    while i < limbs.Length
      invariant 0 <= i <= limbs.Length && carry < Pow2(1)
      invariant limbs[i..] == was[i..]
      invariant Val(limbs[..i]) + Mul(carry, W(i)) == Mul(2, Val(was[..i]))
    {
      ghost var low := limbs[..i];
      assert limbs[i] == limbs[i..][0] == was[i];
      ShlStep(low, was, 1, carry);
      AndOne(Shr32(was[i], 31));
      var nextCarry := And(Shr32(limbs[i], 31), 1);
      limbs[i] := Or(Shl32(limbs[i], 1), carry);
      assert limbs[..i + 1] == low + [limbs[i]];
      carry := nextCarry;
      i := i + 1;
    }
    assert limbs[..i] == limbs[..] && was[..i] == was;
    ShlDone(limbs[..], was, 2, carry);
  }

  method LimbsShlBits(limbs: array<u32>, k: nat)
    modifies limbs
    ensures !(0 < k < 32) ==> limbs[..] == old(limbs[..])
    ensures 0 < k < 32 ==> Val(limbs[..]) == Mod(Mul(Pow2(k), Val(old(limbs[..]))), W(limbs.Length))
  {
    hide Mul, Mod, Val, W, Shl32, Shr32, Pow2;
    if k == 0 || k >= 32 {
      return;
    }
    ghost var was := limbs[..];
    var carry: u32 := 0;
    var i := 0;
    ShlStart(Pow2(k));
    Pow2Is32();
    Pow2Monotone(k, 32);
    assert limbs[..0] == [] && was[..0] == [];
    while i < limbs.Length
      invariant 0 <= i <= limbs.Length && carry < Pow2(k)
      invariant limbs[i..] == was[i..]
      invariant Val(limbs[..i]) + Mul(carry, W(i)) == Mul(Pow2(k), Val(was[..i]))
    {
      ghost var low := limbs[..i];
      assert limbs[i] == limbs[i..][0] == was[i];
      ShlStep(low, was, k, carry);
      var v := limbs[i];
      limbs[i] := Or(Shl32(v, k), carry);
      assert limbs[..i + 1] == low + [limbs[i]];
      carry := Shr32(v, 32 - k);
      i := i + 1;
    }
    assert limbs[..i] == limbs[..] && was[..i] == was;
    ShlDone(limbs[..], was, Pow2(k), carry);
  }

  /** One digit of a right shift by `k` bits; `c` holds the low bits of the digit above. */
  lemma ShrDigit(v: u32, k: nat, c: nat)
    requires 0 < k < 32 && c < Pow2(k)
    ensures var carry := Mul(c, Pow2(32 - k));
            && 0 <= carry < B
            && 0 <= Or(Shr32(v, k), carry) < B
            && Mul(Pow2(k), Or(Shr32(v, k), carry)) + Mod(v, Pow2(k)) == v + B * c
    ensures Shl32(v, 32 - k) == Mul(Mod(v, Pow2(k)), Pow2(32 - k))
  {
    hide Mul, Div, Mod, Pow2;
    var p, q := Pow2(k), Pow2(32 - k);
    Pow2Is32();
    Pow2Add(k, 32 - k);
    ShlSplit(v, 32 - k);
    DivMod(v, p);
    var h := Div(v, p);
    MulCancel(p, h, q);
    OrDisjoint(c, h, 32 - k);
    OrCommutes(h, Mul(c, q));
    MulMono(q, c, p - 1);
    Distrib(q, p, 1);
    MulUnit(q);
    Distrib(p, Mul(c, q), h);
    MulSwap(p, c, q);
    MulIsProduct(c);
  }

  lemma ShrStep(high: seq<u32>, highWas: seq<u32>, v: u32, p: int, c: int, d: u32, c': int)
    requires Val(highWas) == Mul(p, Val(high)) + c
    requires Mul(p, d) + c' == v + B * c
    ensures Val([v] + highWas) == Mul(p, Val([d] + high)) + c'
  {
    hide Mul, Val, W;
    ValCons(v, highWas);
    ValCons(d, high);
    ScaledDigit(p, Val([d] + high), d, Val(high));
  }

  lemma ScaledDigit(p: int, x: int, d: int, h: int)
    requires x == d + B * h
    ensures Mul(p, x) == Mul(p, d) + B * Mul(p, h)
  {
    hide Mul;
    Distrib(p, d, B * h);
    MulIsProduct(h);
    MulSwap(p, B, h);
    MulIsProduct(Mul(p, h));
  }

  lemma ShrStart(p: int)
    ensures Val([]) == Mul(p, Val([])) + 0 && Mul(0, p) == 0
  {
    MulUnit(p);
  }

  /** Right shift of the slice `limbs[..len]`. */
  method LimbsShrBits(limbs: array<u32>, len: nat, k: nat)
    requires len <= limbs.Length
    modifies limbs
    ensures limbs[len..] == old(limbs[len..])
    ensures !(0 < k < 32) ==> limbs[..] == old(limbs[..])
    ensures 0 < k < 32 ==> Val(limbs[..len]) == Div(Val(old(limbs[..len])), Pow2(k))
  {
    hide Mul, Div, Mod, Val, W, Shl32, Shr32, Pow2;
    if k == 0 || k >= 32 {
      return;
    }
    ghost var was := limbs[..len];
    ghost var tail := limbs[len..];
    var carry: u32 := 0;
    ghost var c := 0;
    var idx := len;
    ShrStart(Pow2(k));
    ShrStart(Pow2(32 - k));
    assert was[len..] == [] && limbs[len..len] == [];
    while idx > 0
      invariant 0 <= idx <= len
      invariant limbs[len..] == tail && limbs[..idx] == was[..idx]
      invariant 0 <= c < Pow2(k) && carry == Mul(c, Pow2(32 - k))
      invariant Val(was[idx..]) == Mul(Pow2(k), Val(limbs[idx..len])) + c
    {
      idx := idx - 1;
      ghost var high := limbs[idx + 1..len];
      assert limbs[idx] == limbs[..idx + 1][idx] == was[idx];
      var v := limbs[idx];
      ShrDigit(v, k, c);
      ShrStep(high, was[idx + 1..], v, Pow2(k), c, Or(Shr32(v, k), carry), Mod(v, Pow2(k)));
      assert was[idx..] == [v] + was[idx + 1..];
      limbs[idx] := Or(Shr32(v, k), carry);
      assert limbs[idx..len] == [limbs[idx]] + high;
      carry := Shl32(v, 32 - k);
      c := Mod(v, Pow2(k));
    }
    assert was[0..] == was && limbs[0..len] == limbs[..len];
    DivModUnique(Val(was), Pow2(k), Val(limbs[..len]), c);
  }

  method GeLimbsPrefix(a: seq<u32>, b: seq<u32>, len: nat) returns (ge: bool)
    requires len <= |a| && len <= |b|
    ensures ge <==> Val(a[..len]) >= Val(b[..len])
  {
    hide Val;
    var idx := len;
    while idx > 0
      invariant 0 <= idx <= len
      invariant a[idx..len] == b[idx..len]
    {
      idx := idx - 1;
      if a[idx] != b[idx] {
        assert a[..len][idx + 1..] == a[idx + 1..len] && b[..len][idx + 1..] == b[idx + 1..len];
        if a[idx] < b[idx] {
          TopLimbDecides(a[..len], b[..len], idx);
        } else {
          TopLimbDecides(b[..len], a[..len], idx);
        }
        return a[idx] > b[idx];
      }
    }
    assert a[0..len] == a[..len] && b[0..len] == b[..len];
    return true;
  }

  /** Subtracting `b` from the limbs `was` leaves `now`, with `borrow` still owed at the next limb. */
  ghost predicate Subtracted(was: seq<u32>, now: seq<u32>, b: seq<u32>, borrow: int) {
    Val(now) + Val(b) == Val(was) + Mul(borrow, W(|now|))
  }

  lemma SubtractedBorrow(was: seq<u32>, now: seq<u32>, b: seq<u32>, borrow: int)
    requires |was| == |now| == |b| && 0 <= borrow <= 1
    requires Subtracted(was, now, b, borrow)
    ensures borrow == 1 <==> Val(was) < Val(b)
    ensures Val(now) == Val(was) - Val(b) + (if borrow == 1 then W(|b|) else 0)
  {
    hide Mul, Val, W;
    ValBound(now);
    ValBound(was);
    ValBound(b);
    MulUnit(W(|now|));
  }

  lemma SubtractedStart()
    ensures Subtracted([], [], [], 0)
  {
  }

  lemma BorrowStep(low: seq<u32>, borrow: int, d: u32, borrow': int, was: seq<u32>, b: seq<u32>)
    requires |low| < |was| && |low| < |b|
    requires Subtracted(was[..|low|], low, b[..|low|], borrow)
    requires d + b[|low|] + borrow == was[|low|] + B * borrow'
    ensures Subtracted(was[..|low| + 1], low + [d], b[..|low| + 1], borrow')
  {
    hide Mul, Val, W;
    var i := |low|;
    var x: int, y: int := was[i], b[i];
    MulNeg(borrow, W(i));
    MulNeg(borrow', W(i + 1));
    CarryStep(low, -borrow, d, -borrow', x - y, Val(was[..i]) - Val(b[..i]));
    Distrib(W(i), x, y);
    ValPrefix(was, i);
    ValPrefix(b, i);
  }

  method SubLimbsBorrowPrefix(a: array<u32>, b: seq<u32>, len: nat) returns (borrowed: bool)
    requires len <= a.Length && len <= |b|
    modifies a
    ensures a[len..] == old(a[len..])
    ensures borrowed <==> Val(old(a[..len])) < Val(b[..len])
    ensures Val(a[..len]) == Val(old(a[..len])) - Val(b[..len]) + (if borrowed then W(len) else 0)
  {
    hide Mul, Val, W, Subtracted;
    ghost var was := a[..len];
    ghost var tail := a[len..];
    var borrow: u64 := 0;
    var idx := 0;
    SubtractedStart();
    assert a[..0] == [] && b[..0] == [] && was[..0] == [];
    while idx < len
      invariant 0 <= idx <= len && 0 <= borrow <= 1
      invariant a[len..] == tail && a[idx..len] == was[idx..]
      invariant Subtracted(was[..idx], a[..idx], b[..idx], borrow)
    {
      ghost var low := a[..idx];
      assert a[idx] == a[idx..len][0] == was[idx];
      var av: u64 := a[idx];
      var bv: u64 := b[idx] + borrow;
      ghost var borrowIn: int := borrow;
      if av < bv {
        a[idx] := av + B - bv;
        borrow := 1;
      } else {
        a[idx] := av - bv;
        borrow := 0;
      }
      BorrowStep(low, borrowIn, a[idx], borrow, was, b);
      assert a[..idx + 1] == low + [a[idx]];
      idx := idx + 1;
    }
    assert was[..len] == was;
    SubtractedBorrow(was, a[..len], b[..len], borrow);
    return borrow != 0;
  }

  /** The same loop without the borrow result; the source writes it out a second time. */
  method SubLimbsPrefix(a: array<u32>, b: seq<u32>, len: nat)
    requires len <= a.Length && len <= |b|
    modifies a
    ensures a[len..] == old(a[len..])
    ensures Val(a[..len]) == Val(old(a[..len])) - Val(b[..len]) + (if Val(old(a[..len])) < Val(b[..len]) then W(len) else 0)
  {
    var _ := SubLimbsBorrowPrefix(a, b, len);
  }

  /** Subtracting q * v from the limbs `was` leaves `now`, with `k` still owed at the next limb. */
  ghost predicate MulSubtracted(was: seq<u32>, now: seq<u32>, q: int, v: seq<u32>, k: int) {
    Val(now) + Mul(q, Val(v)) == Val(was) + Mul(k, W(|now|))
  }

  lemma MulSubStart(q: int)
    ensures MulSubtracted([], [], q, [], 0)
  {
  }

  /** One limb of `rem - q * modulus`: the product's carry and the borrow travel together. */
  lemma MulSubStep(low: seq<u32>, was: seq<u32>, v: seq<u32>, q: int, k: int, d: u32, k': int)
    requires |low| < |was| && |low| < |v|
    requires MulSubtracted(was[..|low|], low, q, v[..|low|], k)
    requires d + Mul(q, v[|low|]) + k == was[|low|] + B * k'
    ensures MulSubtracted(was[..|low| + 1], low + [d], q, v[..|low| + 1], k')
  {
    hide Mul, Val, W;
    var i := |low|;
    var x: int, y := was[i], Mul(q, v[i]);
    MulNeg(k, W(i));
    MulNeg(k', W(i + 1));
    CarryStep(low, -k, d, -k', x - y, Val(was[..i]) - Mul(q, Val(v[..i])));
    ValPrefix(v, i);
    Distrib(q, Val(v[..i]), Mul(v[i], W(i)));
    MulAssoc(q, v[i], W(i));
    ValPrefix(was, i);
    Distrib(W(i), x, y);
  }

  lemma MulSubTop(low: seq<u32>, was: seq<u32>, q: int, v: seq<u32>, k: int, d: u32, borrow: int)
    requires |was| == |low| + 1
    requires MulSubtracted(was[..|low|], low, q, v, k)
    requires d + k == was[|low|] + B * borrow
    ensures Val(low + [d]) + Mul(q, Val(v)) == Val(was) + Mul(borrow, W(|was|))
  {
    hide Mul, Val, W;
    var i := |low|;
    MulNeg(k, W(i));
    MulNeg(borrow, W(i + 1));
    CarryStep(low, -k, d, -borrow, was[i], Val(was[..i]) - Mul(q, Val(v)));
    ValPrefix(was, i);
    assert was[..|was|] == was;
  }

  /** u64 room for `x * q + carry`, and its split into two words. */
  lemma ProductRoom(x: u32, q: u32, carry: int)
    requires 0 <= carry < B
    ensures 0 <= Mul(x, q) && Mul(x, q) + carry <= (B - 1) * B
    ensures 0 <= (Mul(x, q) + carry) / B < B
  {
    MulMono(x, q, B - 1);
    MulMono(B - 1, x, B - 1);
    MulSign(x, q);
  }

  /** The body of the loop of `limb_mul_sub`: one limb of `rem`, the new carry and the new borrow. */
  method MulSubLimb(rem: array<u32>, at: nat, x: u32, q: u32, carry: u64, borrow: u64) returns (carry': u64, borrow': u64)
    requires at < rem.Length && carry < B && borrow <= 1
    modifies rem
    ensures carry' < B && borrow' <= 1
    ensures rem[..] == old(rem[..])[at := rem[at]]
    ensures rem[at] + Mul(q, x) + (carry + borrow) == old(rem[at]) + B * (carry' + borrow')
  {
    hide Mul;
    ProductRoom(x, q, carry);
    MulComm(x, q);
    var prod: u64 := Mul(x, q) + carry;
    var sub: u64 := prod % B + borrow;
    var remI: u64 := rem[at];
    carry' := prod / B;
    if remI < sub {
      rem[at] := remI + B - sub;
      borrow' := 1;
    } else {
      rem[at] := remI - sub;
      borrow' := 0;
    }
  }

  /** The last limb of `limb_mul_sub`: a wrapping subtraction and its borrow. */
  method MulSubHigh(rem: array<u32>, at: nat, k: u64) returns (borrowed: bool)
    requires at < rem.Length && k <= B
    modifies rem
    ensures rem[..] == old(rem[..])[at := rem[at]]
    ensures rem[at] + k == old(rem[at]) + B * (if borrowed then 1 else 0)
  {
    var remHi: u64 := rem[at];
    rem[at] := (remHi - k) % B;
    borrowed := remHi < k;
  }

  /** The loop of `limb_mul_sub` over the limbs of the divisor; `k` is still owed at limb `start + n`. */
  method MulSubLow(rem: array<u32>, start: nat, q: u32, modulus: seq<u32>) returns (k: u64)
    requires start + |modulus| <= rem.Length
    modifies rem
    ensures k <= B
    ensures rem[..start] == old(rem[..start])
    ensures rem[start + |modulus|..] == old(rem[start + |modulus|..])
    ensures MulSubtracted(old(rem[start..start + |modulus|]), rem[start..start + |modulus|], q, modulus, k)
  {
    hide Mul, W, Val, MulSubtracted;
    var n := |modulus|;
    ghost var was := rem[start..start + n];
    ghost var below, above := rem[..start], rem[start + n..];
    var carry: u64 := 0;
    var borrow: u64 := 0;
    var i := 0;
    assert rem[start..start] == [] && modulus[..0] == [] && was[..0] == [];
    MulSubStart(q);
    while i < n
      invariant 0 <= i <= n && carry < B && borrow <= 1
      invariant rem[..start] == below && rem[start + n..] == above
      invariant rem[start + i..start + n] == was[i..]
      invariant MulSubtracted(was[..i], rem[start..start + i], q, modulus[..i], carry + borrow)
    {
      ghost var low, owed: int := rem[start..start + i], carry + borrow;
      assert rem[start + i] == rem[start + i..start + n][0] == was[i];
      carry, borrow := MulSubLimb(rem, start + i, modulus[i], q, carry, borrow);
      MulSubStep(low, was, modulus, q, owed, rem[start + i], carry + borrow);
      assert rem[start..start + i + 1] == low + [rem[start + i]];
      i := i + 1;
    }
    assert modulus[..n] == modulus && was[..n] == was;
    k := carry + borrow;
  }

  /** `rem[start .. start+n+1] -= q * modulus`, modulo the weight of that window. */
  method LimbMulSub(rem: array<u32>, start: nat, q: u32, modulus: seq<u32>) returns (borrowed: bool)
    requires start + |modulus| < rem.Length
    modifies rem
    ensures rem[..start] == old(rem[..start])
    ensures rem[start + |modulus| + 1..] == old(rem[start + |modulus| + 1..])
    ensures var was, now := old(rem[start..start + |modulus| + 1]), rem[start..start + |modulus| + 1];
            Val(now) + Mul(q, Val(modulus)) == Val(was) + Mul(if borrowed then 1 else 0, W(|modulus| + 1))
  {
    hide Mul, W, Val, MulSubtracted;
    var n := |modulus|;
    ghost var was, above := rem[start..start + n + 1], rem[start + n..];
    var k := MulSubLow(rem, start, q, modulus);
    ghost var low := rem[start..start + n];
    assert was[..n] == old(rem[start..start + n]);
    assert rem[start + n] == rem[start + n..][0] == was[n];
    assert rem[start + n + 1..] == above[1..];
    borrowed := MulSubHigh(rem, start + n, k);
    assert rem[start..start + n + 1] == low + [rem[start + n]];
    MulSubTop(low, was, q, modulus, k, rem[start + n], if borrowed then 1 else 0);
  }

  /** Adding `b` to the limbs `was` leaves `now`, with `carry` still to be added at the next limb. */
  ghost predicate Added(was: seq<u32>, now: seq<u32>, b: seq<u32>, carry: int) {
    Val(now) + Mul(carry, W(|now|)) == Val(was) + Val(b)
  }

  lemma AddedStart()
    ensures Added([], [], [], 0)
  {
  }

  lemma AddStep(low: seq<u32>, carry: int, d: u32, carry': int, a: seq<u32>, b: seq<u32>)
    requires |low| < |a| && |low| < |b|
    requires Added(a[..|low|], low, b[..|low|], carry)
    requires d + B * carry' == a[|low|] + b[|low|] + carry
    ensures Added(a[..|low| + 1], low + [d], b[..|low| + 1], carry')
  {
    hide Mul, Val, W;
    var i := |low|;
    var x: int, y: int := a[i], b[i];
    CarryStep(low, carry, d, carry', x + y, Val(a[..i]) + Val(b[..i]));
    Distrib(W(i), x, y);
    ValPrefix(a, i);
    ValPrefix(b, i);
  }

  lemma AddTop(low: seq<u32>, carry: int, d: u32, carry': int, a: seq<u32>, b: seq<u32>)
    requires |a| == |low| + 1 && |b| == |low|
    requires Added(a[..|low|], low, b, carry)
    requires d + B * carry' == a[|low|] + carry
    ensures Val(low + [d]) + Mul(carry', W(|a|)) == Val(a) + Val(b)
  {
    hide Mul, Val, W;
    CarryStep(low, carry, d, carry', a[|low|], Val(a[..|low|]) + Val(b));
    ValPrefix(a, |low|);
    assert a[..|a|] == a;
  }

  method AddLimb(rem: array<u32>, at: nat, b: u32, carry: u64) returns (carry': u64)
    requires at < rem.Length && carry <= 1
    modifies rem
    ensures carry' <= 1
    ensures rem[..] == old(rem[..])[at := rem[at]]
    ensures rem[at] + B * carry' == old(rem[at]) + b + carry
  {
    var sum: u64 := rem[at] + b + carry;
    rem[at] := sum % B;
    carry' := sum / B;
  }

  /** The loop of `limb_add_at` over the limbs of the divisor; `carry` is still to be added at limb `start + n`. */
  method LimbAddLow(rem: array<u32>, start: nat, modulus: seq<u32>) returns (carry: u64)
    requires start + |modulus| <= rem.Length
    modifies rem
    ensures carry <= 1
    ensures rem[..start] == old(rem[..start])
    ensures rem[start + |modulus|..] == old(rem[start + |modulus|..])
    ensures Added(old(rem[start..start + |modulus|]), rem[start..start + |modulus|], modulus, carry)
  {
    hide Added;
    var n := |modulus|;
    ghost var was := rem[start..start + n];
    ghost var below, above := rem[..start], rem[start + n..];
    carry := 0;
    assert rem[start..start] == [] && modulus[..0] == [] && was[..0] == [];
    AddedStart();
    for i := 0 to n
      invariant carry <= 1
      invariant rem[..start] == below && rem[start + n..] == above
      invariant rem[start + i..start + n] == was[i..]
      invariant Added(was[..i], rem[start..start + i], modulus[..i], carry)
    {
      ghost var low, owed := rem[start..start + i], carry;
      assert rem[start + i] == rem[start + i..start + n][0] == was[i];
      carry := AddLimb(rem, start + i, modulus[i], carry);
      AddStep(low, owed, rem[start + i], carry, was, modulus);
      assert rem[start..start + i + 1] == low + [rem[start + i]];
    }
    assert modulus[..n] == modulus && was[..n] == was;
  }

  /** `rem[start .. start+n+1] += modulus`, modulo the weight of that window. */
  method LimbAddAt(rem: array<u32>, start: nat, modulus: seq<u32>) returns (carryOut: u32)
    requires start + |modulus| < rem.Length
    modifies rem
    ensures carryOut <= 1
    ensures rem[..start] == old(rem[..start])
    ensures rem[start + |modulus| + 1..] == old(rem[start + |modulus| + 1..])
    ensures var was, now := old(rem[start..start + |modulus| + 1]), rem[start..start + |modulus| + 1];
            Val(now) + Mul(carryOut, W(|modulus| + 1)) == Val(was) + Val(modulus)
  {
    hide Mul, W, Val, Added;
    var n := |modulus|;
    ghost var was, above := rem[start..start + n + 1], rem[start + n..];
    var carry := LimbAddLow(rem, start, modulus);
    ghost var low := rem[start..start + n];
    assert was[..n] == old(rem[start..start + n]);
    assert rem[start + n] == rem[start + n..][0] == was[n];
    assert rem[start + n + 1..] == above[1..];
    carryOut := AddLimb(rem, start + n, 0, carry);
    assert rem[start..start + n + 1] == low + [rem[start + n]];
    AddTop(low, carry, rem[start + n], carryOut, was, modulus);
  }

  /** One limb of a reduction by a small modulus, from the top limb down. */
  lemma SmallStep(x: u32, rest: seq<u32>, rem: int, m: int)
    requires 0 < m && rem == Mod(Val(rest), m)
    ensures Mod(rem * B + x, m) == Mod(Val([x] + rest), m)
  {
    hide Mul, Mod, Val, W;
    ValCons(x, rest);
    CongMod(Val(rest), m);
    CongScale(B, rem, Val(rest), m);
    MulIsProduct(rem);
    MulIsProduct(Val(rest));
    ModSmall(Mod(x, m), m);
    CongAdd(Mul(B, rem), Mul(B, Val(rest)), x, x, m);
  }

  method ModuloSmallU32(limbs: seq<u32>, modulus: u32) returns (r: u32)
    ensures r == if modulus == 0 then 0 else Mod(Val(limbs), modulus)
  {
    hide Mul, Mod, Val, W;
    if modulus == 0 {
      return 0;
    }
    var rem: u64 := 0;
    var idx := |limbs|;
    ValEmpty();
    ModSmall(0, modulus);
    assert limbs[|limbs|..] == [];
    while idx > 0
      invariant 0 <= idx <= |limbs| && rem < modulus
      invariant rem == Mod(Val(limbs[idx..]), modulus)
    {
      idx := idx - 1;
      assert limbs[idx..] == [limbs[idx]] + limbs[idx + 1..];
      SmallStep(limbs[idx], limbs[idx + 1..], rem, modulus);
      var shifted: u64 := rem * B + limbs[idx];
      rem := Mod(shifted, modulus);
    }
    assert limbs[0..] == limbs;
    return rem;
  }
}
