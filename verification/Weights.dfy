/** The one-norm of a polynomial, and the bound it puts on products. */
module Weights {
  import opened Arith
  import opened Sums
  import opened Negacyclic

  /** Sum of the absolute values of the coefficients. */
  function Weight(p: Poly): int {
    Sum(i => AbsAt(p, i), 0, N)
  }

  function AbsAt(p: Poly, i: int): int {
    if 0 <= i < N then Abs(p[i]) else 0
  }

  /** A product is bounded by the weight of one factor times the size of the other. */
  lemma WeightBound(c: Poly, s: Poly, k: int, y: nat)
    requires forall i :: 0 <= i < N ==> Abs(s[i]) <= y
    ensures Abs(ConvAt(c, s, k)) <= Mul(y, Weight(c))
  {
    hide Mul, Ext, AbsAt;
    var f := i => Mul(Ext(c, i), Ext(s, k - i));
    var g := i => AbsAt(c, i);
    forall i | 0 <= i < N ensures Abs(f(i)) <= Mul(y, g(i)) {
      ExtAbs(c, i, s, k - i, y);
      ProductBound(Ext(c, i), Ext(s, k - i), Abs(c[i]), y);
      MulComm(Abs(c[i]), y);
    }
    WeightedSum(f, g, y, N);
    SumEqual(f, i => Mul(Ext(c, i), Ext(s, k - i)), 0, N);
    SumEqual(g, i => AbsAt(c, i), 0, N);
  }

  lemma ExtAbs(c: Poly, i: int, s: Poly, d: int, y: nat)
    requires 0 <= i < N && forall j :: 0 <= j < N ==> Abs(s[j]) <= y
    ensures Abs(Ext(c, i)) == Abs(c[i]) == AbsAt(c, i) && Abs(Ext(s, d)) <= y
  {
  }

  lemma {:induction false} WeightedSum(f: int -> int, g: int -> int, y: nat, n: nat)
    requires forall i :: 0 <= i < n ==> Abs(f(i)) <= Mul(y, g(i))
    ensures Abs(Sum(f, 0, n)) <= Mul(y, Sum(g, 0, n))
  {
    hide Mul;
    if n == 0 {
      MulUnit(y);
    } else {
      WeightedSum(f, g, y, n - 1);
      Distrib(y, Sum(g, 0, n - 1), g(n - 1));
    }
  }

  lemma WeightOfZero()
    ensures Weight(Zero()) == 0
  {
    SumZero(i => AbsAt(Zero(), i), 0, N);
  }

  /** Setting a zero coefficient to 1 or -1 adds one to the weight. */
  lemma WeightGrows(p: Poly, p': Poly, at: nat)
    requires at < N && p[at] == 0 && Abs(p'[at]) == 1
    requires forall i :: 0 <= i < N && i != at ==> p'[i] == p[i]
    ensures Weight(p') == Weight(p) + 1
  {
    var f, g := i => AbsAt(p, i), i => AbsAt(p', i);
    SumBump(f, g, at, N);
    SumEqual(f, i => AbsAt(p, i), 0, N);
    SumEqual(g, i => AbsAt(p', i), 0, N);
  }

  lemma {:induction false} SumBump(f: int -> int, g: int -> int, at: nat, n: nat)
    requires g(at) == f(at) + 1 && forall i :: 0 <= i < n && i != at ==> g(i) == f(i)
    ensures Sum(g, 0, n) == Sum(f, 0, n) + if at < n then 1 else 0
  {
    if n != 0 {
      SumBump(f, g, at, n - 1);
    }
  }
}
