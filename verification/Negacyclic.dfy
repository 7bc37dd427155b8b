/**
 Integer polynomials of 256 coefficients multiplied modulo x^256 + 1: the ring both lattice schemes
 compute in. A polynomial is read at every integer index by antiperiodic extension, so that the
 product is a sum of periodic terms and its laws are laws of periodic sums.
 */
module Negacyclic {
  import opened Arith
  import opened Sums

  const N: nat := 256

  type Poly = s: seq<int> | |s| == 256 witness seq(256, _ => 0)

  /** Coefficient at any integer index: x^256 = -1. */
  function Ext(p: Poly, d: int): int {
    if d / N % 2 == 0 then p[d % N] else -p[d % N]
  }

  /** Coefficient k of the product. */
  function ConvAt(a: Poly, b: Poly, k: int): int {
    Sum(i => Mul(Ext(a, i), Ext(b, k - i)), 0, N)
  }

  function Conv(a: Poly, b: Poly): Poly {
    seq(N, k => ConvAt(a, b, k))
  }

  function AddP(a: Poly, b: Poly): Poly {
    seq(N, k requires 0 <= k < N => a[k] + b[k])
  }

  function SubP(a: Poly, b: Poly): Poly {
    seq(N, k requires 0 <= k < N => a[k] - b[k])
  }

  function Zero(): Poly {
    seq(N, _ => 0)
  }

  /** Coefficientwise congruence. */
  ghost predicate PolyCong(a: Poly, b: Poly, m: int)
    requires 0 < m
  {
    forall k :: 0 <= k < N ==> Cong(a[k], b[k], m)
  }

  lemma CongRefl(a: Poly, m: int)
    requires 0 < m
    ensures PolyCong(a, a, m)
  {
  }

  lemma CongTrans(a: Poly, b: Poly, c: Poly, m: int)
    requires 0 < m && PolyCong(a, b, m) && PolyCong(b, c, m)
    ensures PolyCong(a, c, m) && PolyCong(c, a, m)
  {
    hide Mod;
    forall k | 0 <= k < N ensures Cong(a[k], c[k], m) && Cong(c[k], a[k], m) {
      assert Cong(a[k], b[k], m) && Cong(b[k], c[k], m);
    }
  }

  lemma CongSum(a: Poly, a': Poly, b: Poly, b': Poly, m: int)
    requires 0 < m && PolyCong(a, a', m) && PolyCong(b, b', m)
    ensures PolyCong(AddP(a, b), AddP(a', b'), m)
    ensures PolyCong(SubP(a, b), SubP(a', b'), m)
  {
    hide Mod, Cong;
    forall k | 0 <= k < N ensures Cong(AddP(a, b)[k], AddP(a', b')[k], m) && Cong(SubP(a, b)[k], SubP(a', b')[k], m) {
      assert Cong(a[k], a'[k], m) && Cong(b[k], b'[k], m);
      CongAdd(a[k], a'[k], b[k], b'[k], m);
    }
  }

  lemma ExtInside(p: Poly, d: int)
    requires 0 <= d < N
    ensures Ext(p, d) == p[d] && Ext(p, d - N) == -p[d]
  {
  }

  lemma ExtShift(p: Poly, d: int)
    ensures Ext(p, d + N) == -Ext(p, d) && Ext(p, d - N) == -Ext(p, d)
  {
    assert (d + N) / N == d / N + 1 && (d - N) / N == d / N - 1;
  }

  lemma NegBoth(x: int, y: int)
    ensures Mul(-x, -y) == Mul(x, y) && Mul(x, -y) == -Mul(x, y)
  {
  }

  lemma ConvShift(a: Poly, b: Poly, k: int)
    ensures ConvAt(a, b, k + N) == -ConvAt(a, b, k)
  {
    hide Mul, Ext;
    var f := i => Mul(Ext(a, i), Ext(b, k - i));
    var g := i => Mul(Ext(a, i), Ext(b, k + N - i));
    forall i ensures g(i) == -f(i) {
      ExtShift(b, k - i);
      NegBoth(Ext(a, i), Ext(b, k - i));
    }
    SumNegate(f, g, 0, N);
    SumEqual(f, i => Mul(Ext(a, i), Ext(b, k - i)), 0, N);
    SumEqual(g, i => Mul(Ext(a, i), Ext(b, k + N - i)), 0, N);
  }

  /** The extension of the product is the product formula at every integer. */
  lemma {:induction false} ConvExt(a: Poly, b: Poly, k: int)
    ensures Ext(Conv(a, b), k) == ConvAt(a, b, k)
    decreases if k < 0 then N - k else k
  {
    hide ConvAt;
    if k < 0 {
      ConvExt(a, b, k + N);
      ExtShift(Conv(a, b), k);
      ConvShift(a, b, k);
    } else if k < N {
      ExtInside(Conv(a, b), k);
    } else {
      ConvExt(a, b, k - N);
      ExtShift(Conv(a, b), k - N);
      ConvShift(a, b, k - N);
    }
  }

  lemma {:induction false} ConvCommutes(a: Poly, b: Poly)
    ensures Conv(a, b) == Conv(b, a)
  {
    hide ConvAt;
    forall k | 0 <= k < N ensures Conv(a, b)[k] == Conv(b, a)[k] {
      ConvAtCommutes(a, b, k);
    }
  }

  lemma ConvAtCommutes(a: Poly, b: Poly, k: int)
    ensures ConvAt(a, b, k) == ConvAt(b, a, k)
  {
    hide Mul, Ext, Periodic;
    var f := i => Mul(Ext(a, i), Ext(b, k - i));
    var g := i => Mul(Ext(b, i), Ext(a, k - i));
    assert forall i :: i - 0 == i && f(i) == Mul(Ext(a, i - 0), Ext(b, k - i));
    TermsRepeat(a, b, 0, k, f);
    forall j ensures g(j) == f(k - j) {
      MulComm(Ext(b, j), Ext(a, k - j));
      assert k - (k - j) == j;
    }
    SumReverse(f, g, k, N);
    SumPeriod(f, k - N + 1, N);
    SumEqual(f, i => Mul(Ext(a, i), Ext(b, k - i)), 0, N);
    SumEqual(g, i => Mul(Ext(b, i), Ext(a, k - i)), 0, N);
  }

  /** The double sum both bracketings reduce to. */
  function Triple(a: Poly, b: Poly, c: Poly, k: int, i: int, j: int): int {
    Mul(Ext(a, i), Mul(Ext(b, j - i), Ext(c, k - j)))
  }

  /** (a*b)*c at k, with the inner product written out. */
  lemma LeftBracket(a: Poly, b: Poly, c: Poly, k: int, j: int)
    ensures Mul(Ext(Conv(a, b), j), Ext(c, k - j)) == ColSum((i, j) => Triple(a, b, c, k, i, j), j, N)
  {
    hide Mul, Ext;
    ConvExt(a, b, j);
    var z := Ext(c, k - j);
    var f := i => Mul(Ext(a, i), Ext(b, j - i));
    var g := i => Triple(a, b, c, k, i, j);
    forall i ensures g(i) == Mul(z, f(i)) {
      MulAssoc(Ext(a, i), Ext(b, j - i), z);
      MulComm(f(i), z);
    }
    SumScale(z, f, g, 0, N);
    SumEqual(f, i => Mul(Ext(a, i), Ext(b, j - i)), 0, N);
    MulComm(Ext(Conv(a, b), j), z);
    var t := (i, j) => Triple(a, b, c, k, i, j);
    SumEqual(g, i => t(i, j), 0, N);
  }

  /** The terms of a product repeat with period 256. */
  lemma TermsRepeat(b: Poly, c: Poly, u: int, v: int, g: int -> int)
    requires forall j :: g(j) == Mul(Ext(b, j - u), Ext(c, v - j))
    ensures Periodic(g, N)
  {
    hide Mul, Ext;
    forall j ensures PeriodAt(g, N, j) {
      assert j + N - u == (j - u) + N && v - (j + N) == (v - j) - N;
      ExtShift(b, j - u);
      ExtShift(c, v - j);
      NegBoth(Ext(b, j - u), Ext(c, v - j));
    }
  }

  /** The product b*c at k - i, with the window moved by i. */
  lemma SlideWindow(b: Poly, c: Poly, k: int, i: int, g: int -> int)
    requires forall j :: g(j) == Mul(Ext(b, j - i), Ext(c, k - j))
    ensures Ext(Conv(b, c), k - i) == Sum(g, 0, N)
  {
    hide Mul, Ext, Periodic, Sum;
    ConvExt(b, c, k - i);
    SlideShift(b, c, k, i, g);
    TermsRepeat(b, c, i, k, g);
    SumPeriod(g, i, N);
  }

  lemma SlideShift(b: Poly, c: Poly, k: int, i: int, g: int -> int)
    requires forall j :: g(j) == Mul(Ext(b, j - i), Ext(c, k - j))
    ensures ConvAt(b, c, k - i) == Sum(g, i, N)
  {
    hide Mul, Ext, Sum;
    var f := l => Mul(Ext(b, l), Ext(c, k - i - l));
    forall l | 0 <= l < N ensures f(l) == g(l + i) {
      assert l + i - i == l && k - (l + i) == k - i - l;
    }
    SumShift(f, g, 0, i, N);
    SumEqual(f, i' => Mul(Ext(b, i'), Ext(c, k - i - i')), 0, N);
  }

  /** a*(b*c) at k, one term of the outer sum. */
  lemma RightBracket(a: Poly, b: Poly, c: Poly, k: int, i: int)
    ensures Mul(Ext(a, i), Ext(Conv(b, c), k - i)) == RowSum((i, j) => Triple(a, b, c, k, i, j), i, N)
  {
    hide Mul, Ext, Conv;
    var g := j => Mul(Ext(b, j - i), Ext(c, k - j));
    SlideWindow(b, c, k, i, g);
    var h := j => Triple(a, b, c, k, i, j);
    SumScale(Ext(a, i), g, h, 0, N);
    var t := (i, j) => Triple(a, b, c, k, i, j);
    SumEqual(h, j => t(i, j), 0, N);
  }

  lemma {:induction false} ConvAssociates(a: Poly, b: Poly, c: Poly)
    ensures Conv(Conv(a, b), c) == Conv(a, Conv(b, c))
  {
    hide Mul, Ext, Conv, RowSum, ColSum;
    forall k | 0 <= k < N ensures ConvAt(Conv(a, b), c, k) == ConvAt(a, Conv(b, c), k) {
      var left := j => Mul(Ext(Conv(a, b), j), Ext(c, k - j));
      var right := i => Mul(Ext(a, i), Ext(Conv(b, c), k - i));
      var t := (i, j) => Triple(a, b, c, k, i, j);
      forall j ensures left(j) == ColSum(t, j, N) {
        LeftBracket(a, b, c, k, j);
      }
      forall i ensures right(i) == RowSum(t, i, N) {
        RightBracket(a, b, c, k, i);
      }
      SumSwap(t, N, N, right, left);
      SumEqual(left, i => Mul(Ext(Conv(a, b), i), Ext(c, k - i)), 0, N);
      SumEqual(right, i => Mul(Ext(a, i), Ext(Conv(b, c), k - i)), 0, N);
    }
    ConvPointwise(Conv(a, b), c, a, Conv(b, c));
  }

  lemma ConvPointwise(a: Poly, b: Poly, c: Poly, d: Poly)
    requires forall k :: 0 <= k < N ==> ConvAt(a, b, k) == ConvAt(c, d, k)
    ensures Conv(a, b) == Conv(c, d)
  {
  }

  /** The product distributes over sums and differences. */
  lemma ConvAdds(a: Poly, b: Poly, c: Poly)
    ensures Conv(AddP(a, b), c) == AddP(Conv(a, c), Conv(b, c))
    ensures Conv(c, AddP(a, b)) == AddP(Conv(c, a), Conv(c, b))
  {
    hide Mul, ConvAt;
    forall k | 0 <= k < N ensures ConvAt(AddP(a, b), c, k) == ConvAt(a, c, k) + ConvAt(b, c, k) {
      ConvAtAdds(a, b, c, k);
    }
    ConvCommutes(AddP(a, b), c);
    ConvCommutes(a, c);
    ConvCommutes(b, c);
  }

  lemma ConvAtAdds(a: Poly, b: Poly, c: Poly, k: int)
    ensures ConvAt(AddP(a, b), c, k) == ConvAt(a, c, k) + ConvAt(b, c, k)
  {
    hide Mul;
    var f := i => Mul(Ext(a, i), Ext(c, k - i));
    var g := i => Mul(Ext(b, i), Ext(c, k - i));
    var h := i => Mul(Ext(AddP(a, b), i), Ext(c, k - i));
    forall i | 0 <= i < N ensures h(i) == f(i) + g(i) {
      Distrib(Ext(c, k - i), Ext(a, i), Ext(b, i));
    }
    SumAdd(f, g, h, 0, N);
    SumEqual(f, i => Mul(Ext(a, i), Ext(c, k - i)), 0, N);
    SumEqual(g, i => Mul(Ext(b, i), Ext(c, k - i)), 0, N);
    SumEqual(h, i => Mul(Ext(AddP(a, b), i), Ext(c, k - i)), 0, N);
  }

  lemma ConvCong(a: Poly, a': Poly, b: Poly, b': Poly, m: int)
    requires 0 < m && PolyCong(a, a', m) && PolyCong(b, b', m)
    ensures PolyCong(Conv(a, b), Conv(a', b'), m)
  {
    hide ConvAt, Cong;
    forall k | 0 <= k < N ensures Cong(ConvAt(a, b, k), ConvAt(a', b', k), m) {
      ConvAtCong(a, a', b, b', k, m);
    }
  }

  lemma ConvAtCong(a: Poly, a': Poly, b: Poly, b': Poly, k: int, m: int)
    requires 0 < m && PolyCong(a, a', m) && PolyCong(b, b', m)
    ensures Cong(ConvAt(a, b, k), ConvAt(a', b', k), m)
  {
    hide Mul, Mod, Cong, Ext;
    var f := i => Mul(Ext(a, i), Ext(b, k - i));
    var g := i => Mul(Ext(a', i), Ext(b', k - i));
    forall i | 0 <= i < N ensures Cong(f(i), g(i), m) {
      ExtCong(a, a', i, m);
      ExtCong(b, b', k - i, m);
      CongMul(Ext(a, i), Ext(a', i), Ext(b, k - i), Ext(b', k - i), m);
    }
    SumCong(f, g, 0, N, m);
    SumEqual(f, i => Mul(Ext(a, i), Ext(b, k - i)), 0, N);
    SumEqual(g, i => Mul(Ext(a', i), Ext(b', k - i)), 0, N);
  }

  lemma ExtCong(a: Poly, a': Poly, d: int, m: int)
    requires 0 < m && PolyCong(a, a', m)
    ensures Cong(Ext(a, d), Ext(a', d), m)
  {
    hide Mod;
    assert Cong(a[d % N], a'[d % N], m);
    CongAdd(0, 0, a[d % N], a'[d % N], m);
  }

  /** Coefficients of the product are at most 256 times the product of the bounds. */
  lemma ConvBound(a: Poly, b: Poly, k: int, x: nat, y: nat)
    requires forall i :: 0 <= i < N ==> Abs(a[i]) <= x && Abs(b[i]) <= y
    ensures 0 <= Mul(x, y) && Abs(ConvAt(a, b, k)) <= N * Mul(x, y)
  {
    hide Mul;
    MulSign(x, y);
    var f := i => Mul(Ext(a, i), Ext(b, k - i));
    forall i | 0 <= i < N ensures Abs(f(i)) <= Mul(x, y) {
      ProductBound(Ext(a, i), Ext(b, k - i), x, y);
    }
    SumBound(f, 0, N, Mul(x, y));
    SumEqual(f, i => Mul(Ext(a, i), Ext(b, k - i)), 0, N);
    TimesN(Mul(x, y));
  }

  lemma ProductBound(u: int, v: int, x: nat, y: nat)
    requires Abs(u) <= x && Abs(v) <= y
    ensures Abs(Mul(u, v)) <= Mul(x, y)
  {
    hide Mul;
    NegBoth(u, v);
    NegBoth(v, u);
    MulComm(u, v);
    MulComm(v, -u);
    MulSign(Abs(u), Abs(v));
    MulMono(Abs(v), Abs(u), x);
    MulMono(x, Abs(v), y);
  }

  lemma TimesN(x: int)
    ensures Mul(x, N) == N * x
  {
  }

  /** Coefficient k of the accumulator after rows 0..i-1 and the first j columns of row i of the double loop. */
  function Part(a: Poly, b: Poly, k: int, i: nat, j: nat): int {
    Sum(x => Mul(Ext(a, x), Ext(b, k - x)), 0, i) + (if (k - i) % N < j then Mul(Ext(a, i), Ext(b, k - i)) else 0)
  }

  /** The term the loop body adds: the product of two coefficients, negated past x^255. */
  function Term(a: Poly, b: Poly, i: nat, j: nat): int
    requires i < N && j < N
  {
    if i + j >= N then -Mul(a[i], b[j]) else Mul(a[i], b[j])
  }

  lemma PartEnds(a: Poly, b: Poly, k: int, i: nat)
    ensures Part(a, b, k, 0, 0) == 0
    ensures Part(a, b, k, i, N) == Part(a, b, k, i + 1, 0)
    ensures Part(a, b, k, N, 0) == ConvAt(a, b, k)
  {
    hide Mul, Ext;
    var f := x => Mul(Ext(a, x), Ext(b, k - x));
    SumEqual(f, x => Mul(Ext(a, x), Ext(b, k - x)), 0, i);
    SumEqual(f, x => Mul(Ext(a, x), Ext(b, k - x)), 0, i + 1);
    SumEqual(f, x => Mul(Ext(a, x), Ext(b, k - x)), 0, N);
    SumEqual(f, i => Mul(Ext(a, i), Ext(b, k - i)), 0, N);
    SumEqual(f, x => Mul(Ext(a, x), Ext(b, k - x)), 0, 0);
    assert Sum(f, 0, i + 1) == Sum(f, 0, i) + f(i);
  }

  lemma PartStep(a: Poly, b: Poly, k: nat, i: nat, j: nat)
    requires k < N && i < N && j < N
    ensures Part(a, b, k, i, j + 1) == Part(a, b, k, i, j) + (if k == (i + j) % N then Term(a, b, i, j) else 0)
  {
    hide Mul, Ext;
    ExtInside(a, i);
    ExtInside(b, j);
    if k == (i + j) % N {
      assert k - i == (if i + j >= N then j - N else j);
      NegBoth(a[i], b[j]);
    }
  }

  /** x^i. */
  function Monomial(i: nat): Poly
    requires i < N
  {
    Zero()[i := 1]
  }

  /** x^i * x^j is x^(i + j), where x^256 = -1. With distributivity this determines every product. */
  lemma MonomialProducts(i: nat, j: nat)
    requires i < N && j < N
    ensures Conv(Monomial(i), Monomial(j)) == if i + j < N then Monomial(i + j) else SubP(Zero(), Monomial(i + j - N))
  {
    forall k | 0 <= k < N
      ensures Conv(Monomial(i), Monomial(j))[k] == if k == i + j then 1 else if k == i + j - N then -1 else 0
    {
      MonomialAt(i, j, k);
    }
  }

  lemma MonomialAt(i: nat, j: nat, k: nat)
    requires i < N && j < N && k < N
    ensures ConvAt(Monomial(i), Monomial(j), k) == if k == i + j then 1 else if k == i + j - N then -1 else 0
  {
    hide Mul, Ext;
    var (a, b) := (Monomial(i), Monomial(j));
    var f := x => Mul(Ext(a, x), Ext(b, k - x));
    forall x | 0 <= x < N && x != i ensures f(x) == 0 {
      ExtInside(a, x);
      MulUnit(Ext(b, k - x));
    }
    SumOnly(f, 0, N, i);
    SumEqual(f, x => Mul(Ext(a, x), Ext(b, k - x)), 0, N);
    ExtInside(a, i);
    MulUnit(Ext(b, k - i));
    if k >= i {
      ExtInside(b, k - i);
    } else {
      ExtInside(b, k - i + N);
      assert k - i + N - N == k - i;
    }
  }
}
