/** Polynomial arithmetic of ML-DSA: reduction modulo 8380417, products in i64, norms. */
module MlDsaPoly {
  import opened Arith
  import opened Sums
  import opened Words
  import opened Negacyclic

  const Q: int := 8_380_417
  const L: nat := 5
  const K: nat := 6

  type i32 = x: int | -0x8000_0000 <= x < 0x8000_0000

  /** Every coefficient the scheme forms lies inside (-2^23, 2^23), so i64 products cannot overflow. */
  type i24 = x: int | -0x80_0000 < x < 0x80_0000

  type Poly24 = s: seq<i24> | |s| == 256 witness seq(256, _ => 0)
  type VecL = v: seq<Poly24> | |v| == 5 witness [ZeroPoly(), ZeroPoly(), ZeroPoly(), ZeroPoly(), ZeroPoly()]
  type VecK = v: seq<Poly24> | |v| == 6 witness [ZeroPoly(), ZeroPoly(), ZeroPoly(), ZeroPoly(), ZeroPoly(), ZeroPoly()]

  function ZeroPoly(): (p: Poly24)
    ensures Canonical(p)
  {
    Zero()
  }

  ghost predicate Canonical(p: Poly24) {
    forall k :: 0 <= k < N ==> 0 <= p[k] < Q
  }

  /** Rust's truncating `%`, with a negative remainder brought back up: `mod_q` and `mod_q_i64`. */
  function ModQ(value: i64): (r: i24)
    ensures r == value % Q
  {
    var x: int := value;
    NegativeRemainder(x, Q);
    var v := if x >= 0 then x % Q else -((-x) % Q);
    if v < 0 then v + Q else v
  }

  function ReduceP(p: Poly): (r: Poly24)
    ensures Canonical(r)
  {
    seq(N, k requires 0 <= k < N => p[k] % Q)
  }

  lemma ReduceCanonical(p: Poly24)
    requires Canonical(p)
    ensures ReduceP(p) == p
  {
  }

  /** What `poly_mul` returns: the exact product in the ring, reduced. */
  function MulP(a: Poly24, b: Poly24): (r: Poly24)
    ensures Canonical(r)
  {
    ReduceP(Conv(a, b))
  }

  lemma Square23()
    ensures Mul(0x80_0000, 0x80_0000) == 0x4000_0000_0000
  {
  }

  /** The accumulator of one coefficient stays far inside i64. */
  lemma PartBound(a: Poly24, b: Poly24, k: int, i: nat, j: nat)
    requires i <= N
    ensures Abs(Part(a, b, k, i, j)) <= 257 * 0x4000_0000_0000
  {
    hide Mul, Ext;
    Square23();
    var f := x => Mul(Ext(a, x), Ext(b, k - x));
    forall x ensures Abs(f(x)) <= 0x4000_0000_0000 {
      ExtBound(a, x);
      ExtBound(b, k - x);
      ProductBound(Ext(a, x), Ext(b, k - x), 0x80_0000, 0x80_0000);
    }
    SumBound(f, 0, i, 0x4000_0000_0000);
    SumEqual(f, x => Mul(Ext(a, x), Ext(b, k - x)), 0, i);
    MulMono(0x4000_0000_0000, i, N);
    TimesN(0x4000_0000_0000);
    assert Abs(f(i)) <= 0x4000_0000_0000;
  }

  lemma ExtBound(a: Poly24, x: int)
    ensures Abs(Ext(a, x)) <= 0x80_0000
  {
  }

  /** The double loop of `poly_mul`: no i64 accumulator overflows. */
  method PolyMul(a: Poly24, b: Poly24) returns (out: Poly24)
    ensures out == MulP(a, b)
  {
    hide Mul, ConvAt, Part, Ext, Conv;
    var acc := new i64[N](_ => 0);
    forall k | 0 <= k < N ensures Part(a, b, k, 0, 0) == 0 {
      PartEnds(a, b, k, 0);
    }
    for i := 0 to N
      invariant forall k :: 0 <= k < N ==> acc[k] == Part(a, b, k, i, 0)
    {
      for j := 0 to N
        invariant forall k :: 0 <= k < N ==> acc[k] == Part(a, b, k, i, j)
      {
        ghost var was := acc[..];
        var outIdx, term := TermOf(a, b, i, j);
        PartStep(a, b, outIdx, i, j);
        PartBound(a, b, outIdx, i, j + 1);
        assert was[outIdx] == Part(a, b, outIdx, i, j);
        acc[outIdx] := acc[outIdx] + term;
        forall k | 0 <= k < N ensures acc[k] == Part(a, b, k, i, j + 1) {
          PartStep(a, b, k, i, j);
          assert was[k] == Part(a, b, k, i, j);
        }
      }
      forall k | 0 <= k < N ensures acc[k] == Part(a, b, k, i + 1, 0) {
        PartEnds(a, b, k, i);
      }
    }
    forall k | 0 <= k < N ensures acc[k] == ConvAt(a, b, k) {
      PartEnds(a, b, k, 0);
    }
    out := ReduceAll(acc[..]);
    ConvIs(a, b, acc[..]);
  }

  lemma ConvIs(a: Poly24, b: Poly24, p: Poly)
    requires forall k :: 0 <= k < N ==> p[k] == ConvAt(a, b, k)
    ensures p == Conv(a, b)
  {
    hide ConvAt;
  }

  method TermOf(a: Poly24, b: Poly24, i: nat, j: nat) returns (outIdx: nat, term: i64)
    requires i < N && j < N
    ensures outIdx == (i + j) % N && term == Term(a, b, i, j)
  {
    hide Mul;
    Square23();
    ProductBound(a[i], b[j], 0x80_0000, 0x80_0000);
    var idx := i + j;
    outIdx := idx % N;
    term := Mul(a[i], b[j]);
    if idx >= N {
      term := -term;
    }
  }

  method ReduceAll(acc: seq<i64>) returns (out: Poly24)
    requires |acc| == N
    ensures out == ReduceP(acc)
  {
    var coeffs := new i24[N](_ => 0);
    for i := 0 to N
      invariant forall k :: 0 <= k < i ==> coeffs[k] == acc[k] % Q
    {
      coeffs[i] := ModQ(acc[i]);
    }
    return coeffs[..];
  }

  method AddPolyInplace(dst: array<i24>, src: Poly24)
    requires dst.Length == N
    modifies dst
    ensures dst[..] == ReduceP(AddP(old(dst[..]), src))
  {
    ghost var was := dst[..];
    for i := 0 to N
      invariant forall k :: 0 <= k < i ==> dst[k] == (was[k] + src[k] as int) % Q
      invariant forall k :: i <= k < N ==> dst[k] == was[k]
    {
      var sum: i32 := dst[i] as int + src[i];
      dst[i] := ModQ(sum);
    }
    assert dst[..] == ReduceP(AddP(was, src));
  }

  method SubPolyInplace(dst: array<i24>, src: Poly24)
    requires dst.Length == N
    modifies dst
    ensures dst[..] == ReduceP(SubP(old(dst[..]), src))
  {
    ghost var was := dst[..];
    for i := 0 to N
      invariant forall k :: 0 <= k < i ==> dst[k] == (was[k] - src[k] as int) % Q
      invariant forall k :: i <= k < N ==> dst[k] == was[k]
    {
      var diff: i32 := dst[i] as int - src[i];
      dst[i] := ModQ(diff);
    }
    assert dst[..] == ReduceP(SubP(was, src));
  }

  method NormalizePoly(poly: array<i24>)
    requires poly.Length == N
    modifies poly
    ensures poly[..] == ReduceP(old(poly[..]))
  {
    ghost var was := poly[..];
    for i := 0 to N
      invariant forall k :: 0 <= k < i ==> poly[k] == was[k] % Q
      invariant forall k :: i <= k < N ==> poly[k] == was[k]
    {
      poly[i] := ModQ(poly[i]);
    }
    assert poly[..] == ReduceP(was);
  }

  // Norms

  /** Distance to the nearest multiple of q. */
  function CenteredAbs(value: int): (a: nat) {
    var reduced := value % Q;
    var centered := if reduced > Q / 2 then reduced - Q else reduced;
    Abs(centered)
  }

  /** No representative of the class is closer to zero, and no class is farther than q/2. */
  lemma CenteredAbsLeast(x: int, y: int)
    requires Cong(x, y, Q)
    ensures CenteredAbs(x) <= Abs(y) && CenteredAbs(x) <= Q / 2
    ensures CenteredAbs(x) == CenteredAbs(y)
  {
    assert x % Q == y % Q;
    var d := y / Q;
    assert y == Q * d + y % Q;
  }

  /** `max` is the largest centred absolute value among all coefficients (zero when there are none). */
  ghost predicate IsMaxAbs(v: seq<Poly24>, max: nat) {
    && (forall i, k :: 0 <= i < |v| && 0 <= k < N ==> CenteredAbs(v[i][k]) <= max)
    && (max == 0 || exists i, k :: 0 <= i < |v| && 0 <= k < N && CenteredAbs(v[i][k]) == max)
  }

  method MaxAbs(v: seq<Poly24>) returns (max: nat)
    ensures IsMaxAbs(v, max)
  {
    hide CenteredAbs;
    max := 0;
    for i := 0 to |v|
      invariant IsMaxAbs(v[..i], max)
    {
      for j := 0 to N
        invariant forall a, k :: 0 <= a < i && 0 <= k < N ==> CenteredAbs(v[a][k]) <= max
        invariant forall k :: 0 <= k < j ==> CenteredAbs(v[i][k]) <= max
        invariant max == 0 || exists a, k :: 0 <= a < i + 1 && 0 <= k < N && CenteredAbs(v[a][k]) == max
      {
        var abs := CenteredAbs(v[i][j]);
        if abs > max {
          max := abs;
        }
      }
    }
    assert v[..|v|] == v;
  }

  ghost predicate NormAtMost(v: seq<Poly24>, bound: nat) {
    forall i, k :: 0 <= i < |v| && 0 <= k < N ==> CenteredAbs(v[i][k]) <= bound
  }

  lemma MaxWithin(v: seq<Poly24>, max: nat, bound: nat)
    requires IsMaxAbs(v, max)
    ensures max <= bound <==> NormAtMost(v, bound)
  {
    hide CenteredAbs;
  }
}
