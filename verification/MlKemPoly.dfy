/** Polynomial arithmetic of ML-KEM: reduction modulo 3329, products accumulated in wrapping i32, in-place sums. */
module MlKemPoly {
  import opened Arith
  import opened Sums
  import opened Words
  import opened Negacyclic

  const Q: int := 3329
  const K: nat := 3

  type i16 = x: int | -0x8000 <= x < 0x8000
  type i32 = x: int | -0x8000_0000 <= x < 0x8000_0000

  type Poly16 = s: seq<i16> | |s| == 256 witness seq(256, _ => 0)

  function ZeroPoly(): (p: Poly16)
    ensures Canonical(p)
  {
    Zero()
  }

  type PolyVec = v: seq<Poly16> | |v| == 3 witness [ZeroPoly(), ZeroPoly(), ZeroPoly()]

  ghost predicate Canonical(p: Poly16) {
    forall k :: 0 <= k < N ==> 0 <= p[k] < Q
  }

  ghost predicate CanonicalVec(v: PolyVec) {
    forall i :: 0 <= i < K ==> Canonical(v[i])
  }

  /** Coefficients as the noise sampler leaves them. */
  ghost predicate Small(p: Poly16) {
    forall k :: 0 <= k < N ==> -2 <= p[k] <= 2
  }

  ghost predicate SmallVec(v: PolyVec) {
    forall i :: 0 <= i < K ==> Small(v[i])
  }

  /** Rust's `%` truncates toward zero; a negative remainder is brought back up. */
  function BarrettReduce(value: i32): (r: i32)
    ensures r == value % Q
  {
    var x: int := value;
    NegativeRemainder(x, Q);
    var v := if x >= 0 then x % Q else -((-x) % Q);
    if v < 0 then v + Q else v
  }

  function ReduceP(p: Poly): (r: Poly16)
    ensures Canonical(r)
  {
    seq(N, k requires 0 <= k < N => p[k] % Q)
  }

  lemma ReduceCong(p: Poly)
    ensures PolyCong(ReduceP(p), p, Q)
  {
    forall k | 0 <= k < N ensures Cong(p[k] % Q, p[k], Q) {
      CongMod(p[k], Q);
    }
  }

  lemma ReduceCanonical(p: Poly16)
    requires Canonical(p)
    ensures ReduceP(p) == p
  {
  }

  /** i32 addition in release builds wraps. */
  function Wrap32(x: int): i32 {
    (x + 0x8000_0000) % B - 0x8000_0000
  }

  predicate InI32(x: int) {
    -0x8000_0000 <= x < 0x8000_0000
  }

  lemma WrapAdds(x: int, y: int)
    ensures Wrap32(Wrap32(x) + y) == Wrap32(x + y)
    ensures InI32(x) ==> Wrap32(x) == x
  {
  }

  /** Every coefficient of the exact product fits the i32 accumulator. */
  ghost predicate Fits(a: Poly16, b: Poly16) {
    forall k :: 0 <= k < N ==> InI32(ConvAt(a, b, k))
  }

  /** What `poly_mul` returns for any two coefficient arrays. */
  function MulP(a: Poly16, b: Poly16): (r: Poly16)
    ensures Canonical(r)
  {
    seq(N, k => Wrap32(ConvAt(a, b, k)) % Q)
  }

  /** The double loop of `poly_mul`, with the accumulator wrapping as i32 does. */
  method PolyMul(a: Poly16, b: Poly16) returns (out: Poly16)
    ensures out == MulP(a, b)
  {
    hide Mul, ConvAt, Part, Ext, MulP;
    var acc := new i32[N](_ => 0);
    forall k | 0 <= k < N ensures Part(a, b, k, 0, 0) == 0 {
      PartEnds(a, b, k, 0);
    }
    for i := 0 to N
      invariant forall k :: 0 <= k < N ==> acc[k] == Wrap32(Part(a, b, k, i, 0))
    {
      for j := 0 to N
        invariant forall k :: 0 <= k < N ==> acc[k] == Wrap32(Part(a, b, k, i, j))
      {
        ghost var was := acc[..];
        MulWord(a[i], b[j]);
        var term: i32 := Mul(a[i], b[j]);
        var idx := i + j;
        var outIdx := idx % N;
        if idx >= N {
          term := -term;
        }
        acc[outIdx] := Wrap32(acc[outIdx] + term);
        forall k | 0 <= k < N ensures acc[k] == Wrap32(Part(a, b, k, i, j + 1)) {
          PartStep(a, b, k, i, j);
          WrapAdds(Part(a, b, k, i, j), term);
          assert was[k] == Wrap32(Part(a, b, k, i, j));
        }
      }
      forall k | 0 <= k < N ensures acc[k] == Wrap32(Part(a, b, k, i + 1, 0)) {
        PartEnds(a, b, k, i);
      }
    }
    forall k | 0 <= k < N ensures acc[k] == Wrap32(ConvAt(a, b, k)) {
      PartEnds(a, b, k, 0);
    }
    out := ReduceAll(acc[..]);
    MulPAt(a, b, out);
  }

  /** The closing loop of `poly_mul`. */
  method ReduceAll(acc: seq<i32>) returns (out: Poly16)
    requires |acc| == N
    ensures forall k :: 0 <= k < N ==> out[k] == acc[k] % Q
  {
    var coeffs := new i16[N](_ => 0);
    for i := 0 to N
      invariant forall k :: 0 <= k < i ==> coeffs[k] == acc[k] % Q
    {
      coeffs[i] := BarrettReduce(acc[i]);
    }
    return coeffs[..];
  }

  lemma MulPAt(a: Poly16, b: Poly16, out: Poly16)
    requires forall k :: 0 <= k < N ==> out[k] == Wrap32(ConvAt(a, b, k)) % Q
    ensures out == MulP(a, b)
  {
  }

  lemma MulWord(x: i16, y: i16)
    ensures -0x4000_0000 <= Mul(x, y) <= 0x4000_0000
  {
    hide Mul;
    ProductBound(x, y, 0x8000, 0x8000);
    assert Mul(0x8000, 0x8000) == 0x4000_0000 by {
      EightThousandSquared();
    }
  }

  lemma EightThousandSquared()
    ensures Mul(0x8000, 0x8000) == 0x4000_0000
  {
  }

  /**
   The product is right at coefficient k exactly when the accumulator did not wrap there: a wrap moves
   the sum by a multiple of 2^32 that 3329 cannot divide.
   */
  lemma MulExactIff(a: Poly16, b: Poly16, k: nat)
    requires k < N
    ensures MulP(a, b)[k] == ConvAt(a, b, k) % Q <==> InI32(ConvAt(a, b, k))
  {
    hide ConvAt;
    var x := ConvAt(a, b, k);
    assert Abs(x) <= N * 0x4000_0000 by {
      ConvBound(a, b, k, 0x8000, 0x8000);
      EightThousandSquared();
    }
    WrapResidue(x);
  }

  lemma WrapResidue(x: int)
    requires Abs(x) <= N * 0x4000_0000
    ensures Wrap32(x) % Q == x % Q <==> InI32(x)
  {
    var t := (x + 0x8000_0000) / B;
    assert Wrap32(x) == x - B * t;
    if Wrap32(x) % Q == x % Q {
      var s := x / Q - Wrap32(x) / Q;
      assert B * t == Q * s;
      assert t == Q * (1929 * s - 2488732927 * t);
      assert -65 <= t <= 65;
    }
  }

  lemma MulFits(a: Poly16, b: Poly16)
    requires Fits(a, b)
    ensures MulP(a, b) == ReduceP(Conv(a, b)) && PolyCong(MulP(a, b), Conv(a, b), Q)
  {
    hide ConvAt;
    forall k | 0 <= k < N ensures MulP(a, b)[k] == ConvAt(a, b, k) % Q {
      WrapAdds(ConvAt(a, b, k), 0);
    }
    ReduceCong(Conv(a, b));
  }

  /** Products with a noise polynomial never wrap. */
  lemma SmallFits(a: Poly16, b: Poly16)
    requires Canonical(a) && Small(b)
    ensures Fits(a, b) && Fits(b, a)
  {
    forall k | 0 <= k < N ensures InI32(ConvAt(a, b, k)) && InI32(ConvAt(b, a, k)) {
      ConvBound(a, b, k, 3328, 2);
      ConvBound(b, a, k, 2, 3328);
    }
  }

  method AddPolyInplace(dst: array<i16>, src: Poly16)
    requires dst.Length == N
    modifies dst
    ensures dst[..] == ReduceP(AddP(old(dst[..]), src))
  {
    ghost var was := dst[..];
    for i := 0 to N
      invariant forall k :: 0 <= k < i ==> dst[k] == (was[k] + src[k] as int) % Q
      invariant forall k :: i <= k < N ==> dst[k] == was[k]
    {
      var sum: i32 := dst[i] as int + src[i];
      dst[i] := BarrettReduce(sum);
    }
    assert dst[..] == ReduceP(AddP(was, src));
  }

  method SubPolyInplace(dst: array<i16>, src: Poly16)
    requires dst.Length == N
    modifies dst
    ensures dst[..] == ReduceP(SubP(old(dst[..]), src))
  {
    ghost var was := dst[..];
    for i := 0 to N
      invariant forall k :: 0 <= k < i ==> dst[k] == (was[k] - src[k] as int) % Q
      invariant forall k :: i <= k < N ==> dst[k] == was[k]
    {
      var diff: i32 := dst[i] as int - src[i];
      dst[i] := BarrettReduce(diff);
    }
    assert dst[..] == ReduceP(SubP(was, src));
  }

  method NormalizePoly(poly: array<i16>)
    requires poly.Length == N
    modifies poly
    ensures poly[..] == ReduceP(old(poly[..]))
  {
    ghost var was := poly[..];
    for i := 0 to N
      invariant forall k :: 0 <= k < i ==> poly[k] == was[k] % Q
      invariant forall k :: i <= k < N ==> poly[k] == was[k]
    {
      poly[i] := BarrettReduce(poly[i]);
    }
    assert poly[..] == ReduceP(was);
  }
}
