/** The byte encodings of ML-DSA: 12-bit signature coefficients, 10-bit key coefficients, hints and small vectors. */
module MlDsaCodec {
  import Arith
  import opened Words
  import opened BitPacking
  import opened Negacyclic
  import opened MlDsaPoly

  // Signature coefficients: the low 12 bits

  function Low12(p: Poly): (v: seq<nat>)
    ensures |v| == N && AllBelow(v, 4096)
  {
    seq(N, k requires 0 <= k < N => p[k] % Q % 4096)
  }

  function Bytes12(p: Poly): (b: seq<u8>)
    ensures |b| == 384
  {
    hide Packed12;
    Packed12(Low12(p))
  }

  function Of12(b: seq<u8>): (p: Poly24)
    requires |b| == 384
    ensures forall k :: 0 <= k < N ==> 0 <= p[k] < 4096
  {
    hide Unpacked12;
    Unpacked12(b)
  }

  /** The encoding keeps a polynomial exactly when every reduced coefficient is below 4096. */
  lemma LosslessIff(p: Poly)
    ensures Of12(Bytes12(p)) == ReduceP(p) <==> forall k :: 0 <= k < N ==> p[k] % Q < 4096
  {
    hide Packed12, Unpacked12;
    Packing12(Low12(p));
    forall k | 0 <= k < N ensures Of12(Bytes12(p))[k] == ReduceP(p)[k] <==> p[k] % Q < 4096 {
      assert Of12(Bytes12(p))[k] == Low12(p)[k];
    }
  }

  /** A coefficient 4096 comes back as 0. */
  lemma LargeCoefficientLost()
    ensures var p := Zero()[0 := 4096]; Of12(Bytes12(p))[0] == 0 && Of12(Bytes12(p)) != ReduceP(p)
  {
    hide Packed12, Unpacked12;
    var p := Zero()[0 := 4096];
    Packing12(Low12(p));
    assert Of12(Bytes12(p))[0] == Low12(p)[0];
  }

  lemma Bytes12At(p: Poly, j: nat)
    requires j < 128
    ensures Bytes12(p)[3 * j..3 * j + 3] == Three(p[2 * j] % Q % 4096, p[2 * j + 1] % Q % 4096)
  {
    hide Packed12, Three;
    Packed12At(Low12(p), j);
  }

  method EncodePoly12bit(poly: Poly24) returns (out: seq<u8>)
    ensures out == Bytes12(poly)
  {
    hide Three, And, Bytes12;
    var buffer := new u8[384](_ => 0);
    for j := 0 to 128
      invariant buffer[..3 * j] == Bytes12(poly)[..3 * j]
    {
      Bytes12At(poly, j);
      Masks(ModQ(poly[2 * j]));
      Masks(ModQ(poly[2 * j + 1]));
      var group := Three(And(ModQ(poly[2 * j]), 0x0FFF), And(ModQ(poly[2 * j + 1]), 0x0FFF));
      WriteThree(buffer, 3 * j, group, Bytes12(poly));
    }
    out := buffer[..];
    assert buffer[..384] == out && Bytes12(poly)[..384] == Bytes12(poly);
  }

  lemma Of12At(b: seq<u8>, i: nat)
    requires |b| == 384 && i < 128
    ensures var pair := Unpack12(b[3 * i], b[3 * i + 1], b[3 * i + 2]);
            pair.0 == Of12(b)[2 * i] < 4096 && pair.1 == Of12(b)[2 * i + 1] < 4096
  {
    hide Unpack12;
    Unpack12Value(b[3 * i], b[3 * i + 1], b[3 * i + 2]);
  }

  method DecodePoly12bit(bytes: seq<u8>) returns (out: Poly24)
    requires |bytes| == 384
    ensures out == Of12(bytes)
  {
    hide Unpack12, And, Of12;
    var coeffs := new i24[N](_ => 0);
    for i := 0 to 128
      invariant forall k :: 0 <= k < 2 * i ==> coeffs[k] == Of12(bytes)[k]
    {
      var pair := Unpack12(bytes[3 * i], bytes[3 * i + 1], bytes[3 * i + 2]);
      Of12At(bytes, i);
      Masks(pair.0);
      coeffs[2 * i] := And(pair.0, 0x0FFF);
      coeffs[2 * i + 1] := pair.1;
    }
    out := coeffs[..];
  }

  // Key coefficients: rounded down to 10 bits

  function Step10(c: int): (t: nat)
    requires 0 <= c < Q
    ensures t < 1024
  {
    c * 1024 / Q
  }

  function Coefficient10(t: nat): (c: nat)
    requires t < 1024
    ensures c < Q
  {
    t * Q / 1024
  }

  /** Rounding down loses less than q/1024 + 1. */
  lemma Rounding10(c: nat)
    requires c < Q
    ensures 0 <= c - Coefficient10(Step10(c)) <= 8184
  {
    var t: int := Step10(c);
    assert Q * t <= c * 1024 < Q * t + Q;
    var d: int := Coefficient10(t);
    assert 1024 * d <= t * Q < 1024 * d + 1024;
  }

  /** Encoding a decoded step does not give it back: every step but zero comes out one lower. */
  lemma ReencodingLowers(t: nat)
    requires t < 1024
    ensures Step10(Coefficient10(t)) == if t == 0 then 0 else t - 1
  {
    var d: int := Coefficient10(t);
    var r := t * Q - 1024 * d;
    assert 0 <= r < 1024;
    if t > 0 {
      assert r != 0;
      assert d * 1024 == Q * (t - 1) + (Q - r);
    }
  }

  function Fields10(p: Poly): (v: seq<nat>)
    ensures |v| == N && AllBelow(v, 1024)
  {
    seq(N, k requires 0 <= k < N => Step10(p[k] % Q))
  }

  function Bytes10(p: Poly): (b: seq<u8>)
    ensures |b| == 320
  {
    hide Packed10;
    Packed10(Fields10(p))
  }

  function Of10(b: seq<u8>): (p: Poly24)
    requires |b| == 320
    ensures Canonical(p)
  {
    hide Field10, Coefficient10;
    seq(N, k requires 0 <= k < N => Coefficient10(Field10(b, k)))
  }

  lemma RoundTrip10(p: Poly, k: nat)
    requires k < N
    ensures Of10(Bytes10(p))[k] == Coefficient10(Step10(p[k] % Q))
  {
    hide Packed10, Step10, Coefficient10, Field10;
    Packing10(Fields10(p));
    assert Unpacked10(Bytes10(p))[k] == Fields10(p)[k];
  }

  lemma Bytes10At(p: Poly, j: nat)
    requires j < 64
    ensures Bytes10(p)[5 * j..5 * j + 5]
         == Five(Step10(p[4 * j] % Q), Step10(p[4 * j + 1] % Q), Step10(p[4 * j + 2] % Q), Step10(p[4 * j + 3] % Q))
  {
    hide Packed10, Five, Step10;
    Packed10At(Fields10(p), j);
  }

  method EncodePoly10bit(poly: Poly24) returns (out: seq<u8>)
    ensures out == Bytes10(poly)
  {
    hide Bytes10;
    var buffer := new u8[320](_ => 0);
    for j := 0 to 64
      invariant buffer[..5 * j] == Bytes10(poly)[..5 * j]
    {
      var group := EncodeFour(poly, j);
      WriteFive(buffer, 5 * j, group, Bytes10(poly));
    }
    out := buffer[..];
    assert buffer[..320] == out && Bytes10(poly)[..320] == Bytes10(poly);
  }

  method EncodeFour(poly: Poly24, j: nat) returns (group: seq<u8>)
    requires j < 64
    ensures group == Bytes10(poly)[5 * j..5 * j + 5]
  {
    hide Five, Step10, Bytes10;
    var t := FourSteps(poly, 4 * j);
    Bytes10At(poly, j);
    assert t[0] == Step10(poly[4 * j + 0] % Q);
    group := Five(t[0], t[1], t[2], t[3]);
  }

  /** One chunk of four; the mask changes nothing. */
  method FourSteps(poly: Poly24, start: nat) returns (t: seq<nat>)
    requires start + 4 <= N
    ensures |t| == 4 && forall i :: 0 <= i < 4 ==> t[i] == Step10(poly[start + i] % Q)
  {
    hide Step10, And;
    t := [];
    for i := 0 to 4
      invariant |t| == i && forall l :: 0 <= l < i ==> t[l] == Step10(poly[start + l] % Q)
    {
      var step: nat := Step10(ModQ(poly[start + i]));
      Masks(step);
      t := t + [And(step, 0x03FF)];
    }
  }

  method DecodePoly10bit(bytes: seq<u8>) returns (out: Poly24)
    requires |bytes| == 320
    ensures out == Of10(bytes)
  {
    hide Field10, Coefficient10;
    var coeffs := new i24[N](_ => 0);
    for i := 0 to 64
      invariant forall k :: 0 <= k < 4 * i ==> coeffs[k] == Coefficient10(Field10(bytes, k))
    {
      coeffs[4 * i] := Coefficient10(Field10(bytes, 4 * i));
      coeffs[4 * i + 1] := Coefficient10(Field10(bytes, 4 * i + 1));
      coeffs[4 * i + 2] := Coefficient10(Field10(bytes, 4 * i + 2));
      coeffs[4 * i + 3] := Coefficient10(Field10(bytes, 4 * i + 3));
    }
    out := coeffs[..];
  }

  // Hints: four bits per coefficient

  function Step4(c: int): (t: nat)
    requires 0 <= c < Q
    ensures t < 16
  {
    c * 16 / Q
  }

  function Nibbles(lo: nat, hi: nat): (b: u8)
    requires lo < 16 && hi < 16
    ensures b == lo + 16 * hi
  {
    hide Or, Shl;
    SmallPowers();
    Shifts(hi);
    Join(hi, lo, 4);
    Or(lo, Shl(hi, 4))
  }

  function HintByte(v: VecK, x: nat): (b: u8)
    requires x < 768
  {
    hide Step4;
    var (p, k) := (v[x / 128], 2 * (x % 128));
    Nibbles(Step4(p[k] % Q), Step4(p[k + 1] % Q))
  }

  function HintBytes(v: VecK): (b: seq<u8>)
    ensures |b| == 768
  {
    hide HintByte;
    seq(768, x requires 0 <= x < 768 => HintByte(v, x))
  }

  lemma HintAt(v: VecK, i: nat, j: nat)
    requires i < K && j < 128
    ensures HintBytes(v)[128 * i + j] == Nibbles(Step4(v[i][2 * j] % Q), Step4(v[i][2 * j + 1] % Q))
  {
    hide Step4, Nibbles;
    Arith.QuotientIs(128 * i + j, 128, i, j);
  }

  /** Two coefficients in one byte; the masks change nothing. */
  method HintPair(p: Poly24, j: nat) returns (b: u8)
    requires j < 128
    ensures b == Nibbles(Step4(p[2 * j] % Q), Step4(p[2 * j + 1] % Q))
  {
    hide Step4, And, Nibbles;
    var lo, hi := Step4(ModQ(p[2 * j])), Step4(ModQ(p[2 * j + 1]));
    Masks(lo);
    Masks(hi);
    b := Nibbles(And(lo, 0x0F), And(hi, 0x0F));
  }

  method CompressVecKHint(v: VecK) returns (out: seq<u8>)
    ensures out == HintBytes(v)
  {
    hide Step4, Nibbles, HintBytes;
    out := [];
    for i := 0 to K
      invariant |out| == 128 * i && forall x :: 0 <= x < |out| ==> out[x] == HintBytes(v)[x]
    {
      for j := 0 to 128
        invariant |out| == 128 * i + j && forall x :: 0 <= x < |out| ==> out[x] == HintBytes(v)[x]
      {
        var byte := HintPair(v[i], j);
        HintAt(v, i, j);
        out := out + [byte];
      }
    }
  }

  // Small vectors: one byte per coefficient, offset by two

  ghost predicate Small(p: Poly24) {
    forall k :: 0 <= k < N ==> -2 <= p[k] <= 2
  }

  function SmallBytes(v: seq<Poly24>): (b: seq<u8>)
    ensures |b| == |v| * N
  {
    seq(|v| * N, x requires 0 <= x < |v| * N => SmallByte(v, x))
  }

  function SmallByte(v: seq<Poly24>, x: nat): u8
    requires x < |v| * N
  {
    (v[x / N][x % N] as int + 2) % 256
  }

  function OfSmall(b: seq<u8>, n: nat): (v: seq<Poly24>)
    requires |b| == n * N
    ensures |v| == n && forall i, k :: 0 <= i < n && 0 <= k < N ==> -2 <= v[i][k] <= 253
  {
    seq(n, i requires 0 <= i < n => SmallPolyAt(b, i))
  }

  function SmallPolyAt(b: seq<u8>, i: nat): (p: Poly24)
    requires |b| >= (i + 1) * N
    ensures forall k :: 0 <= k < N ==> -2 <= p[k] <= 253
  {
    seq(N, k requires 0 <= k < N => b[N * i + k] as int - 2)
  }

  /** Any coefficients in [-2, 253] survive the one-byte encoding. */
  lemma SmallRoundTrip(v: seq<Poly24>)
    requires forall i, k :: 0 <= i < |v| && 0 <= k < N ==> -2 <= v[i][k] <= 253
    ensures OfSmall(SmallBytes(v), |v|) == v
  {
    forall i: nat | i < |v| ensures SmallPolyAt(SmallBytes(v), i) == v[i] {
      forall k: nat | k < N ensures SmallPolyAt(SmallBytes(v), i)[k] == v[i][k] {
        assert (N * i + k) / N == i && (N * i + k) % N == k;
      }
    }
  }

  method EncodeSmallVec(v: seq<Poly24>) returns (out: seq<u8>)
    ensures out == SmallBytes(v)
  {
    out := [];
    for i := 0 to |v|
      invariant |out| == N * i && forall x :: 0 <= x < |out| ==> out[x] == SmallByte(v, x)
    {
      for j := 0 to N
        invariant |out| == N * i + j && forall x :: 0 <= x < |out| ==> out[x] == SmallByte(v, x)
      {
        assert (N * i + j) / N == i && (N * i + j) % N == j;
        out := out + [(v[i][j] as int + 2) % 256];
      }
    }
  }

  method DecodeSmallVec(bytes: seq<u8>, n: nat) returns (v: seq<Poly24>)
    requires |bytes| == n * N
    ensures v == OfSmall(bytes, n)
  {
    v := [];
    var idx := 0;
    for i := 0 to n
      invariant idx == N * i && |v| == i && forall a :: 0 <= a < i ==> v[a] == SmallPolyAt(bytes, a)
    {
      var coeffs := new i24[N](_ => 0);
      for j := 0 to N
        invariant idx == N * i + j && forall k :: 0 <= k < j ==> coeffs[k] == bytes[N * i + k] as int - 2
      {
        coeffs[j] := bytes[idx] as int - 2;
        idx := idx + 1;
      }
      var poly: Poly24 := coeffs[..];
      assert poly == SmallPolyAt(bytes, i);
      v := v + [poly];
    }
  }

  // Roundings, exactly

  /** Ten-bit and four-bit steps round down, and a ten-bit step stands for the coefficient just below it. */
  lemma StepsRoundDown(c: nat, t: nat)
    requires c < Q && t < 1024
    ensures Q * Step10(c) <= 1024 * c < Q * Step10(c) + Q
    ensures Q * Step4(c) <= 16 * c < Q * Step4(c) + Q
    ensures 1024 * Coefficient10(t) <= Q * t < 1024 * Coefficient10(t) + 1024
  {
  }
}
