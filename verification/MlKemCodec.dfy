/** The byte encodings of ML-KEM: 12-bit coefficients, the 10- and 4-bit compressed forms, and message bits. */
module MlKemCodec {
  import opened Arith
  import opened Words
  import opened BitPacking
  import opened Negacyclic
  import opened MlKemPoly

  /** Two 4-bit values in one byte. */
  function Pack4(t0: nat, t1: nat): nat {
    Or(t0, Shl(t1, 4))
  }

  lemma Pack4RoundTrip(t0: nat, t1: nat)
    requires t0 < 16 && t1 < 16
    ensures Pack4(t0, t1) < 256 && And(Pack4(t0, t1), 0x0F) == t0 && Shr(Pack4(t0, t1), 4) == t1
  {
    hide And, Or, Shl, Shr;
    SmallPowers();
    Shifts(t1);
    Join(t1, t0, 4);
    Masks(Pack4(t0, t1));
    Shifts(Pack4(t0, t1));
  }

  /** Scaling to d bits with rounding, and back. */
  function Compress(c: nat, steps: nat): nat
    requires steps > 0
  {
    (c * steps + Q / 2) / Q % steps
  }

  function Decompress(t: nat, steps: nat): nat
    requires steps > 0
  {
    (t * Q + steps / 2) / steps
  }

  /** The representative of smallest absolute value. */
  function Centered(x: int): (c: int)
    ensures -1664 <= c <= 1664
    ensures Cong(c, x, Q)
  {
    CenterCong(x);
    (x + 1664) % Q - 1664
  }

  lemma CenterCong(x: int)
    ensures Cong((x + 1664) % Q - 1664, x, Q)
  {
    assert (x + 1664) % Q - 1664 == x - Q * ((x + 1664) / Q);
  }

  lemma CenteredUnique(x: int, c: int)
    requires -1664 <= c <= 1664 && Cong(c, x, Q)
    ensures Centered(x) == c
  {
    assert c % Q == x % Q;
  }

  lemma CenteredCong(x: int, y: int)
    requires Cong(x, y, Q)
    ensures Centered(x) == Centered(y)
  {
    assert x % Q == y % Q;
  }

  /** Rounding to 10 bits moves a coefficient by at most 2, and to 4 bits by at most 104, modulo 3329. */
  lemma CompressionError10(c: nat)
    requires c < Q
    ensures -2 <= Centered(Decompress(Compress(c, 1024), 1024) - c) <= 2
  {
    hide Centered, Compress, Decompress;
    var t: int := (c * 1024 + 1664) / Q;
    assert Q * t <= c * 1024 + 1664 < Q * t + Q;
    ClosestStep(c, t, 1024);
    RoundTripStep(c, t, 1024);
    if t < 1024 {
      var d: int := (t * Q + 512) / 1024;
      CenteredUnique(d - c, d - c);
    } else {
      CenteredWraps(c);
    }
  }

  lemma CompressionError4(c: nat)
    requires c < Q
    ensures -104 <= Centered(Decompress(Compress(c, 16), 16) - c) <= 104
  {
    hide Centered, Compress, Decompress;
    var t: int := (c * 16 + 1664) / Q;
    assert Q * t <= c * 16 + 1664 < Q * t + Q;
    ClosestStep(c, t, 16);
    RoundTripStep(c, t, 16);
    if t < 16 {
      var d: int := (t * Q + 8) / 16;
      CenteredUnique(d - c, d - c);
    } else {
      CenteredWraps(c);
    }
  }

  /** The nearest step, and how far its image is from the coefficient. */
  lemma ClosestStep(c: int, t: int, steps: int)
    requires steps == 1024 || steps == 16
    requires 0 <= c < Q && Q * t <= c * steps + 1664 < Q * t + Q
    ensures 0 <= t <= steps
    ensures steps == 1024 ==> -2 <= (t * Q + 512) / 1024 - c <= 2
    ensures steps == 16 ==> -104 <= (t * Q + 8) / 16 - c <= 104
    ensures t == steps ==> Q - c <= 104 && (steps == 1024 ==> Q - c <= 2)
  {
  }

  lemma RoundTripStep(c: nat, t: int, steps: nat)
    requires steps == 1024 || steps == 16
    requires t == (c * steps + 1664) / Q && 0 <= t <= steps
    ensures Decompress(Compress(c, steps), steps) == if t < steps then (t * Q + steps / 2) / steps else 0
  {
    assert Q / 2 == 1664;
    assert Compress(c, steps) == t % steps;
    hide Compress;
    if t < steps {
      QuotientIs(t, steps, 0, t);
    } else {
      QuotientIs(t, steps, 1, 0);
      QuotientIs(steps / 2, steps, 0, steps / 2);
    }
  }

  lemma CenteredWraps(c: int)
    requires Q - 1664 <= c < Q
    ensures Centered(-c) == Q - c
  {
    hide Centered;
    CongByMultiple(Q - c, -c, 1, Q);
    CenteredUnique(-c, Q - c);
  }

  /** `poly_to_bytes`: reduced coefficients, 12 bits each. */
  function PolyBytes(p: Poly): (b: seq<u8>)
    ensures |b| == 384
  {
    hide Packed12;
    Packed12(Fields12(p))
  }

  function Fields12(p: Poly): (v: seq<nat>)
    ensures |v| == N && AllBelow(v, 4096)
  {
    seq(N, k requires 0 <= k < N => p[k] % Q)
  }

  /** `poly_from_bytes`: coefficients reduced modulo 3329. */
  function PolyOfBytes(b: seq<u8>): (p: Poly16)
    requires |b| == 384
    ensures Canonical(p)
  {
    hide Unpacked12;
    ReduceP(Unpacked12(b))
  }

  lemma BytesRoundTrip(p: Poly)
    ensures PolyOfBytes(PolyBytes(p)) == ReduceP(p)
  {
    hide Unpacked12, Packed12;
    Packing12(Fields12(p));
  }

  lemma PolyBytesAt(p: Poly, j: nat)
    requires j < 128
    ensures PolyBytes(p)[3 * j..3 * j + 3] == Three(p[2 * j] % Q, p[2 * j + 1] % Q)
  {
    hide Packed12, Three;
    Packed12At(Fields12(p), j);
  }

  method PolyToBytes(poly: Poly16) returns (out: seq<u8>)
    ensures out == PolyBytes(poly)
  {
    hide Three, PolyBytes;
    var buffer := new u8[384](_ => 0);
    for j := 0 to 128
      invariant buffer[..3 * j] == PolyBytes(poly)[..3 * j]
    {
      PolyBytesAt(poly, j);
      var group := Three(BarrettReduce(poly[2 * j]), BarrettReduce(poly[2 * j + 1]));
      WriteThree(buffer, 3 * j, group, PolyBytes(poly));
    }
    out := buffer[..];
    assert buffer[..384] == out && PolyBytes(poly)[..384] == PolyBytes(poly);
  }

  method PolyFromBytes(bytes: seq<u8>) returns (out: Poly16)
    requires |bytes| == 384
    ensures out == PolyOfBytes(bytes)
  {
    hide Unpack12;
    var coeffs := new i16[N](_ => 0);
    for i := 0 to 128
      invariant forall k :: 0 <= k < 2 * i ==> coeffs[k] == PolyOfBytes(bytes)[k]
    {
      var pair := Unpack12(bytes[3 * i], bytes[3 * i + 1], bytes[3 * i + 2]);
      coeffs[2 * i] := pair.0 % Q;
      coeffs[2 * i + 1] := pair.1 % Q;
    }
    out := coeffs[..];
  }

  /** `poly_compress_10`: five bytes for each four coefficients. */
  function T10(p: Poly, k: nat): (t: nat)
    requires k < N
    ensures t < 1024
  {
    Compress(p[k] % Q, 1024)
  }

  function Fields10(p: Poly): (v: seq<nat>)
    ensures |v| == N && AllBelow(v, 1024)
  {
    hide T10;
    seq(N, k requires 0 <= k < N => T10(p, k))
  }

  function Bytes10(p: Poly): (b: seq<u8>)
    ensures |b| == 320
  {
    hide Packed10;
    Packed10(Fields10(p))
  }

  lemma DecompressRange(t: nat)
    ensures t < 1024 ==> Decompress(t, 1024) < Q
    ensures t < 16 ==> Decompress(t, 16) < Q
  {
  }

  function Decompressed10(b: seq<u8>, k: nat): (c: nat)
    requires |b| == 320 && k < N
    ensures c < Q
  {
    hide Field10, Decompress;
    DecompressRange(Field10(b, k));
    Decompress(Field10(b, k), 1024)
  }

  function PolyOf10(b: seq<u8>): (p: Poly16)
    requires |b| == 320
    ensures Canonical(p)
  {
    hide Decompressed10;
    seq(N, k requires 0 <= k < N => Decompressed10(b, k))
  }

  /** Through the bytes, each coefficient comes back as its 10-bit rounding. */
  lemma RoundTrip10(p: Poly, k: nat)
    requires k < N
    ensures PolyOf10(Bytes10(p))[k] == Decompress(T10(p, k), 1024)
  {
    hide Packed10, Decompress, T10, Field10;
    Packing10(Fields10(p));
    assert Unpacked10(Bytes10(p))[k] == Fields10(p)[k];
  }

  lemma FourFields(p: Poly, j: nat)
    requires j < 64
    ensures var v, at := Fields10(p), 4 * j;
            v[at] == T10(p, at) && v[at + 1] == T10(p, at + 1) && v[at + 2] == T10(p, at + 2) && v[at + 3] == T10(p, at + 3)
  {
    hide T10;
  }

  lemma Bytes10At(p: Poly, j: nat)
    requires j < 64
    ensures Bytes10(p)[5 * j..5 * j + 5] == Five(T10(p, 4 * j), T10(p, 4 * j + 1), T10(p, 4 * j + 2), T10(p, 4 * j + 3))
  {
    hide Packed10, Five, T10, Unpack10;
    var v := Fields10(p);
    FourFields(p, j);
    hide Fields10;
    Packed10At(v, j);
  }

  method EncodeFour(poly: Poly16, j: nat) returns (group: seq<u8>)
    requires j < 64
    ensures group == Bytes10(poly)[5 * j..5 * j + 5]
  {
    hide Five, T10, Bytes10;
    var t := CompressFour(poly, 4 * j);
    Bytes10At(poly, j);
    assert t[0] == T10(poly, 4 * j + 0);
    group := Five(t[0], t[1], t[2], t[3]);
  }

  method PolyCompress10(poly: Poly16) returns (out: seq<u8>)
    ensures out == Bytes10(poly)
  {
    hide Bytes10;
    var buffer := new u8[320](_ => 0);
    for j := 0 to 64
      invariant buffer[..5 * j] == Bytes10(poly)[..5 * j]
    {
      var group := EncodeFour(poly, j);
      WriteFive(buffer, 5 * j, group, Bytes10(poly));
    }
    out := buffer[..];
    assert buffer[..320] == out && Bytes10(poly)[..320] == Bytes10(poly);
  }

  /** The inner loop of `poly_compress_10`: one chunk of four. */
  method CompressFour(poly: Poly16, start: nat) returns (t: seq<nat>)
    requires start + 4 <= N
    ensures |t| == 4 && forall i :: 0 <= i < 4 ==> t[i] == T10(poly, start + i)
  {
    hide Compress;
    t := [];
    for i := 0 to 4
      invariant |t| == i && forall l :: 0 <= l < i ==> t[l] == T10(poly, start + l)
    {
      t := t + [Compress(BarrettReduce(poly[start + i]), 1024)];
    }
  }

  method PolyDecompress10(bytes: seq<u8>) returns (out: Poly16)
    requires |bytes| == 320
    ensures out == PolyOf10(bytes)
  {
    hide Decompressed10;
    var coeffs := new i16[N](_ => 0);
    for i := 0 to 64
      invariant forall k :: 0 <= k < 4 * i ==> coeffs[k] == Decompressed10(bytes, k)
    {
      coeffs[4 * i] := Decompressed10(bytes, 4 * i);
      coeffs[4 * i + 1] := Decompressed10(bytes, 4 * i + 1);
      coeffs[4 * i + 2] := Decompressed10(bytes, 4 * i + 2);
      coeffs[4 * i + 3] := Decompressed10(bytes, 4 * i + 3);
    }
    out := coeffs[..];
  }

  /** `poly_compress_v`: one byte for each pair of coefficients. */
  function T4(p: Poly, k: nat): (t: nat)
    requires k < N
    ensures t < 16
  {
    Compress(p[k] % Q, 16)
  }

  function Byte4(t0: nat, t1: nat): (b: u8)
    requires t0 < 16 && t1 < 16
    ensures And(b, 0x0F) == t0 && Shr(b, 4) == t1
  {
    hide Pack4, And, Shr;
    Pack4RoundTrip(t0, t1);
    Pack4(t0, t1)
  }

  function Bytes4(p: Poly): (b: seq<u8>)
    ensures |b| == 128
  {
    hide Byte4, T4;
    seq(128, x requires 0 <= x < 128 => Byte4(T4(p, 2 * x), T4(p, 2 * x + 1)))
  }

  function Decompressed4(b: u8, high: bool): (c: nat)
    ensures c < Q
  {
    hide And, Shr, Decompress;
    Masks(b);
    Shifts(b);
    DecompressRange(And(b, 0x0F));
    DecompressRange(Shr(b, 4));
    Decompress(if high then Shr(b, 4) else And(b, 0x0F), 16)
  }

  function PolyOf4(b: seq<u8>): (p: Poly16)
    requires |b| == 128
    ensures Canonical(p)
  {
    hide Decompressed4;
    seq(N, k requires 0 <= k < N => Decompressed4(b[k / 2], k % 2 == 1))
  }

  lemma RoundTrip4(p: Poly, k: nat)
    requires k < N
    ensures PolyOf4(Bytes4(p))[k] == Decompress(T4(p, k), 16)
  {
    hide And, Shr, Decompress, T4, Byte4;
    assert Bytes4(p)[k / 2] == Byte4(T4(p, 2 * (k / 2)), T4(p, 2 * (k / 2) + 1));
  }

  method PolyCompressV(poly: Poly16) returns (out: seq<u8>)
    ensures out == Bytes4(poly)
  {
    hide Compress, Byte4, And, Shr;
    var buffer := new u8[128](_ => 0);
    for i := 0 to 128
      invariant forall x :: 0 <= x < i ==> buffer[x] == Bytes4(poly)[x]
    {
      var t0 := Compress(BarrettReduce(poly[2 * i]), 16);
      var t1 := Compress(BarrettReduce(poly[2 * i + 1]), 16);
      assert t0 == T4(poly, 2 * i) && t1 == T4(poly, 2 * i + 1);
      buffer[i] := Byte4(t0, t1);
    }
    out := buffer[..];
  }

  method PolyDecompressV(bytes: seq<u8>) returns (out: Poly16)
    requires |bytes| == 128
    ensures out == PolyOf4(bytes)
  {
    hide Decompressed4;
    var coeffs := new i16[N](_ => 0);
    for i := 0 to 128
      invariant forall k :: 0 <= k < 2 * i ==> coeffs[k] == Decompressed4(bytes[k / 2], k % 2 == 1)
    {
      coeffs[2 * i] := Decompressed4(bytes[i], false);
      coeffs[2 * i + 1] := Decompressed4(bytes[i], true);
    }
    out := coeffs[..];
  }

  // Roundings, exactly

  /** Compression takes the step nearest to the coefficient, and the step past the last to zero. */
  lemma NearestStep(c: nat, t: nat, steps: nat)
    requires c < Q && (steps == 1024 || steps == 16)
    ensures -Q < 2 * (c * steps - Q * t) < Q ==> Compress(c, steps) == t % steps
    ensures exists u: nat :: u <= steps && -Q < 2 * (c * steps - Q * u) < Q
  {
    var u := (c * steps + Q / 2) / Q;
    assert -Q < 2 * (c * steps - Q * u) < Q;
    if -Q < 2 * (c * steps - Q * t) < Q {
      assert t == u;
    }
  }

  /** Decompression takes the coefficient nearest to the step, upward when two are. */
  lemma NearestCoefficient(t: nat, steps: nat)
    requires t < steps && (steps == 1024 || steps == 16)
    ensures -(steps as int) < 2 * (Decompress(t, steps) * steps - Q * t) <= steps
  {
  }

  /** The four-bit form: two steps a byte, the even coefficient low. */
  lemma Bytes4At(p: Poly, j: nat)
    requires j < 128
    ensures Bytes4(p)[j] as int == T4(p, 2 * j) + 16 * T4(p, 2 * j + 1)
  {
    hide T4;
    Pack4Value(T4(p, 2 * j), T4(p, 2 * j + 1));
  }

  lemma Pack4Value(t0: nat, t1: nat)
    requires t0 < 16 && t1 < 16
    ensures Byte4(t0, t1) as int == t0 + 16 * t1
  {
    hide And, Or, Shl, Shr;
    SmallPowers();
    Shifts(t1);
    Join(t1, t0, 4);
  }
}
