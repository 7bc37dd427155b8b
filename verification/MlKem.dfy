/**
 ML-KEM as `mlkem.rs` composes it: key generation, encapsulation and decapsulation over the ring and
 codecs of the other modules. SHA3-256, the SHAKE256 stream and the matrix sampler are parameters.
 */
module MlKem {
  import opened Arith
  import opened Words
  import opened HashPrimitives
  import opened Negacyclic
  import opened MlKemPoly
  import opened MlKemCodec

  type CanonPoly = p: Poly16 | Canonical(p) witness ZeroPoly()
  type PublicKey = s: seq<u8> | |s| == 1184 witness seq(1184, _ => 0)
  type PrivateKey = s: seq<u8> | |s| == 2400 witness seq(2400, _ => 0)

  /** The hashes, and the rejection sampler `uniform`. */
  datatype Primitives = Primitives(h: Hashes, uniform: (Bytes32, u8, u8) -> CanonPoly)

  function DeriveHashBlock(P: Primitives, tag: string, seed: seq<u8>): Bytes32 {
    Shake(P.h, [0x01] + Ascii(tag) + seed, 32)
  }

  /** G: 64 bytes, the key part and the coins. */
  function DeriveKAndCoins(P: Primitives, m: Bytes32, hpk: Bytes32): (Bytes32, Bytes32) {
    var expanded := Shake(P.h, [0x02] + (m + hpk), 64);
    (expanded[..32], expanded[32..])
  }

  function DeriveSharedSecret(P: Primitives, key: Bytes32, ciphertext: seq<u8>): Bytes32 {
    Shake(P.h, [0x03] + (key + P.h.sha3(ciphertext)), 32)
  }

  function Fallback(P: Primitives, z: Bytes32, ciphertext: seq<u8>): Bytes32 {
    Shake(P.h, [0x04] + (z + P.h.sha3(ciphertext)), 32)
  }

  // Noise

  function Popcount2(x: nat): nat {
    x % 2 + x / 2 % 2
  }

  /** Centred binomial value of a nibble: ones in its low half minus ones in its high half. */
  function NibbleNoise(nibble: nat): (c: int)
    requires nibble < 16
    ensures -2 <= c <= 2
  {
    Masks(nibble);
    Shifts(nibble);
    Popcount2(And(nibble, 0x03)) - Popcount2(And(Shr(nibble, 2), 0x03))
  }

  /** The byte stream the noise of one polynomial is read from. */
  function NoiseStream(P: Primitives, seed: Bytes32, tag: string, index: u8): (r: seq<u8>)
    ensures |r| == N / 2
  {
    Shake(P.h, [0x01] + Ascii("mlkem-noise") + (Ascii(tag) + seed + [index]), N / 2)
  }

  function Nibble(stream: seq<u8>, k: nat): (n: nat)
    requires |stream| == N / 2 && k < N
    ensures n < 16
  {
    if k % 2 == 0 then stream[k / 2] % 16 else stream[k / 2] / 16
  }

  function NoiseOf(stream: seq<u8>): (p: Poly16)
    requires |stream| == N / 2
    ensures Small(p)
  {
    hide NibbleNoise;
    seq(N, k requires 0 <= k < N => NibbleNoise(Nibble(stream, k)))
  }

  function NoisePoly(P: Primitives, seed: Bytes32, tag: string, index: u8): (p: Poly16)
    ensures Small(p)
  {
    NoiseOf(NoiseStream(P, seed, tag, index))
  }

  lemma NoiseOfByte(stream: seq<u8>, i: nat)
    requires |stream| == N / 2 && i < N / 2
    ensures And(stream[i], 0x0F) < 16 && And(Shr(stream[i], 4), 0x0F) < 16
    ensures NibbleNoise(And(stream[i], 0x0F)) == NoiseOf(stream)[2 * i]
    ensures NibbleNoise(And(Shr(stream[i], 4), 0x0F)) == NoiseOf(stream)[2 * i + 1]
  {
    hide NibbleNoise, And, Shr;
    Masks(stream[i]);
    Shifts(stream[i]);
    Masks(stream[i] / 16);
  }

  method SampleErrorPoly(P: Primitives, seed: Bytes32, tag: string, index: u8) returns (out: Poly16)
    ensures out == NoisePoly(P, seed, tag, index)
  {
    hide NibbleNoise, And, Shr, NoiseOf, NoiseStream;
    var stream := NoiseStream(P, seed, tag, index);
    var coeffs := new i16[N](_ => 0);
    var coeffIdx := 0;
    for i := 0 to |stream|
      invariant coeffIdx == 2 * i
      invariant forall k :: 0 <= k < 2 * i ==> coeffs[k] == NoiseOf(stream)[k]
    {
      var b := stream[i];
      NoiseOfByte(stream, i);
      coeffs[coeffIdx] := NibbleNoise(And(b, 0x0F));
      coeffs[coeffIdx + 1] := NibbleNoise(And(Shr(b, 4), 0x0F));
      coeffIdx := coeffIdx + 2;
    }
    out := coeffs[..];
  }

  function NoiseVec(P: Primitives, seed: Bytes32, tag: string): (v: PolyVec)
    ensures SmallVec(v)
  {
    hide NoisePoly;
    [NoisePoly(P, seed, tag, 0), NoisePoly(P, seed, tag, 1), NoisePoly(P, seed, tag, 2)]
  }

  // Vectors

  /** Row i of the matrix, or of its transpose. */
  function MatrixRow(P: Primitives, rho: Bytes32, transpose: bool, i: u8): (v: PolyVec)
    ensures CanonicalVec(v)
  {
    if transpose then [P.uniform(rho, 0, i), P.uniform(rho, 1, i), P.uniform(rho, 2, i)]
    else [P.uniform(rho, i, 0), P.uniform(rho, i, 1), P.uniform(rho, i, 2)]
  }

  /** `vec_dot`: products added one at a time, reduced after each. */
  function DotP(a: PolyVec, b: PolyVec, n: nat): (r: Poly16)
    requires n <= K
    ensures Canonical(r)
  {
    if n == 0 then ZeroPoly() else ReduceP(AddP(DotP(a, b, n - 1), MulP(a[n - 1], b[n - 1])))
  }

  method VecDot(a: PolyVec, b: PolyVec) returns (r: Poly16)
    ensures r == DotP(a, b, K)
  {
    hide MulP, ReduceP, AddP;
    var acc := new i16[N](_ => 0);
    assert acc[..] == ZeroPoly();
    for i := 0 to K
      invariant acc[..] == DotP(a, b, i)
    {
      var prod := PolyMul(a[i], b[i]);
      AddPolyInplace(acc, prod);
    }
    ReduceCanonical(DotP(a, b, K));
    NormalizePoly(acc);
    r := acc[..];
  }

  /** One component of `mat_vec_mul` plus noise, reduced. */
  function RowPlus(row: PolyVec, v: PolyVec, e: Poly16): (r: Poly16)
    ensures Canonical(r)
  {
    ReduceP(AddP(DotP(row, v, K), e))
  }

  method MatVecRowPlus(row: PolyVec, v: PolyVec, e: Poly16) returns (r: Poly16)
    ensures r == RowPlus(row, v, e)
  {
    hide ReduceP, AddP, DotP;
    var dot := VecDot(row, v);
    var acc := new i16[N](i requires 0 <= i < N => dot[i]);
    assert acc[..] == dot;
    AddPolyInplace(acc, e);
    ReduceCanonical(RowPlus(row, v, e));
    NormalizePoly(acc);
    r := acc[..];
  }

  // Messages

  function MessageBit(m: Bytes32, k: nat): (b: nat)
    requires k < N
    ensures b <= 1
  {
    BitAt(m[k / 8], k % 8)
  }

  /** A set bit becomes 1664. */
  function MessagePoly(m: Bytes32): (p: Poly16)
    ensures Canonical(p)
  {
    hide MessageBit;
    seq(N, k requires 0 <= k < N => if MessageBit(m, k) == 1 then 1664 else 0)
  }

  method MessageToPoly(m: Bytes32) returns (out: Poly16)
    ensures out == MessagePoly(m)
  {
    hide BitAt, And;
    var coeffs := new i16[N](_ => 0);
    for i := 0 to N
      invariant forall k :: 0 <= k < i ==> coeffs[k] == MessagePoly(m)[k]
    {
      AndOne(Shr(m[i / 8], i % 8));
      BitIsShift(m[i / 8], i % 8);
      var bit := And(Shr(m[i / 8], i % 8), 0x01);
      coeffs[i] := if bit == 1 then Q / 2 else 0;
    }
    out := coeffs[..];
  }

  lemma BitIsShift(x: nat, k: nat)
    ensures Shr(x, k) % 2 == BitAt(x, k)
  {
  }

  /** The bit a coefficient decodes to: 1 in [833, 2496]. */
  function DecodeBit(c: nat): (b: nat)
    requires c < Q
    ensures b <= 1 && (b == 1 <==> 833 <= c <= 2496)
  {
    (2 * c + Q / 2) / Q % 2
  }

  function CoeffBit(p: Poly, k: int): (b: int)
    ensures 0 <= b <= 1
  {
    if 0 <= k < N then DecodeBit(p[k] % Q) else 0
  }

  /** The first n decoded bits of byte j, as a number. */
  function BitsUpTo(p: Poly, j: nat, n: nat): int {
    if n == 0 then 0 else BitsUpTo(p, j, n - 1) + Mul(CoeffBit(p, 8 * j + n - 1), Pow2(n - 1))
  }

  lemma {:induction false} BitsUpToAre(p: Poly, j: nat, n: nat, f: int -> int)
    requires forall t :: 0 <= t < n ==> f(t) == CoeffBit(p, 8 * j + t)
    ensures BitsUpTo(p, j, n) == FromBits(f, n)
    ensures 0 <= BitsUpTo(p, j, n) < Pow2(n)
  {
    hide CoeffBit, Mul;
    if n != 0 {
      BitsUpToAre(p, j, n - 1, f);
    }
    FromBitsBound(f, n);
  }

  lemma BitsUpToBound(p: Poly, j: nat, n: nat)
    ensures 0 <= BitsUpTo(p, j, n) < Pow2(n)
  {
    BitsUpToAre(p, j, n, t => CoeffBit(p, 8 * j + t));
  }

  function DecodedByte(p: Poly, j: nat): (b: u8)
    requires j < 32
  {
    hide BitsUpTo;
    BitsUpToBound(p, j, 8);
    SmallPowers();
    BitsUpTo(p, j, 8)
  }

  function DecodedMessage(p: Poly): Bytes32 {
    hide DecodedByte;
    seq(32, j requires 0 <= j < 32 => DecodedByte(p, j))
  }

  /** One bit joins its byte. */
  lemma JoinBit(p: Poly, j: nat, n: nat)
    requires n < 8
    ensures 0 <= BitsUpTo(p, j, n) < 256
    ensures Or(BitsUpTo(p, j, n), Shl(CoeffBit(p, 8 * j + n), n)) == BitsUpTo(p, j, n + 1)
    ensures 0 <= BitsUpTo(p, j, n + 1) < 256
  {
    hide Or, Mul, CoeffBit, Pow2;
    BitsUpToBound(p, j, n);
    BitsUpToBound(p, j, n + 1);
    Join(CoeffBit(p, 8 * j + n), BitsUpTo(p, j, n), n);
    Pow2Monotone(n, 8);
    Pow2Monotone(n + 1, 8);
    SmallPowers();
  }

  method PolyToMessage(poly: Poly16) returns (out: Bytes32)
    ensures out == DecodedMessage(poly)
  {
    hide BitsUpTo, Or, Shl;
    var buffer := new u8[32](_ => 0);
    NoBits(poly);
    for i := 0 to N
      invariant forall j :: 0 <= j < i / 8 ==> buffer[j] == DecodedByte(poly, j)
      invariant forall j :: i / 8 < j < 32 ==> buffer[j] == 0
      invariant i < N ==> buffer[i / 8] == BitsUpTo(poly, i / 8, i % 8)
    {
      var c := BarrettReduce(poly[i]);
      var bit := (2 * c + Q / 2) / Q % 2;
      JoinBit(poly, i / 8, i % 8);
      assert bit == CoeffBit(poly, 8 * (i / 8) + i % 8);
      buffer[i / 8] := Or(buffer[i / 8], Shl(bit, i % 8));
    }
    out := buffer[..];
  }

  lemma NoBits(p: Poly)
    ensures forall j :: BitsUpTo(p, j, 0) == 0
  {
  }

  /** Coefficient 8j + t decodes to bit t of byte j of m. */
  predicate BitAgrees(p: Poly, m: Bytes32, j: nat, t: nat)
    requires j < 32 && t < 8
  {
    CoeffBit(p, 8 * j + t) == MessageBit(m, 8 * j + t)
  }

  /** The decoded message is m exactly when every coefficient decodes to the bit of m. */
  lemma DecodedIff(p: Poly, m: Bytes32)
    ensures DecodedMessage(p) == m <==> forall k :: 0 <= k < N ==> CoeffBit(p, k) == MessageBit(m, k)
  {
    hide CoeffBit, BitsUpTo, BitAt, DecodedByte;
    forall j: nat | j < 32 ensures DecodedByte(p, j) == m[j] <==> forall t :: 0 <= t < 8 ==> BitAgrees(p, m, j, t) {
      DecodedByteIff(p, m, j);
    }
    if DecodedMessage(p) == m {
      forall k | 0 <= k < N ensures CoeffBit(p, k) == MessageBit(m, k) {
        assert DecodedMessage(p)[k / 8] == m[k / 8];
        assert BitAgrees(p, m, k / 8, k % 8);
        assert k == 8 * (k / 8) + k % 8;
      }
    }
    if forall k :: 0 <= k < N ==> CoeffBit(p, k) == MessageBit(m, k) {
      forall j: nat | j < 32 ensures DecodedByte(p, j) == m[j] {
        assert forall t :: 0 <= t < 8 ==> BitAgrees(p, m, j, t);
      }
    }
  }

  lemma DecodedByteIff(p: Poly, m: Bytes32, j: nat)
    requires j < 32
    ensures DecodedByte(p, j) == m[j] <==> forall t :: 0 <= t < 8 ==> BitAgrees(p, m, j, t)
  {
    hide CoeffBit, BitsUpTo, BitAt, Mod, Pow2, FromBits;
    var f := t => CoeffBit(p, 8 * j + t);
    BitsUpToAre(p, j, 8, f);
    SmallPowers();
    forall t | 0 <= t < 8 ensures BitAgrees(p, m, j, t) <==> f(t) == BitAt(m[j], t) {
      assert (8 * j + t) / 8 == j && (8 * j + t) % 8 == t;
    }
    if DecodedByte(p, j) == m[j] {
      forall t | 0 <= t < 8 ensures BitAgrees(p, m, j, t) {
        BitsReadBack(f, 8, t);
      }
    }
    if forall t :: 0 <= t < 8 ==> BitAgrees(p, m, j, t) {
      BitsRebuild(m[j], f, 8);
      ModSmall(m[j], 256);
    }
  }

  /** A message bit with noise added decodes to itself exactly when the centred noise stays in the window. */
  lemma NoiseWindow(bit: nat, noise: int, c: int)
    requires bit <= 1 && Cong(c, (if bit == 1 then 1664 else 0) + noise, Q)
    ensures DecodeBit(c % Q) == bit <==> -832 + bit <= Centered(noise) <= 832
  {
    var n := Centered(noise);
    var base := if bit == 1 then 1664 else 0;
    assert c % Q == (base + noise) % Q;
    assert n % Q == noise % Q;
    CongAdd(base, base, n, noise, Q);
    assert (base + n) % Q == (base + noise) % Q;
    var s := base + n;
    if s < 0 {
      assert s % Q == s + Q;
    } else {
      assert s % Q == s;
    }
  }

  // Comparison and selection

  function EqMask(left: seq<u8>, right: seq<u8>): (mask: u8)
    ensures mask == 0xFF <==> left == right
    ensures mask == 0x00 <==> left != right
  {
    if left == right then 0xFF else 0x00
  }

  method CtEqMask(left: seq<u8>, right: seq<u8>) returns (mask: u8)
    ensures mask == EqMask(left, right)
  {
    hide Or, Xor, Pow2;
    if |left| != |right| {
      return 0x00;
    }
    var diff: u8 := 0;
    SmallPowers();
    for i := 0 to |left|
      invariant diff == 0 <==> left[..i] == right[..i]
    {
      XorZero(left[i], right[i]);
      XorBound(left[i], right[i], 8);
      OrZero(diff, Xor(left[i], right[i]));
      OrBounds(diff, Xor(left[i], right[i]), 8);
      assert left[..i + 1] == left[..i] + [left[i]] && right[..i + 1] == right[..i] + [right[i]];
      diff := Or(diff, Xor(left[i], right[i]));
    }
    assert left[..|left|] == left && right[..|right|] == right;
    var negated: u16 := (0x1_0000 - diff as int) % 0x1_0000;
    MaskOf(diff, negated);
    var nonzero: u8 := Or(diff, negated) / 0x8000 % 0x100;
    mask := (nonzero as int - 1) % 0x100;
  }

  /** The top bit of d | -d in 16 bits tells zero from nonzero. */
  lemma MaskOf(diff: u8, negated: u16)
    requires negated == (0x1_0000 - diff as int) % 0x1_0000
    ensures Or(diff, negated) / 0x8000 == if diff == 0 then 0 else 1
  {
    hide Or, Pow2;
    if diff == 0 {
      NothingSet();
    } else {
      assert Pow2(16) == 0x1_0000 by {
        Pow2Add(8, 8);
        SmallPowers();
        ByteSquare();
      }
      OrBounds(diff, negated, 16);
    }
  }

  lemma NothingSet()
    ensures Or(0, 0) == 0
  {
  }

  lemma ByteSquare()
    ensures Mul(256, 256) == 0x1_0000
  {
  }

  method Select32(mask: u8, a: Bytes32, b: Bytes32) returns (out: Bytes32)
    requires mask == 0xFF || mask == 0x00
    ensures out == if mask == 0xFF then a else b
  {
    var buffer := new u8[32](_ => 0);
    for i := 0 to 32
      invariant forall k :: 0 <= k < i ==> buffer[k] == if mask == 0xFF then a[k] else b[k]
    {
      MaskedByte(a[i], mask);
      MaskedByte(b[i], 0xFF - mask);
      buffer[i] := Or(And(a[i], mask), And(b[i], 0xFF - mask));
    }
    out := buffer[..];
  }

  lemma MaskedByte(x: u8, mask: u8)
    requires mask == 0xFF || mask == 0x00
    ensures And(x, mask) == if mask == 0xFF then x else 0
  {
    hide And;
    Masks(x);
    AndZero(x);
  }
}
