/** Key generation, encapsulation and decapsulation of ML-KEM, and when they agree. */
module MlKemScheme {
  import opened Words
  import opened Wrappers
  import opened HashPrimitives
  import opened Negacyclic
  import opened MlKemPoly
  import opened MlKemCodec
  import opened MlKem

  function VecBytes(v: PolyVec): (b: seq<u8>)
    ensures |b| == 1152
  {
    PolyBytes(v[0]) + PolyBytes(v[1]) + PolyBytes(v[2])
  }

  function VecOfBytes(b: seq<u8>): (v: PolyVec)
    requires |b| == 1152
    ensures CanonicalVec(v)
  {
    [PolyOfBytes(b[..384]), PolyOfBytes(b[384..768]), PolyOfBytes(b[768..])]
  }

  function ReduceVec(v: PolyVec): PolyVec {
    [ReduceP(v[0]), ReduceP(v[1]), ReduceP(v[2])]
  }

  lemma VecRoundTrip(v: PolyVec)
    ensures VecOfBytes(VecBytes(v)) == ReduceVec(v)
  {
    hide PolyBytes, PolyOfBytes, ReduceP;
    var b := VecBytes(v);
    assert b[..384] == PolyBytes(v[0]) && b[384..768] == PolyBytes(v[1]) && b[768..] == PolyBytes(v[2]);
    BytesRoundTrip(v[0]);
    BytesRoundTrip(v[1]);
    BytesRoundTrip(v[2]);
  }

  // Key generation

  function KeyRho(P: Primitives, seed: seq<u8>): Bytes32 {
    DeriveHashBlock(P, "mlkem-keygen-material", seed)
  }

  function KeySigma(P: Primitives, seed: seq<u8>): Bytes32 {
    DeriveHashBlock(P, "mlkem-keygen-sigma", seed)
  }

  function KeySecret(P: Primitives, seed: seq<u8>): (s: PolyVec)
    ensures SmallVec(s)
  {
    NoiseVec(P, KeySigma(P, seed), "mlkem-s")
  }

  function KeyNoise(P: Primitives, seed: seq<u8>): (e: PolyVec)
    ensures SmallVec(e)
  {
    NoiseVec(P, KeySigma(P, seed), "mlkem-e")
  }

  /** t = A*s + e. */
  function KeyT(P: Primitives, seed: seq<u8>): (t: PolyVec)
    ensures CanonicalVec(t)
  {
    hide RowPlus, MatrixRow, KeySecret, KeyNoise, KeyRho;
    var (rho, s, e) := (KeyRho(P, seed), KeySecret(P, seed), KeyNoise(P, seed));
    [ RowPlus(MatrixRow(P, rho, false, 0), s, e[0]),
      RowPlus(MatrixRow(P, rho, false, 1), s, e[1]),
      RowPlus(MatrixRow(P, rho, false, 2), s, e[2])]
  }

  function PublicBytes(P: Primitives, seed: seq<u8>): PublicKey {
    hide KeyT, KeyRho, VecBytes;
    VecBytes(KeyT(P, seed)) + KeyRho(P, seed)
  }

  function PrivateBytes(P: Primitives, seed: seq<u8>): PrivateKey {
    hide KeySecret, PublicBytes, VecBytes;
    VecBytes(KeySecret(P, seed)) + PublicBytes(P, seed) + P.h.sha3(PublicBytes(P, seed))
      + DeriveHashBlock(P, "mlkem-keygen-z", seed)
  }

  // Encryption of a message under given coins

  function Rho(pk: PublicKey): Bytes32 {
    pk[1152..]
  }

  function PublicT(pk: PublicKey): (t: PolyVec)
    ensures CanonicalVec(t)
  {
    VecOfBytes(pk[..1152])
  }

  function CipherU(P: Primitives, pk: PublicKey, coins: Bytes32): (u: PolyVec)
    ensures CanonicalVec(u)
  {
    hide RowPlus, MatrixRow, NoiseVec;
    var (r, e1) := (NoiseVec(P, coins, "mlkem-r"), NoiseVec(P, coins, "mlkem-e1"));
    [ RowPlus(MatrixRow(P, Rho(pk), true, 0), r, e1[0]),
      RowPlus(MatrixRow(P, Rho(pk), true, 1), r, e1[1]),
      RowPlus(MatrixRow(P, Rho(pk), true, 2), r, e1[2])]
  }

  function CipherV(P: Primitives, pk: PublicKey, m: Bytes32, coins: Bytes32): (v: Poly16)
    ensures Canonical(v)
  {
    ReduceP(AddP(RowPlus(PublicT(pk), NoiseVec(P, coins, "mlkem-r"), NoisePoly(P, coins, "mlkem-e2", 0)), MessagePoly(m)))
  }

  function Ciphertext(u: PolyVec, v: Poly16): (ct: seq<u8>)
    ensures |ct| == 1088
  {
    hide Bytes10, Bytes4;
    Bytes10(u[0]) + Bytes10(u[1]) + Bytes10(u[2]) + Bytes4(v)
  }

  function EncryptBytes(P: Primitives, pk: PublicKey, m: Bytes32, coins: Bytes32): (ct: seq<u8>)
    ensures |ct| == 1088
  {
    Ciphertext(CipherU(P, pk, coins), CipherV(P, pk, m, coins))
  }

  function Encapsulate(P: Primitives, pk: PublicKey, m: Bytes32): (r: (seq<u8>, Bytes32))
    ensures |r.0| == 1088
  {
    hide EncryptBytes;
    var (kBar, coins) := DeriveKAndCoins(P, m, P.h.sha3(pk));
    var ct := EncryptBytes(P, pk, m, coins);
    (ct, DeriveSharedSecret(P, kBar, ct))
  }

  // Decapsulation

  function UOf(ct: seq<u8>): (u: PolyVec)
    requires |ct| == 1088
    ensures CanonicalVec(u)
  {
    [PolyOf10(ct[..320]), PolyOf10(ct[320..640]), PolyOf10(ct[640..960])]
  }

  function VOf(ct: seq<u8>): (v: Poly16)
    requires |ct| == 1088
    ensures Canonical(v)
  {
    PolyOf4(ct[960..])
  }

  /** v - s*u, reduced. */
  function MessageCarrier(s: PolyVec, ct: seq<u8>): (w: Poly16)
    requires |ct| == 1088
    ensures Canonical(w)
  {
    hide DotP, UOf, VOf;
    ReduceP(SubP(VOf(ct), DotP(s, UOf(ct), K)))
  }

  /** The message decapsulation reads, right or wrong. */
  function Recovered(sk: PrivateKey, ct: seq<u8>): Bytes32
    requires |ct| == 1088
  {
    hide MessageCarrier, VecOfBytes, DecodedMessage;
    DecodedMessage(MessageCarrier(VecOfBytes(sk[..1152]), ct))
  }

  /** What encapsulating that message again gives. */
  function Reencrypted(P: Primitives, sk: PrivateKey, ct: seq<u8>): seq<u8>
    requires |ct| == 1088
  {
    hide Recovered, EncryptBytes;
    var m := Recovered(sk, ct);
    EncryptBytes(P, sk[1152..2336], m, DeriveKAndCoins(P, m, sk[2336..2368]).1)
  }

  function Decapsulate(P: Primitives, sk: PrivateKey, ct: seq<u8>): Option<Bytes32> {
    if |ct| != 1088 then None
    else
      hide Recovered, Reencrypted;
      var (hpk, z) := (sk[2336..2368], sk[2368..]);
      var kBar := DeriveKAndCoins(P, Recovered(sk, ct), hpk).0;
      var mask := EqMask(Reencrypted(P, sk, ct), ct);
      var selected := if mask == 0xFF then kBar else Fallback(P, z, ct);
      Some(DeriveSharedSecret(P, selected, ct))
  }

  // The methods of the source, tied to the functions above

  method PolyvecFromBytes(bytes: seq<u8>) returns (v: PolyVec)
    requires |bytes| == 1152
    ensures v == VecOfBytes(bytes)
  {
    hide PolyOfBytes;
    var p0 := PolyFromBytes(bytes[..384]);
    var p1 := PolyFromBytes(bytes[384..768]);
    var p2 := PolyFromBytes(bytes[768..]);
    v := [p0, p1, p2];
  }

  method SampleErrorPolyvec(P: Primitives, seed: Bytes32, tag: string) returns (v: PolyVec)
    ensures v == NoiseVec(P, seed, tag)
  {
    hide NoisePoly;
    var p0 := SampleErrorPoly(P, seed, tag, 0);
    var p1 := SampleErrorPoly(P, seed, tag, 1);
    var p2 := SampleErrorPoly(P, seed, tag, 2);
    v := [p0, p1, p2];
  }

  method PolyvecToBytes(v: PolyVec) returns (bytes: seq<u8>)
    ensures bytes == VecBytes(v)
  {
    hide PolyBytes;
    var b0 := PolyToBytes(v[0]);
    var b1 := PolyToBytes(v[1]);
    var b2 := PolyToBytes(v[2]);
    bytes := b0 + b1 + b2;
  }

  method MlkemGenerateKeypair(P: Primitives, seed: seq<u8>) returns (sk: PrivateKey, pk: PublicKey)
    ensures pk == PublicBytes(P, seed) && sk == PrivateBytes(P, seed)
  {
    hide RowPlus, MatrixRow, NoiseVec, VecBytes, DeriveHashBlock;
    var rho := DeriveHashBlock(P, "mlkem-keygen-material", seed);
    var sigma := DeriveHashBlock(P, "mlkem-keygen-sigma", seed);
    var s := SampleErrorPolyvec(P, sigma, "mlkem-s");
    var e := SampleErrorPolyvec(P, sigma, "mlkem-e");
    var t0 := MatVecRowPlus(MatrixRow(P, rho, false, 0), s, e[0]);
    var t1 := MatVecRowPlus(MatrixRow(P, rho, false, 1), s, e[1]);
    var t2 := MatVecRowPlus(MatrixRow(P, rho, false, 2), s, e[2]);
    assert [t0, t1, t2] == KeyT(P, seed);
    var tBytes := PolyvecToBytes([t0, t1, t2]);
    pk := tBytes + rho;
    var sBytes := PolyvecToBytes(s);
    var z := DeriveHashBlock(P, "mlkem-keygen-z", seed);
    sk := sBytes + pk + P.h.sha3(pk) + z;
  }

  method EncapsulateFromMessage(P: Primitives, pk: PublicKey, m: Bytes32, coins: Bytes32) returns (ct: seq<u8>)
    ensures ct == EncryptBytes(P, pk, m, coins)
  {
    hide RowPlus, MatrixRow, NoiseVec, NoisePoly, MessagePoly, ReduceP, AddP, VecOfBytes, Bytes10, Bytes4;
    var t := PolyvecFromBytes(pk[..1152]);
    var rho := Rho(pk);
    var r := SampleErrorPolyvec(P, coins, "mlkem-r");
    var e1 := SampleErrorPolyvec(P, coins, "mlkem-e1");
    var e2 := SampleErrorPoly(P, coins, "mlkem-e2", 0);
    var u0 := MatVecRowPlus(MatrixRow(P, rho, true, 0), r, e1[0]);
    var u1 := MatVecRowPlus(MatrixRow(P, rho, true, 1), r, e1[1]);
    var u2 := MatVecRowPlus(MatrixRow(P, rho, true, 2), r, e1[2]);

    var carrier := MatVecRowPlus(t, r, e2);
    var v := new i16[N](i requires 0 <= i < N => carrier[i]);
    assert v[..] == carrier;
    var mPoly := MessageToPoly(m);
    AddPolyInplace(v, mPoly);
    ReduceCanonical(ReduceP(AddP(carrier, mPoly)));
    NormalizePoly(v);

    var b0 := PolyCompress10(u0);
    var b1 := PolyCompress10(u1);
    var b2 := PolyCompress10(u2);
    var b3 := PolyCompressV(v[..]);
    assert [u0, u1, u2] == CipherU(P, pk, coins);
    ct := b0 + b1 + b2 + b3;
  }

  method MlkemEncapsulate(P: Primitives, pk: PublicKey, m: Bytes32) returns (ct: seq<u8>, shared: Bytes32)
    ensures (ct, shared) == Encapsulate(P, pk, m)
  {
    hide EncryptBytes;
    var hpk := P.h.sha3(pk);
    var (kBar, coins) := DeriveKAndCoins(P, m, hpk);
    ct := EncapsulateFromMessage(P, pk, m, coins);
    shared := DeriveSharedSecret(P, kBar, ct);
  }

  method MlkemDecapsulate(P: Primitives, sk: PrivateKey, ct: seq<u8>) returns (shared: Option<Bytes32>)
    ensures shared == Decapsulate(P, sk, ct)
  {
    hide DotP, EncryptBytes, VecOfBytes, PolyOf10, PolyOf4, ReduceP, SubP, DecodedMessage;
    if |ct| != 1088 {
      return None;
    }
    var s := PolyvecFromBytes(sk[..1152]);
    var pk: PublicKey, hpk: Bytes32, z: Bytes32 := sk[1152..2336], sk[2336..2368], sk[2368..];
    var u0 := PolyDecompress10(ct[..320]);
    var u1 := PolyDecompress10(ct[320..640]);
    var u2 := PolyDecompress10(ct[640..960]);
    var v := PolyDecompressV(ct[960..]);

    var mPoly := new i16[N](i requires 0 <= i < N => v[i]);
    assert mPoly[..] == v;
    var su := VecDot(s, [u0, u1, u2]);
    assert [u0, u1, u2] == UOf(ct);
    SubPolyInplace(mPoly, su);
    ReduceCanonical(MessageCarrier(s, ct));
    NormalizePoly(mPoly);
    var m := PolyToMessage(mPoly[..]);

    var (kBar, coins) := DeriveKAndCoins(P, m, hpk);
    var expected := EncapsulateFromMessage(P, pk, m, coins);
    var mask := CtEqMask(expected, ct);
    var fallback := Fallback(P, z, ct);
    var selected := Select32(mask, kBar, fallback);
    return Some(DeriveSharedSecret(P, selected, ct));
  }
}
