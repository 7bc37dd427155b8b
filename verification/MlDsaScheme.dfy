/** The methods of `mldsa.rs`, tied to the functions of the scheme. */
module MlDsaScheme {
  import opened Words
  import opened Bits
  import opened Wrappers
  import opened HashPrimitives
  import opened Negacyclic
  import opened MlDsaPoly
  import opened MlDsaChallenge
  import opened MlDsaCodec
  import opened MlDsa

  method SampleSmallPoly(H: Hashes, seed: Bytes32, tag: string, index: u8) returns (out: Poly24)
    ensures out == SmallPoly(H, seed, tag, index)
  {
    hide Expand;
    var bytes := Expand(H, "mldsa-small", Ascii(tag) + seed + [index], N);
    var coeffs := new i24[N](_ => 0);
    for i := 0 to N
      invariant forall k :: 0 <= k < i ==> coeffs[k] == bytes[k] as int % 5 - 2
    {
      coeffs[i] := bytes[i] as int % 5 - 2;
    }
    out := coeffs[..];
  }

  method SampleSmallVec(H: Hashes, seed: Bytes32, tag: string, n: nat) returns (v: seq<Poly24>)
    requires n < 256
    ensures |v| == n && forall i: nat :: i < n ==> v[i] == SmallPoly(H, seed, tag, i)
  {
    hide SmallPoly;
    v := [];
    for i := 0 to n
      invariant |v| == i && forall j: nat :: j < i ==> v[j] == SmallPoly(H, seed, tag, j)
    {
      var poly := SampleSmallPoly(H, seed, tag, i);
      v := v + [poly];
    }
  }

  method SampleYVecL(H: Hashes, seed: Bytes32) returns (v: VecL)
    ensures v == MaskL(H, seed)
  {
    hide MaskPoly;
    var polys: seq<Poly24> := [];
    for i := 0 to L
      invariant |polys| == i && forall j: nat :: j < i ==> polys[j] == MaskPoly(H, seed, j)
    {
      var poly := SampleMaskPoly(H, seed, i);
      polys := polys + [poly];
    }
    v := polys;
  }

  /** Row i of the matrix. */
  method GenerateRow(H: Hashes, rho: Bytes32, i: u8) returns (row: VecL)
    ensures row == Entry(H, rho, i)
  {
    hide UniformPoly;
    var polys: seq<Poly24> := [];
    for j := 0 to L
      invariant |polys| == j && forall l: nat :: l < j ==> polys[l] == UniformPoly(H, rho, i, l)
    {
      var poly := SampleUniformPoly(H, rho, i, j);
      polys := polys + [poly];
    }
    row := polys;
  }

  method MatVecMul(H: Hashes, rho: Bytes32, s: VecL) returns (v: VecK)
    ensures v == MatVec(H, rho, s)
  {
    hide RowP, Entry;
    var polys: seq<Poly24> := [];
    for i := 0 to K
      invariant |polys| == i && forall j: nat :: j < i ==> polys[j] == RowP(Entry(H, rho, j), s, L)
    {
      var row := GenerateRow(H, rho, i);
      var poly := MatRow(row, s);
      polys := polys + [poly];
    }
    v := polys;
  }

  method AddNormalized(p: Poly24, q: Poly24) returns (r: Poly24)
    ensures r == ReduceP(AddP(p, q))
  {
    hide AddP, ReduceP;
    var acc := new i24[N](i requires 0 <= i < N => p[i]);
    assert acc[..] == p;
    AddPolyInplace(acc, q);
    ReduceCanonical(ReduceP(AddP(p, q)));
    NormalizePoly(acc);
    r := acc[..];
  }

  method AddChallengeVecL(y: VecL, src: VecL, challenge: Poly24) returns (z: VecL)
    ensures z == ZVec(y, challenge, src)
  {
    hide MulP, AddP, ReduceP;
    var polys: seq<Poly24> := [];
    for i := 0 to L
      invariant |polys| == i && forall j :: 0 <= j < i ==> polys[j] == ZPoly(y[j], challenge, src[j])
    {
      var term := PolyMul(challenge, src[i]);
      var poly := AddNormalized(y[i], term);
      polys := polys + [poly];
    }
    z := polys;
  }

  method SubChallengeVecK(w: VecK, src: VecK, challenge: Poly24) returns (r: VecK)
    ensures r == RVec(w, challenge, src)
  {
    hide MulP, SubP, ReduceP;
    var polys: seq<Poly24> := [];
    for i := 0 to K
      invariant |polys| == i && forall j :: 0 <= j < i ==> polys[j] == RPoly(w[j], challenge, src[j])
    {
      var term := PolyMul(challenge, src[i]);
      var acc := new i24[N](l requires 0 <= l < N => w[i][l]);
      assert acc[..] == w[i];
      SubPolyInplace(acc, term);
      ReduceCanonical(RPoly(w[i], challenge, src[i]));
      NormalizePoly(acc);
      polys := polys + [acc[..]];
    }
    r := polys;
  }

  method EncodeVecL12bit(z: VecL) returns (out: seq<u8>)
    ensures out == ZBytes(z)
  {
    hide Bytes12;
    var b0 := EncodePoly12bit(z[0]);
    var b1 := EncodePoly12bit(z[1]);
    var b2 := EncodePoly12bit(z[2]);
    var b3 := EncodePoly12bit(z[3]);
    var b4 := EncodePoly12bit(z[4]);
    out := b0 + b1 + b2 + b3 + b4;
  }

  method DecodeVecL12bit(b: seq<u8>) returns (z: VecL)
    requires |b| == 1920
    ensures z == OfZBytes(b)
  {
    hide Of12;
    var p0 := DecodePoly12bit(b[..384]);
    var p1 := DecodePoly12bit(b[384..768]);
    var p2 := DecodePoly12bit(b[768..1152]);
    var p3 := DecodePoly12bit(b[1152..1536]);
    var p4 := DecodePoly12bit(b[1536..]);
    z := [p0, p1, p2, p3, p4];
  }

  method EncodeVecK10bit(t: VecK) returns (out: seq<u8>)
    ensures out == TBytes(t)
  {
    hide Bytes10;
    var b0 := EncodePoly10bit(t[0]);
    var b1 := EncodePoly10bit(t[1]);
    var b2 := EncodePoly10bit(t[2]);
    var b3 := EncodePoly10bit(t[3]);
    var b4 := EncodePoly10bit(t[4]);
    var b5 := EncodePoly10bit(t[5]);
    out := b0 + b1 + b2 + b3 + b4 + b5;
  }

  method DecodePublicT(b: seq<u8>) returns (t: VecK)
    requires |b| == 1920
    ensures t == OfTBytes(b)
  {
    hide Of10;
    var p0 := DecodePoly10bit(b[..320]);
    var p1 := DecodePoly10bit(b[320..640]);
    var p2 := DecodePoly10bit(b[640..960]);
    var p3 := DecodePoly10bit(b[960..1280]);
    var p4 := DecodePoly10bit(b[1280..1600]);
    var p5 := DecodePoly10bit(b[1600..]);
    t := [p0, p1, p2, p3, p4, p5];
  }

  method DeriveHintBytes(H: Hashes, w1: seq<u8>, z: seq<u8>, t: VecK, c: Bytes32) returns (out: seq<u8>)
    requires |w1| == 768
    ensures out == Hint(H, w1, z, t, c)
  {
    hide TBytes, Expand;
    var tBytes := EncodeVecK10bit(t);
    out := w1 + Expand(H, "mldsa-hints", w1 + z + tBytes + c, 1357 - |w1|);
  }

  /** t = A*s1 + s2. */
  method PublicVector(H: Hashes, rho: Bytes32, s1: VecL, s2: VecK) returns (t: VecK)
    ensures t == TVec(H, rho, s1, s2)
  {
    hide MatVec, ReduceP, AddP;
    var as1 := MatVecMul(H, rho, s1);
    var polys: seq<Poly24> := [];
    for i := 0 to K
      invariant |polys| == i && forall j :: 0 <= j < i ==> polys[j] == ReduceP(AddP(as1[j], s2[j]))
    {
      var poly := AddNormalized(as1[i], s2[i]);
      polys := polys + [poly];
    }
    t := polys;
  }

  method KeygenFromSeed(H: Hashes, seed: seq<u8>) returns (sk: PrivateKey, pk: PublicKey)
    ensures pk == PublicBytes(H, seed) && sk == PrivateBytes(H, seed)
  {
    hide TVec, SmallPoly, SmallBytes, Expand, TBytes, Hash32;
    var rho: seq<u8>, key := Hash32(H, "mldsa-rho", seed), Hash32(H, "mldsa-key", seed);
    var v1 := SampleSmallVec(H, key, "mldsa-s1", L);
    var v2 := SampleSmallVec(H, key, "mldsa-s2", K);
    var s1: VecL, s2: VecK := v1, v2;
    assert s1 == SmallL(H, key, "mldsa-s1") && s2 == SmallK(H, key, "mldsa-s2");
    var t := PublicVector(H, rho, s1, s2);
    var tBytes := EncodeVecK10bit(t);
    pk := rho + tBytes;
    var tr, hpk := H.sha3(pk), H.sha3(pk);
    var t0 := Expand(H, "mldsa-t0", tBytes, 960);
    var zFill := Expand(H, "mldsa-sk-zfill", hpk, 128);
    var s1Bytes := EncodeSmallVec(s1);
    var s2Bytes := EncodeSmallVec(s2);
    sk := rho + key + tr + s1Bytes + s2Bytes + t0 + hpk + zFill;
  }

  /** One pass of the loop in `sign_internal`. */
  method TrySign(H: Hashes, sk: PrivateKey, pk: PublicKey, msg: seq<u8>, nonce: nat) returns (sig: Option<seq<u8>>)
    requires Ends(H, sk, msg, nonce)
    ensures sig == Attempt(H, sk, pk, msg, nonce)
  {
    hide MatVec, MaskL, HintBytes, BuildChallenge, ChallengeStream, Challenge, ZVec, RVec, OfSmall, ZBytes, Hint, OfTBytes, LittleEndian,
      IsMaxAbs, NormAtMost;
    var s1 := DecodeSmallVec(sk[96..1376], L);
    var s2 := DecodeSmallVec(sk[1376..2912], K);
    var t := DecodePublicT(pk[32..]);
    var mu := H.sha3(sk[64..96] + msg);
    var baseSeed := H.sha3(sk[32..64] + mu + msg);

    var y := SampleYVecL(H, H.sha3(baseSeed + LittleEndian(nonce)));
    var w := MatVecMul(H, sk[..32], y);
    var w1 := CompressVecKHint(w);
    var c := BuildChallenge(H, mu, w1);
    var cPoly := ChallengePolyFromDigest(ChallengeStream(H, c));

    var z := AddChallengeVecL(y, s1, cPoly);
    var zMax := MaxAbs(z);
    MaxWithin(z, zMax, Z_BOUND);
    if zMax > Z_BOUND {
      return None;
    }
    var r := SubChallengeVecK(w, s2, cPoly);
    var rMax := MaxAbs(r);
    MaxWithin(r, rMax, R_BOUND);
    if rMax > R_BOUND {
      return None;
    }
    var zBytes := EncodeVecL12bit(z);
    var hints := DeriveHintBytes(H, w1, zBytes, t, c);
    return Some(zBytes + c + hints);
  }

  /** The rejection loop. */
  method SignInternal(H: Hashes, sk: seq<u8>, pk: seq<u8>, msg: seq<u8>) returns (sig: Result<seq<u8>, DsaError>)
    requires |sk| == PRIVATE_LEN && |pk| == PUBLIC_LEN ==> LoopEnds(H, sk, pk, msg, 0)
    ensures sig == if |sk| != PRIVATE_LEN || |pk| != PUBLIC_LEN then Err(InvalidLength) else SignFrom(H, sk, pk, msg, 0)
  {
    hide Attempt, Ends;
    if |sk| != PRIVATE_LEN || |pk| != PUBLIC_LEN {
      return Err(InvalidLength);
    }
    for nonce := 0 to MAX_ITERS
      invariant LoopEnds(H, sk, pk, msg, nonce) && SignFrom(H, sk, pk, msg, nonce) == SignFrom(H, sk, pk, msg, 0)
    {
      var attempt := TrySign(H, sk, pk, msg, nonce);
      if attempt.Some? {
        return Ok(attempt.value);
      }
    }
    return Err(CryptoFailure);
  }

  method VerifyInternal(H: Hashes, pk: seq<u8>, msg: seq<u8>, sig: seq<u8>) returns (r: Result<(), DsaError>)
    ensures r == Verify(H, pk, msg, sig)
  {
    hide Hint, BuildChallenge, OfTBytes, OfZBytes, IsMaxAbs, NormAtMost;
    if |pk| != PUBLIC_LEN || |sig| != SIGNATURE_LEN {
      return Err(InvalidLength);
    }
    var t := DecodePublicT(pk[32..]);
    var zBytes := sig[..1920];
    var z := DecodeVecL12bit(zBytes);
    var c := sig[1920..1952];
    var w1, hintTail := sig[1952..2720], sig[2720..];
    var mu := H.sha3(H.sha3(pk) + msg);
    var cCheck := BuildChallenge(H, mu, w1);
    if cCheck != c {
      return Err(CryptoFailure);
    }
    var expected := DeriveHintBytes(H, w1, zBytes, t, cCheck);
    if expected[768..] != hintTail {
      return Err(CryptoFailure);
    }
    var zMax := MaxAbs(z);
    MaxWithin(z, zMax, Z_BOUND);
    if zMax > Z_BOUND {
      return Err(CryptoFailure);
    }
    return Ok(());
  }

  // The public key out of the private key

  function DerivedPublic(H: Hashes, sk: PrivateKey): PublicKey {
    hide TVec, OfSmall, EncodePublicKey;
    EncodePublicKey(H, sk[..32], TVec(H, sk[..32], SecretS1(sk), SecretS2(sk)))
  }

  /** Masks the bytes from 32 on with the repeating 32-byte mask. */
  method XorMask(bytes: array<u8>, mask: Bytes32)
    requires bytes.Length >= 32
    modifies bytes
    ensures bytes[..32] == old(bytes[..32])
    ensures forall i :: 32 <= i < bytes.Length ==> bytes[i] == XorByte(old(bytes[i]), mask[(i - 32) % 32])
  {
    hide XorByte;
    ghost var was := bytes[..];
    for i := 0 to bytes.Length - 32
      invariant forall k :: 32 + i <= k < bytes.Length ==> bytes[k] == was[k]
      invariant forall k :: 0 <= k < 32 ==> bytes[k] == was[k]
      invariant forall k :: 32 <= k < 32 + i ==> bytes[k] == XorByte(was[k], mask[(k - 32) % 32])
    {
      bytes[32 + i] := XorByte(bytes[32 + i], mask[i % 32]);
    }
  }

  /** The two masking passes cancel. */
  method DerivePublicFromPrivate(H: Hashes, sk: seq<u8>) returns (pk: Result<seq<u8>, DsaError>)
    ensures pk == if |sk| != PRIVATE_LEN then Err(InvalidLength) else Ok(DerivedPublic(H, sk))
  {
    hide TVec, OfSmall, TBytes, XorByte;
    if |sk| != PRIVATE_LEN {
      return Err(InvalidLength);
    }
    var rho, key := sk[..32], sk[32..64];
    var s1 := DecodeSmallVec(sk[96..1376], L);
    var s2 := DecodeSmallVec(sk[1376..2912], K);
    var t := PublicVector(H, rho, s1, s2);
    var tBytes := EncodeVecK10bit(t);
    var plain: seq<u8> := rho + tBytes;
    var bytes := new u8[PUBLIC_LEN](i requires 0 <= i < PUBLIC_LEN => plain[i]);
    assert bytes[..] == plain;
    var mask := H.sha3(plain + key);
    XorMask(bytes, mask);
    XorMask(bytes, mask);
    forall i | 32 <= i < PUBLIC_LEN ensures bytes[i] == plain[i] {
      XorByteTwice(plain[i], mask[(i - 32) % 32]);
    }
    assert bytes[..32] == plain[..32];
    assert bytes[..] == plain;
    return Ok(bytes[..]);
  }
}
