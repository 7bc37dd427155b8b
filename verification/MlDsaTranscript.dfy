/** What signing and verification hash, byte for byte, and what a signature says about the key in the ring. */
module MlDsaTranscript {
  import opened Arith
  import opened Words
  import opened Wrappers
  import opened HashPrimitives
  import opened Negacyclic
  import opened MlDsaPoly
  import opened MlDsaChallenge
  import opened MlDsaCodec
  import opened MlDsa
  import opened MlDsaScheme
  import opened MlDsaCorrectness
  import opened MlDsaOpening

  // Verification

  /** Acceptance in terms of the hash functions alone: both lengths, the challenge over message and commitment, and the tail. */
  lemma AcceptedIff(H: Hashes, pk: seq<u8>, msg: seq<u8>, sig: seq<u8>)
    ensures Verify(H, pk, msg, sig) == Ok(()) <==>
              && |pk| == 1952 && |sig| == 3309
              && var (z, c, w1, tail) := (sig[..1920], sig[1920..1952], sig[1952..2720], sig[2720..]);
              && IsShake(H, [0x13] + H.sha3(H.sha3(pk) + msg) + w1, c)
              && IsShake(H, [0x11] + Ascii("mldsa-hints") + (w1 + z + TBytes(OfTBytes(pk[32..])) + c), tail)
    ensures Verify(H, pk, msg, sig) == Err(InvalidLength) <==> |pk| != 1952 || |sig| != 3309
  {
    hide TBytes, OfTBytes, OfZBytes, NormAtMost, Shake;
    if |pk| == 1952 && |sig| == 3309 {
      var (z, c, w1, tail) := (sig[..1920], sig[1920..1952], sig[1952..2720], sig[2720..]);
      AcceptsIff(H, pk, msg, sig);
      ShakeIs(H, [0x13] + H.sha3(H.sha3(pk) + msg) + w1, c);
      ShakeIs(H, [0x11] + Ascii("mldsa-hints") + (w1 + z + TBytes(OfTBytes(pk[32..])) + c), tail);
    }
  }

  /** Two different inputs of SHA3-256 with one digest. */
  ghost predicate Sha3Collision(H: Hashes, a: seq<u8>, b: seq<u8>) {
    a != b && H.sha3(a) == H.sha3(b)
  }

  /** Two different inputs of SHAKE256 whose first 32 bytes agree. */
  ghost predicate ShakeCollision(H: Hashes, a: seq<u8>, b: seq<u8>) {
    a != b && forall i: nat :: i < 32 ==> H.xof(a, i) == H.xof(b, i)
  }

  /** A signature binds key and message: accepted for two different pairs, it exhibits a collision at a known place. */
  lemma AcceptanceBinds(H: Hashes, pk: seq<u8>, msg: seq<u8>, pk': seq<u8>, msg': seq<u8>, sig: seq<u8>)
    requires Verify(H, pk, msg, sig) == Ok(()) && Verify(H, pk', msg', sig) == Ok(())
    requires pk != pk' || msg != msg'
    ensures var (m, m') := (H.sha3(pk) + msg, H.sha3(pk') + msg');
            || Sha3Collision(H, pk, pk') || Sha3Collision(H, m, m')
            || ShakeCollision(H, [0x13] + H.sha3(m) + sig[1952..2720], [0x13] + H.sha3(m') + sig[1952..2720])
  {
    hide Verify;
    AcceptedIff(H, pk, msg, sig);
    AcceptedIff(H, pk', msg', sig);
    var (m, m', w1) := (H.sha3(pk) + msg, H.sha3(pk') + msg', sig[1952..2720]);
    if m == m' {
      assert m[..32] == H.sha3(pk) && m'[..32] == H.sha3(pk') && m[32..] == msg && m'[32..] == msg';
    }
    var a, b := [0x13] + H.sha3(m) + w1, [0x13] + H.sha3(m') + w1;
    assert a[1..33] == H.sha3(m) && b[1..33] == H.sha3(m');
    forall i: nat | i < 32 ensures H.xof(a, i) == H.xof(b, i) {
      assert sig[1920..1952][i] == H.xof(a, i);
    }
  }

  // Signing

  /** A coefficient of a mask or of the matrix, as three stream bytes, low first. */
  function Stream24(H: Hashes, input: seq<u8>, k: nat): nat {
    H.xof(input, 3 * k) as nat + 0x100 * H.xof(input, 3 * k + 1) as nat + 0x1_0000 * H.xof(input, 3 * k + 2) as nat
  }

  lemma GroupIs(H: Hashes, input: seq<u8>, k: nat)
    requires k < N
    ensures Group24(Shake(H, input, 3 * N), k) == Stream24(H, input, k)
  {
    hide Raw24;
  }

  /** The mask is drawn from the key, the message and the nonce: 18 bits a coefficient, centred. */
  lemma MaskIs(H: Hashes, sk: PrivateKey, msg: seq<u8>, nonce: u32, i: u8, k: nat)
    requires i < L && k < N
    ensures var mu := H.sha3(sk[64..96] + msg);
            var seed := H.sha3(H.sha3(sk[32..64] + mu + msg)
                               + [nonce % 256, nonce / 256 % 256, nonce / 0x1_0000 % 256, nonce / 0x100_0000]);
            YVec(H, sk, msg, nonce)[i][k] == Stream24(H, [0x11] + Ascii("mldsa-y") + (seed + [i]), k) % 0x4_0000 - 0x2_0000
  {
    hide Group24, Shake, Stream24;
    var mu := H.sha3(sk[64..96] + msg);
    assert LittleEndian(nonce) == [nonce % 256, nonce / 256 % 256, nonce / 0x1_0000 % 256, nonce / 0x100_0000];
    var seed := H.sha3(H.sha3(sk[32..64] + mu + msg) + LittleEndian(nonce));
    GroupIs(H, [0x11] + Ascii("mldsa-y") + (seed + [i]), k);
    assert YVec(H, sk, msg, nonce)[i] == MaskPoly(H, seed, i);
  }

  /** The matrix is drawn from rho, row and column: 23 bits a coefficient, reduced. */
  lemma MatrixIs(H: Hashes, rho: Bytes32, i: u8, j: u8, k: nat)
    requires i < K && j < L && k < N
    ensures Entry(H, rho, i)[j][k] == Stream24(H, [0x11] + Ascii("mldsa-matrix") + (rho + [i, j]), k) % 0x80_0000 % Q
  {
    hide Group24, Shake, Stream24;
    GroupIs(H, [0x11] + Ascii("mldsa-matrix") + (rho + [i, j]), k);
    assert Entry(H, rho, i)[j] == UniformPoly(H, rho, i, j);
  }

  /** Signing returns this signature. */
  ghost predicate IsSignature(H: Hashes, sk: PrivateKey, pk: PublicKey, msg: seq<u8>, sig: seq<u8>) {
    LoopEnds(H, sk, pk, msg, 0) && SignFrom(H, sk, pk, msg, 0) == Ok(sig)
  }

  /** Its parts in order. */
  lemma Parts(H: Hashes, sk: PrivateKey, pk: PublicKey, msg: seq<u8>, sig: seq<u8>)
    requires IsSignature(H, sk, pk, msg, sig)
    ensures |sig| == 3309 && Ends(H, sk, msg, 0)
    ensures sig[..1920] == ZBytes(Answer(H, sk, msg, 0)) && sig[1920..1952] == SignDigest(H, sk, msg, 0)
    ensures sig[1952..2720] == HintBytes(WVec(H, sk, msg, 0))
    ensures sig[2720..] == Hint(H, sig[1952..2720], sig[..1920], OfTBytes(pk[32..]), sig[1920..1952])[768..]
  {
    hide WVec, HintBytes, Ends, Challenge, ZVec, RVec, YVec, SecretS1, SecretS2, ZBytes, Hint, OfTBytes, NormAtMost, SignDigest,
      SignFrom, LoopEnds;
    SignsAtFirstNonce(H, sk, pk, msg);
    var (z, c, w1) := (ZBytes(Answer(H, sk, msg, 0)), SignDigest(H, sk, msg, 0), HintBytes(WVec(H, sk, msg, 0)));
    var hint := Hint(H, w1, z, OfTBytes(pk[32..]), c);
    assert sig == z + c + hint;
    SignatureFields(z, c, hint);
  }

  /** Its challenge is the hash of message and commitment, its tail that of commitment, answer, public vector and challenge. */
  lemma SignedHashes(H: Hashes, sk: PrivateKey, pk: PublicKey, msg: seq<u8>, sig: seq<u8>)
    requires IsSignature(H, sk, pk, msg, sig)
    ensures |sig| == 3309
    ensures var (z, c, w1, tail) := (sig[..1920], sig[1920..1952], sig[1952..2720], sig[2720..]);
            && IsShake(H, [0x13] + H.sha3(sk[64..96] + msg) + w1, c)
            && IsShake(H, [0x11] + Ascii("mldsa-hints") + (w1 + z + TBytes(OfTBytes(pk[32..])) + c), tail)
  {
    hide WVec, HintBytes, Ends, Answer, ZBytes, TBytes, OfTBytes, IsSignature, Shake;
    Parts(H, sk, pk, msg, sig);
    var (z, c, w1, tail) := (sig[..1920], sig[1920..1952], sig[1952..2720], sig[2720..]);
    ShakeIs(H, [0x13] + H.sha3(sk[64..96] + msg) + w1, c);
    ShakeIs(H, [0x11] + Ascii("mldsa-hints") + (w1 + z + TBytes(OfTBytes(pk[32..])) + c), tail);
  }

  /** Its answer field: the low twelve bits of (y + c*s1) modulo q, c drawn from the challenge field. */
  lemma SignedAnswer(H: Hashes, sk: PrivateKey, pk: PublicKey, msg: seq<u8>, sig: seq<u8>, stream: Stream, i: nat, k: nat)
    requires IsSignature(H, sk, pk, msg, sig) && |sig| == 3309 && i < L && k < N
    requires IsShake(H, [0x13] + sig[1920..1952], stream)
    ensures AnswerSays(H, sk, msg, sig[..1920], stream, i, k)
  {
    hide AnswerCoefficient, WVec, HintBytes, ZBytes, OfZBytes, TBytes, OfTBytes, IsSignature, Shake, YVec, Challenge, SecretS1, Enough, SignDigest, Hint,
      ConvAt, ZPoly;
    Parts(H, sk, pk, msg, sig);
    var c := SignDigest(H, sk, msg, 0);
    ShakeIs(H, [0x13] + c, stream);
    assert stream == ChallengeStream(H, c);
    AnswerField(Answer(H, sk, msg, 0), i, k);
    AnswerIs(H, sk, msg, Challenge(stream), i, k);
  }

  /** The decoded answer, at one coefficient. */
  predicate AnswerSays(H: Hashes, sk: PrivateKey, msg: seq<u8>, z: seq<u8>, stream: Stream, i: nat, k: nat)
    requires |z| == 1920 && i < L && k < N
  {
    Enough(stream) && OfZBytes(z)[i][k] == AnswerCoefficient(H, sk, msg, Challenge(stream), i, k) % Q % 4096
  }

  /** Coefficient k of component i of y + c*s1. */
  function AnswerCoefficient(H: Hashes, sk: PrivateKey, msg: seq<u8>, c: Poly24, i: nat, k: nat): int
    requires i < L && k < N
  {
    YVec(H, sk, msg, 0)[i][k] + ConvAt(c, SecretS1(sk)[i], k)
  }

  lemma AnswerIs(H: Hashes, sk: PrivateKey, msg: seq<u8>, c: Poly24, i: nat, k: nat)
    requires i < L && k < N
    ensures ZVec(YVec(H, sk, msg, 0), c, SecretS1(sk))[i][k] % Q == AnswerCoefficient(H, sk, msg, c, i, k) % Q
  {
    hide ZPoly, YVec, SecretS1, ConvAt;
    ZAt(YVec(H, sk, msg, 0)[i], c, SecretS1(sk)[i], k);
  }

  lemma ZAt(y: Poly24, c: Poly24, s: Poly24, k: nat)
    requires k < N
    ensures ZPoly(y, c, s)[k] == (y[k] + ConvAt(c, s, k)) % Q
  {
    hide PolyCong, ConvAt, ZPoly, Mod;
    ZIs(y, c, s);
    CongOnce(ZPoly(y, c, s), AddP(y, Conv(c, s)), k);
  }

  /** Its commitment field: the top four bits of A*y, two coefficients a byte. */
  lemma SignedCommitment(H: Hashes, sk: PrivateKey, pk: PublicKey, msg: seq<u8>, sig: seq<u8>, i: nat, j: nat)
    requires IsSignature(H, sk, pk, msg, sig) && |sig| == 3309 && i < K && j < 128
    ensures var (lo, hi) := (Commitment(H, sk, msg, i, 2 * j), Commitment(H, sk, msg, i, 2 * j + 1));
            sig[1952 + 128 * i + j] as int == 16 * lo / Q + 16 * (16 * hi / Q)
  {
    hide HintBytes, Ends, Answer, ZBytes, TBytes, OfTBytes, IsSignature, SignDigest, Hint, Commitment, WVec;
    Parts(H, sk, pk, msg, sig);
    assert sig[1952 + 128 * i + j] == sig[1952..2720][128 * i + j];
    HintAt(WVec(H, sk, msg, 0), i, j);
    CommitmentIs(H, sk, msg, i, 2 * j);
    CommitmentIs(H, sk, msg, i, 2 * j + 1);
  }

  /** Coefficient k of row i of A*y. */
  function Commitment(H: Hashes, sk: PrivateKey, msg: seq<u8>, i: nat, k: nat): int
    requires i < K && k < N
  {
    var (a, y) := (Entry(H, sk[..32], i), YVec(H, sk, msg, 0));
    (ConvAt(a[0], y[0], k) + ConvAt(a[1], y[1], k) + ConvAt(a[2], y[2], k) + ConvAt(a[3], y[3], k) + ConvAt(a[4], y[4], k)) % Q
  }

  lemma CommitmentIs(H: Hashes, sk: PrivateKey, msg: seq<u8>, i: nat, k: nat)
    requires i < K && k < N
    ensures Commitment(H, sk, msg, i, k) == WVec(H, sk, msg, 0)[i][k] % Q == WVec(H, sk, msg, 0)[i][k]
  {
    hide ConvAt, RowP, Entry, YVec;
    var (a, y) := (Entry(H, sk[..32], i), YVec(H, sk, msg, 0));
    RowIs(a, y, k);
    assert WVec(H, sk, msg, 0)[i] == RowP(a, y, L);
  }

  // Keys

  /** The public key an honest seed gives: rho, then the six components of A*s1 + s2, ten bits a coefficient. */
  lemma PublicKeyIs(H: Hashes, seed: seq<u8>, i: nat)
    requires i < K
    ensures var (pk, sk) := (PublicBytes(H, seed), PrivateBytes(H, seed));
            && IsShake(H, [0x12] + Ascii("mldsa-rho") + seed, pk[..32]) && sk[..32] == pk[..32]
            && pk[32 + 320 * i..32 + 320 * i + 320] == Bytes10(TVec(H, pk[..32], SecretS1(sk), SecretS2(sk))[i])
  {
    hide TVec, SecretS1, SecretS2, Bytes10, PrivateBytes, Shake;
    var (pk, sk) := (PublicBytes(H, seed), PrivateBytes(H, seed));
    HonestKeys(H, seed);
    PrivateFields(H, seed);
    ShakeIs(H, [0x12] + Ascii("mldsa-rho") + seed, pk[..32]);
    TBytesAt(TVec(H, sk[..32], SecretS1(sk), SecretS2(sk)), i);
    assert pk[32..][320 * i..320 * i + 320] == pk[32 + 320 * i..32 + 320 * i + 320];
  }

  lemma TBytesAt(t: VecK, i: nat)
    requires i < K
    ensures TBytes(t)[320 * i..320 * i + 320] == Bytes10(t[i])
  {
    hide Bytes10;
  }

  /** The private key an honest seed gives, field by field; its last three fields are never read again. */
  lemma PrivateKeyIs(H: Hashes, seed: seq<u8>)
    ensures var (pk, sk) := (PublicBytes(H, seed), PrivateBytes(H, seed));
            && IsShake(H, [0x12] + Ascii("mldsa-key") + seed, sk[32..64]) && sk[64..96] == H.sha3(pk)
            && IsShake(H, [0x11] + Ascii("mldsa-t0") + pk[32..], sk[2912..3872]) && sk[3872..3904] == H.sha3(pk)
            && IsShake(H, [0x11] + Ascii("mldsa-sk-zfill") + H.sha3(pk), sk[3904..])
  {
    hide TVec, SmallL, SmallK, TBytes, Shake, SmallBytes, DerivedPublic, SecretS1, SecretS2;
    var (pk, sk, key) := (PublicBytes(H, seed), PrivateBytes(H, seed), KeyKey(H, seed));
    ShakeIs(H, [0x12] + Ascii("mldsa-key") + seed, sk[32..64]);
    PrivateTail(H, seed);
    ShakeIs(H, [0x11] + Ascii("mldsa-t0") + pk[32..], sk[2912..3872]);
    ShakeIs(H, [0x11] + Ascii("mldsa-sk-zfill") + H.sha3(pk), sk[3904..]);
  }

  lemma PrivateTail(H: Hashes, seed: seq<u8>)
    ensures var (pk, sk) := (PublicBytes(H, seed), PrivateBytes(H, seed));
            && sk[32..64] == KeyKey(H, seed) && sk[64..96] == H.sha3(pk)
            && sk[2912..3872] == Expand(H, "mldsa-t0", pk[32..], 960) && sk[3872..3904] == H.sha3(pk)
            && sk[3904..] == Expand(H, "mldsa-sk-zfill", H.sha3(pk), 128)
  {
    hide TVec, SmallL, SmallK, TBytes, Expand, SmallBytes, KeyRho, KeyKey, T0Bytes;
    var (pk, key, rho) := (PublicBytes(H, seed), KeyKey(H, seed), KeyRho(H, seed));
    var t := TVec(H, rho, SmallL(H, key, "mldsa-s1"), SmallK(H, key, "mldsa-s2"));
    assert pk == rho + TBytes(t);
    assert pk[32..] == TBytes(t);
    T0Is(H, t);
  }

  lemma T0Is(H: Hashes, t: VecK)
    ensures T0Bytes(H, t) == Expand(H, "mldsa-t0", TBytes(t), 960)
  {
  }

  /** Its secrets: a stream byte modulo 5, centred, for each coefficient. */
  lemma SecretsAre(H: Hashes, seed: seq<u8>, i: u8, k: nat)
    requires k < N
    ensures var sk := PrivateBytes(H, seed);
            && (i < L ==> SecretS1(sk)[i][k]
                          == H.xof([0x11] + Ascii("mldsa-small") + (Ascii("mldsa-s1") + sk[32..64] + [i]), k) as int % 5 - 2)
            && (i < K ==> SecretS2(sk)[i][k]
                          == H.xof([0x11] + Ascii("mldsa-small") + (Ascii("mldsa-s2") + sk[32..64] + [i]), k) as int % 5 - 2)
  {
    hide PrivateBytes, SmallPoly, SecretS1, SecretS2, DerivedPublic, Matching, Ascii;
    var (sk, key) := (PrivateBytes(H, seed), KeyKey(H, seed));
    HonestKeys(H, seed);
    PrivateFields(H, seed);
    assert sk[32..64] == key;
    if i < L {
      assert SmallL(H, key, "mldsa-s1")[i] == SmallPoly(H, key, "mldsa-s1", i);
      SmallAt(H, key, "mldsa-s1", i, k);
    }
    if i < K {
      assert SmallK(H, key, "mldsa-s2")[i] == SmallPoly(H, key, "mldsa-s2", i);
      SmallAt(H, key, "mldsa-s2", i, k);
    }
  }

  lemma SmallAt(H: Hashes, key: Bytes32, tag: string, i: u8, k: nat)
    requires k < N
    ensures SmallPoly(H, key, tag, i)[k] == H.xof([0x11] + Ascii("mldsa-small") + (Ascii(tag) + key + [i]), k) as int % 5 - 2
  {
  }

  /** How private key bytes spell their secrets: one byte a coefficient, offset by two. */
  lemma SecretBytes(sk: PrivateKey, i: nat, k: nat)
    requires k < N
    ensures i < L ==> SecretS1(sk)[i][k] == sk[96 + 256 * i + k] as int - 2
    ensures i < K ==> SecretS2(sk)[i][k] == sk[1376 + 256 * i + k] as int - 2
  {
    var (b1, b2) := (sk[96..1376], sk[1376..2912]);
    if i < L {
      assert OfSmall(b1, L)[i] == SmallPolyAt(b1, i);
      assert b1[256 * i + k] == sk[96 + 256 * i + k];
    }
    if i < K {
      assert OfSmall(b2, K)[i] == SmallPolyAt(b2, i);
      assert b2[256 * i + k] == sk[1376 + 256 * i + k];
    }
  }

  /** The public vector: row i of A times s1, plus s2, modulo q. */
  lemma PublicVectorAt(H: Hashes, rho: Bytes32, s1: VecL, s2: VecK, i: nat, k: nat)
    requires i < K && k < N
    ensures var a := Entry(H, rho, i);
            TVec(H, rho, s1, s2)[i][k]
            == (ConvAt(a[0], s1[0], k) + ConvAt(a[1], s1[1], k) + ConvAt(a[2], s1[2], k) + ConvAt(a[3], s1[3], k) + ConvAt(a[4], s1[4], k)
                + s2[i][k]) % Q
  {
    hide ConvAt, RowP, Entry, Dot, PolyCong, AddP;
    var a := Entry(H, rho, i);
    var (row, exact) := (RowP(a, s1, L), Dot(a, s1, L));
    RowIsDot(a, s1, L);
    FiveTerms(a, s1, k);
    CongRefl(s2[i], Q);
    CongSum(row, exact, s2[i], s2[i], Q);
    ReduceCong(AddP(row, s2[i]));
    CongTrans(ReduceP(AddP(row, s2[i])), AddP(row, s2[i]), AddP(exact, s2[i]), Q);
    CongOnce(ReduceP(AddP(row, s2[i])), AddP(exact, s2[i]), k);
    assert TVec(H, rho, s1, s2)[i] == ReduceP(AddP(row, s2[i]));
    SumAt(exact, s2[i], k);
  }

  lemma SumAt(a: Poly, b: Poly, k: nat)
    requires k < N
    ensures AddP(a, b)[k] == a[k] + b[k]
  {
  }

  /** The public key derived from a private one, for any private key bytes. */
  lemma DerivedIs(H: Hashes, sk: PrivateKey, i: nat)
    requires i < K
    ensures var (pk, t) := (DerivedPublic(H, sk), TVec(H, sk[..32], SecretS1(sk), SecretS2(sk)));
            pk[..32] == sk[..32] && pk[32 + 320 * i..32 + 320 * i + 320] == Bytes10(t[i])
  {
    hide TVec, SecretS1, SecretS2, Bytes10, TBytes;
    var (pk, t) := (DerivedPublic(H, sk), TVec(H, sk[..32], SecretS1(sk), SecretS2(sk)));
    TBytesAt(t, i);
    assert pk[32..] == TBytes(t);
    assert pk[32..][320 * i..320 * i + 320] == pk[32 + 320 * i..32 + 320 * i + 320];
  }
}
