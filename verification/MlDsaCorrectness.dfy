/** Signing never rejects, and what it signs verifies. */
module MlDsaCorrectness {
  import opened Arith
  import opened Sums
  import opened Words
  import opened Wrappers
  import opened HashPrimitives
  import opened Negacyclic
  import opened Weights
  import opened MlDsaPoly
  import opened MlDsaChallenge
  import opened MlDsaCodec
  import opened MlDsa
  import opened MlDsaScheme

  ghost predicate Bounded(p: Poly24, bound: nat) {
    forall k :: 0 <= k < N ==> Abs(p[k]) <= bound
  }

  /** y + c*s stays within |y| + 49*|s|. */
  lemma AnswerWithin(y: Poly24, c: Poly24, s: Poly24, yBound: nat, sBound: nat, k: nat)
    requires k < N && Weight(c) == TERMS && Bounded(y, yBound) && Bounded(s, sBound)
    ensures CenteredAbs(ZPoly(y, c, s)[k]) <= yBound + 49 * sBound
  {
    hide Weight, Mul, CenteredAbs, ConvAt;
    WeightBound(c, s, k, sBound);
    Times49(sBound);
    var product := ConvAt(c, s, k);
    CongMod(product, Q);
    assert Cong(MulP(c, s)[k], product, Q);
    CongAdd(y[k], y[k], MulP(c, s)[k], product, Q);
    var sum: int := y[k] as int + MulP(c, s)[k];
    CongMod(sum, Q);
    assert Cong(ZPoly(y, c, s)[k], sum, Q);
    var exact: int := y[k] as int + product;
    CenteredAbsLeast(ZPoly(y, c, s)[k], exact);
  }

  lemma Times49(x: int)
    ensures Mul(x, TERMS) == 49 * x
  {
  }

  /** Every coefficient of z, for a key whose secret coefficients have size at most `bound`. */
  lemma AnswersWithin(y: VecL, c: Poly24, s: VecL, bound: nat)
    requires Weight(c) == TERMS
    requires forall i :: 0 <= i < L ==> Bounded(y[i], GAMMA1) && Bounded(s[i], bound)
    ensures NormAtMost(ZVec(y, c, s), GAMMA1 + 49 * bound)
  {
    hide Weight, CenteredAbs, ZPoly, Bounded;
    forall i, k | 0 <= i < L && 0 <= k < N ensures CenteredAbs(ZVec(y, c, s)[i][k]) <= GAMMA1 + 49 * bound {
      AnswerWithin(y[i], c, s[i], GAMMA1, bound, k);
    }
  }

  /** The second norm test cannot fail: q/2 bounds every centred residue. */
  lemma ResidueWithin(v: seq<Poly24>)
    ensures NormAtMost(v, R_BOUND)
  {
    hide CenteredAbs;
    forall i, k | 0 <= i < |v| && 0 <= k < N ensures CenteredAbs(v[i][k]) <= R_BOUND {
      CenteredAbsLeast(v[i][k], v[i][k]);
    }
  }

  /** The answer of one signing pass. */
  ghost function Answer(H: Hashes, sk: PrivateKey, msg: seq<u8>, nonce: nat): VecL
    requires Ends(H, sk, msg, nonce)
  {
    hide YVec, SignDigest, Challenge, ZVec, SecretS1;
    ZVec(YVec(H, sk, msg, nonce), Challenge(ChallengeStream(H, SignDigest(H, sk, msg, nonce))), SecretS1(sk))
  }

  lemma AnswerNorm(H: Hashes, sk: PrivateKey, msg: seq<u8>, nonce: nat, bound: nat)
    requires Ends(H, sk, msg, nonce) && forall i :: 0 <= i < L ==> Bounded(SecretS1(sk)[i], bound)
    ensures NormAtMost(Answer(H, sk, msg, nonce), GAMMA1 + 49 * bound)
  {
    hide YVec, SignDigest, Challenge, ZVec, SecretS1, Weight, NormAtMost, Enough;
    var c := Challenge(ChallengeStream(H, SignDigest(H, sk, msg, nonce)));
    ChallengeIsSparse(ChallengeStream(H, SignDigest(H, sk, msg, nonce)));
    AnswersWithin(YVec(H, sk, msg, nonce), c, SecretS1(sk), bound);
  }

  /** For any private key bytes at all, both norm tests pass at every nonce whose challenge sampler ends. */
  lemma NeverRejects(H: Hashes, sk: PrivateKey, pk: PublicKey, msg: seq<u8>, nonce: nat)
    requires Ends(H, sk, msg, nonce)
    ensures Attempt(H, sk, pk, msg, nonce).Some?
  {
    hide WVec, YVec, HintBytes, SignDigest, Challenge, ZVec, RVec, SecretS1, SecretS2, ZBytes, Hint, OfTBytes, NormAtMost, Enough;
    AnswerNorm(H, sk, msg, nonce, 253);
    NormWeaker(Answer(H, sk, msg, nonce), GAMMA1 + 49 * 253, Z_BOUND);
    ResidueWithin(RVec(WVec(H, sk, msg, nonce), Challenge(ChallengeStream(H, SignDigest(H, sk, msg, nonce))), SecretS2(sk)));
  }

  lemma NormWeaker(v: seq<Poly24>, a: nat, b: nat)
    requires NormAtMost(v, a) && a <= b
    ensures NormAtMost(v, b)
  {
    hide CenteredAbs;
  }

  /** Signing ends exactly when its first challenge sampler ends, and then returns the first attempt. */
  lemma SignsAtFirstNonce(H: Hashes, sk: PrivateKey, pk: PublicKey, msg: seq<u8>)
    ensures LoopEnds(H, sk, pk, msg, 0) <==> Ends(H, sk, msg, 0)
    ensures Ends(H, sk, msg, 0) ==>
              && Attempt(H, sk, pk, msg, 0).Some? && LoopEnds(H, sk, pk, msg, 0)
              && SignFrom(H, sk, pk, msg, 0) == Ok(Attempt(H, sk, pk, msg, 0).value)
  {
    hide Ends, Attempt, LoopEnds, SignFrom;
    FirstTurn(H, sk, pk, msg, 0);
    if Ends(H, sk, msg, 0) {
      NeverRejects(H, sk, pk, msg, 0);
    }
  }

  lemma FirstTurn(H: Hashes, sk: PrivateKey, pk: PublicKey, msg: seq<u8>, nonce: nat)
    requires nonce < MAX_ITERS
    ensures LoopEnds(H, sk, pk, msg, nonce) ==> Ends(H, sk, msg, nonce)
    ensures Ends(H, sk, msg, nonce) && Attempt(H, sk, pk, msg, nonce).Some? ==>
              LoopEnds(H, sk, pk, msg, nonce) && SignFrom(H, sk, pk, msg, nonce) == Ok(Attempt(H, sk, pk, msg, nonce).value)
  {
    hide Ends, Attempt;
  }

  // Verification

  /** The norm test of verification never decides: twelve-bit coefficients are always small. */
  lemma AcceptsIff(H: Hashes, pk: PublicKey, msg: seq<u8>, sig: seq<u8>)
    requires |sig| == SIGNATURE_LEN
    ensures Verify(H, pk, msg, sig) == Ok(()) <==>
              && sig[1920..1952] == BuildChallenge(H, VerifyMu(H, pk, msg), sig[1952..2720])
              && sig[2720..] == Hint(H, sig[1952..2720], sig[..1920], OfTBytes(pk[32..]), sig[1920..1952])[768..]
  {
    hide Hint, BuildChallenge, OfTBytes, OfZBytes, NormAtMost, VerifyMu;
    DecodedWithin(sig[..1920]);
  }

  lemma DecodedWithin(b: seq<u8>)
    requires |b| == 1920
    ensures NormAtMost(OfZBytes(b), Z_BOUND)
  {
    hide CenteredAbs, Of12;
    var z := OfZBytes(b);
    forall i, k | 0 <= i < L && 0 <= k < N ensures CenteredAbs(z[i][k]) <= Z_BOUND {
      CenteredAbsLeast(z[i][k], z[i][k]);
    }
  }

  /** The fields of a signature. */
  lemma SignatureFields(z: seq<u8>, c: Bytes32, hint: seq<u8>)
    requires |z| == 1920 && |hint| == 1357
    ensures var sig := z + c + hint;
            sig[..1920] == z && sig[1920..1952] == c && sig[1952..2720] == hint[..768] && sig[2720..] == hint[768..]
  {
  }

  /** A signature made under any private key is accepted under a public key exactly when both hash to one challenge. */
  lemma SignedIsAcceptedIff(H: Hashes, sk: PrivateKey, pk: PublicKey, msg: seq<u8>, nonce: nat)
    requires Ends(H, sk, msg, nonce)
    ensures Attempt(H, sk, pk, msg, nonce).Some?
    ensures var w1 := HintBytes(WVec(H, sk, msg, nonce));
            Verify(H, pk, msg, Attempt(H, sk, pk, msg, nonce).value) == Ok(())
            <==> BuildChallenge(H, VerifyMu(H, pk, msg), w1) == BuildChallenge(H, SignMu(H, sk, msg), w1)
  {
    hide WVec, HintBytes, BuildChallenge, Ends, Challenge, ZVec, RVec, YVec, SecretS1, SecretS2, ZBytes, Hint, OfTBytes, NormAtMost,
      VerifyMu, SignMu, Verify;
    NeverRejects(H, sk, pk, msg, nonce);
    var sig := Attempt(H, sk, pk, msg, nonce).value;
    var z := ZBytes(Answer(H, sk, msg, nonce));
    var w1 := HintBytes(WVec(H, sk, msg, nonce));
    var c := SignDigest(H, sk, msg, nonce);
    var hint := Hint(H, w1, z, OfTBytes(pk[32..]), c);
    assert sig == z + c + hint;
    SignatureFields(z, c, hint);
    AcceptsIff(H, pk, msg, sig);
  }

  /** A key pair that belongs together. */
  ghost predicate Matching(H: Hashes, sk: PrivateKey, pk: PublicKey) {
    sk[64..96] == H.sha3(pk)
  }

  /** With matching keys, signing succeeds at the first nonce and its signature verifies. */
  lemma SignThenVerify(H: Hashes, sk: PrivateKey, pk: PublicKey, msg: seq<u8>)
    requires Matching(H, sk, pk) && Ends(H, sk, msg, 0)
    ensures LoopEnds(H, sk, pk, msg, 0)
    ensures SignFrom(H, sk, pk, msg, 0).Ok?
    ensures Verify(H, pk, msg, SignFrom(H, sk, pk, msg, 0).value) == Ok(())
  {
    hide Ends, Attempt, Verify, HintBytes, WVec, BuildChallenge, SignFrom, LoopEnds;
    SignsAtFirstNonce(H, sk, pk, msg);
    SignedIsAcceptedIff(H, sk, pk, msg, 0);
  }

  // Honest keys

  lemma PrivateFields(H: Hashes, seed: seq<u8>)
    ensures var (pk, sk, key) := (PublicBytes(H, seed), PrivateBytes(H, seed), KeyKey(H, seed));
            && sk[..32] == KeyRho(H, seed) && sk[32..64] == key && sk[64..96] == H.sha3(pk)
            && sk[96..1376] == SmallBytes(SmallL(H, key, "mldsa-s1"))
            && sk[1376..2912] == SmallBytes(SmallK(H, key, "mldsa-s2"))
  {
    hide KeyRho, KeyKey, TVec, SmallL, SmallK, PublicBytes, SmallBytes, T0Bytes, Expand;
  }

  /** Key generation's halves match, its secrets decode to what was sampled, and the private half gives the public one back. */
  lemma HonestKeys(H: Hashes, seed: seq<u8>)
    ensures var (pk, sk, key) := (PublicBytes(H, seed), PrivateBytes(H, seed), KeyKey(H, seed));
            && Matching(H, sk, pk)
            && SecretS1(sk) == SmallL(H, key, "mldsa-s1") && SecretS2(sk) == SmallK(H, key, "mldsa-s2")
            && DerivedPublic(H, sk) == pk
  {
    hide KeyRho, KeyKey, TVec, SmallL, SmallK, PrivateBytes, SmallBytes, EncodePublicKey, OfSmall;
    var key := KeyKey(H, seed);
    PrivateFields(H, seed);
    SmallRoundTrip(SmallL(H, key, "mldsa-s1"));
    SmallRoundTrip(SmallK(H, key, "mldsa-s2"));
  }

  /** For an honest key the answer never exceeds 2^17 + 98. */
  lemma HonestAnswerNorm(H: Hashes, seed: seq<u8>, msg: seq<u8>, nonce: nat)
    requires Ends(H, PrivateBytes(H, seed), msg, nonce)
    ensures NormAtMost(Answer(H, PrivateBytes(H, seed), msg, nonce), GAMMA1 + 98)
  {
    hide Ends, PrivateBytes, PublicBytes, SmallL, SmallK, SecretS1, SecretS2, Answer, NormAtMost, DerivedPublic;
    HonestKeys(H, seed);
    AnswerNorm(H, PrivateBytes(H, seed), msg, nonce, 2);
  }

  /** Key generation, signing and verification, end to end. */
  lemma HonestSignaturesVerify(H: Hashes, seed: seq<u8>, msg: seq<u8>)
    requires Ends(H, PrivateBytes(H, seed), msg, 0)
    ensures var (pk, sk) := (PublicBytes(H, seed), PrivateBytes(H, seed));
            && LoopEnds(H, sk, pk, msg, 0)
            && SignFrom(H, sk, pk, msg, 0).Ok?
            && Verify(H, pk, msg, SignFrom(H, sk, pk, msg, 0).value) == Ok(())
  {
    hide Ends, PrivateBytes, PublicBytes, Verify, SignFrom, LoopEnds, DerivedPublic;
    HonestKeys(H, seed);
    SignThenVerify(H, PrivateBytes(H, seed), PublicBytes(H, seed), msg);
  }
}
