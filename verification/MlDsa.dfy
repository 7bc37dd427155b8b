/** ML-DSA as `mldsa.rs` composes it: key generation, the signing loop with its norm tests, and verification. */
module MlDsa {
  import opened Arith
  import opened Words
  import opened Wrappers
  import opened HashPrimitives
  import opened Negacyclic
  import opened MlDsaPoly
  import opened MlDsaChallenge
  import opened MlDsaCodec

  const PUBLIC_LEN: nat := 1952
  const PRIVATE_LEN: nat := 4032
  const SIGNATURE_LEN: nat := 3309
  const MAX_ITERS: nat := 64
  const GAMMA1: int := 0x2_0000
  const Z_BOUND: int := 2 * GAMMA1
  const R_BOUND: int := Q / 2

  datatype DsaError = InvalidLength | CryptoFailure

  type PublicKey = s: seq<u8> | |s| == 1952 witness seq(1952, _ => 0)
  type PrivateKey = s: seq<u8> | |s| == 4032 witness seq(4032, _ => 0)

  // Expansion of seeds

  function Expand(H: Hashes, tag: string, seed: seq<u8>, n: nat): (r: seq<u8>)
    ensures |r| == n
  {
    Shake(H, [0x11] + Ascii(tag) + seed, n)
  }

  function Hash32(H: Hashes, tag: string, seed: seq<u8>): Bytes32 {
    Shake(H, [0x12] + Ascii(tag) + seed, 32)
  }

  /** Three bytes, low first. */
  function Raw24(b0: u8, b1: u8, b2: u8): (r: nat)
    ensures r == b0 + 0x100 * b1 + 0x1_0000 * b2
  {
    hide Or, Shl;
    SmallPowers();
    Shifts(b1);
    Join(b1, b0, 8);
    Shift16(b2);
    OrBounds(b0, b0, 8);
    Join(b2, b0 + 0x100 * b1, 16);
    Or(Or(b0, Shl(b1, 8)), Shl(b2, 16))
  }

  lemma Shift16(x: nat)
    ensures Pow2(16) == 0x1_0000 && Pow2(17) == 0x2_0000 && Pow2(18) == 0x4_0000 && Pow2(23) == 0x80_0000
    ensures Shl(x, 16) == 0x1_0000 * x
  {
    hide Mul;
    SmallPowers();
    Pow2Add(8, 8);
    Pow2Add(16, 2);
    Pow2Add(16, 1);
    Pow2Add(16, 7);
    PowerProducts(x);
  }

  lemma PowerProducts(x: nat)
    ensures Mul(256, 256) == 0x1_0000 && Mul(0x1_0000, 4) == 0x4_0000 && Mul(0x1_0000, 2) == 0x2_0000
    ensures Mul(0x1_0000, 128) == 0x80_0000 && Mul(x, 0x1_0000) == 0x1_0000 * x
  {
  }

  function Group24(bytes: seq<u8>, k: nat): nat
    requires |bytes| == 3 * N && k < N
  {
    Raw24(bytes[3 * k], bytes[3 * k + 1], bytes[3 * k + 2])
  }

  /** A matrix entry: 23 bits reduced modulo q. */
  function UniformPoly(H: Hashes, rho: Bytes32, row: u8, col: u8): (p: Poly24)
    ensures Canonical(p)
  {
    hide Raw24;
    var bytes := Expand(H, "mldsa-matrix", rho + [row, col], 3 * N);
    seq(N, k requires 0 <= k < N => Group24(bytes, k) % 0x80_0000 % Q)
  }

  method SampleUniformPoly(H: Hashes, rho: Bytes32, row: u8, col: u8) returns (out: Poly24)
    ensures out == UniformPoly(H, rho, row, col)
  {
    hide Raw24, And, Expand;
    var bytes := Expand(H, "mldsa-matrix", rho + [row, col], 3 * N);
    var coeffs := new i24[N](_ => 0);
    for i := 0 to N
      invariant forall k :: 0 <= k < i ==> coeffs[k] == Group24(bytes, k) % 0x80_0000 % Q
    {
      LowBits(Group24(bytes, i));
      coeffs[i] := ModQ(And(Group24(bytes, i), 0x7F_FFFF));
    }
    out := coeffs[..];
  }

  lemma LowBits(raw: nat)
    ensures And(raw, 0x7F_FFFF) == raw % 0x80_0000 && And(raw, 0x3_FFFF) == raw % 0x4_0000
  {
    hide And, Mod;
    Shift16(0);
    AndMask(raw, 23);
    AndMask(raw, 18);
    ModIs(raw, 0x80_0000);
    ModIs(raw, 0x4_0000);
  }

  /** A mask polynomial: 18 bits, centred. */
  function MaskPoly(H: Hashes, seed: Bytes32, index: u8): (p: Poly24)
    ensures forall k :: 0 <= k < N ==> -GAMMA1 <= p[k] < GAMMA1
  {
    hide Raw24;
    var bytes := Expand(H, "mldsa-y", seed + [index], 3 * N);
    seq(N, k requires 0 <= k < N => Group24(bytes, k) % 0x4_0000 - GAMMA1)
  }

  function Clamp(value: int, min: int, max: int): int {
    if value < min then min else if value > max then max else value
  }

  /** The clamp never acts. */
  method SampleMaskPoly(H: Hashes, seed: Bytes32, index: u8) returns (out: Poly24)
    ensures out == MaskPoly(H, seed, index)
  {
    hide Raw24, And, Expand;
    var bytes := Expand(H, "mldsa-y", seed + [index], 3 * N);
    var coeffs := new i24[N](_ => 0);
    for i := 0 to N
      invariant forall k :: 0 <= k < i ==> coeffs[k] == Group24(bytes, k) % 0x4_0000 - GAMMA1
    {
      LowBits(Group24(bytes, i));
      var centered := And(Group24(bytes, i), 0x3_FFFF) - GAMMA1;
      coeffs[i] := Clamp(centered, -GAMMA1, GAMMA1);
    }
    out := coeffs[..];
  }

  /** A secret polynomial: bytes modulo 5, centred. */
  function SmallPoly(H: Hashes, seed: Bytes32, tag: string, index: u8): (p: Poly24)
    ensures Small(p)
  {
    var bytes := Expand(H, "mldsa-small", Ascii(tag) + seed + [index], N);
    seq(N, k requires 0 <= k < N => bytes[k] as int % 5 - 2)
  }

  function SmallL(H: Hashes, seed: Bytes32, tag: string): (v: VecL)
    ensures forall i :: 0 <= i < L ==> Small(v[i])
  {
    hide SmallPoly;
    [SmallPoly(H, seed, tag, 0), SmallPoly(H, seed, tag, 1), SmallPoly(H, seed, tag, 2), SmallPoly(H, seed, tag, 3),
     SmallPoly(H, seed, tag, 4)]
  }

  function SmallK(H: Hashes, seed: Bytes32, tag: string): (v: VecK)
    ensures forall i :: 0 <= i < K ==> Small(v[i])
  {
    hide SmallPoly;
    [SmallPoly(H, seed, tag, 0), SmallPoly(H, seed, tag, 1), SmallPoly(H, seed, tag, 2), SmallPoly(H, seed, tag, 3),
     SmallPoly(H, seed, tag, 4), SmallPoly(H, seed, tag, 5)]
  }

  function MaskL(H: Hashes, seed: Bytes32): (v: VecL)
    ensures forall i, k :: 0 <= i < L && 0 <= k < N ==> -GAMMA1 <= v[i][k] < GAMMA1
  {
    hide MaskPoly;
    [MaskPoly(H, seed, 0), MaskPoly(H, seed, 1), MaskPoly(H, seed, 2), MaskPoly(H, seed, 3), MaskPoly(H, seed, 4)]
  }

  // Linear algebra

  function Entry(H: Hashes, rho: Bytes32, i: u8): VecL {
    hide UniformPoly;
    [UniformPoly(H, rho, i, 0), UniformPoly(H, rho, i, 1), UniformPoly(H, rho, i, 2), UniformPoly(H, rho, i, 3), UniformPoly(H, rho, i, 4)]
  }

  /** The running sum of one row, reduced after each product. */
  function RowP(a: VecL, s: VecL, n: nat): (r: Poly24)
    requires n <= L
    ensures Canonical(r)
  {
    hide MulP, ReduceP, AddP;
    if n == 0 then ZeroPoly() else ReduceP(AddP(RowP(a, s, n - 1), MulP(a[n - 1], s[n - 1])))
  }

  method MatRow(a: VecL, s: VecL) returns (r: Poly24)
    ensures r == RowP(a, s, L)
  {
    hide MulP, ReduceP, AddP;
    var acc := new i24[N](_ => 0);
    assert acc[..] == ZeroPoly();
    for j := 0 to L
      invariant acc[..] == RowP(a, s, j)
    {
      var term := PolyMul(a[j], s[j]);
      AddPolyInplace(acc, term);
    }
    ReduceCanonical(RowP(a, s, L));
    NormalizePoly(acc);
    r := acc[..];
  }

  function MatVec(H: Hashes, rho: Bytes32, s: VecL): (v: VecK)
    ensures forall i :: 0 <= i < K ==> Canonical(v[i])
  {
    hide RowP, Entry;
    [RowP(Entry(H, rho, 0), s, L), RowP(Entry(H, rho, 1), s, L), RowP(Entry(H, rho, 2), s, L),
     RowP(Entry(H, rho, 3), s, L), RowP(Entry(H, rho, 4), s, L), RowP(Entry(H, rho, 5), s, L)]
  }

  /** One polynomial of z: y + c*s1. */
  function ZPoly(y: Poly24, c: Poly24, s: Poly24): (z: Poly24)
    ensures Canonical(z)
  {
    hide MulP, AddP;
    ReduceP(AddP(y, MulP(c, s)))
  }

  /** One polynomial of r: w - c*s2. */
  function RPoly(w: Poly24, c: Poly24, s: Poly24): (r: Poly24)
    ensures Canonical(r)
  {
    hide MulP, SubP;
    ReduceP(SubP(w, MulP(c, s)))
  }

  function ZVec(y: VecL, c: Poly24, s: VecL): VecL {
    hide ZPoly;
    [ZPoly(y[0], c, s[0]), ZPoly(y[1], c, s[1]), ZPoly(y[2], c, s[2]), ZPoly(y[3], c, s[3]), ZPoly(y[4], c, s[4])]
  }

  function RVec(w: VecK, c: Poly24, s: VecK): VecK {
    hide RPoly;
    [RPoly(w[0], c, s[0]), RPoly(w[1], c, s[1]), RPoly(w[2], c, s[2]), RPoly(w[3], c, s[3]), RPoly(w[4], c, s[4]), RPoly(w[5], c, s[5])]
  }

  function ZBytes(z: VecL): (b: seq<u8>)
    ensures |b| == 1920
  {
    hide Bytes12;
    Bytes12(z[0]) + Bytes12(z[1]) + Bytes12(z[2]) + Bytes12(z[3]) + Bytes12(z[4])
  }

  function OfZBytes(b: seq<u8>): (z: VecL)
    requires |b| == 1920
    ensures forall i, k :: 0 <= i < L && 0 <= k < N ==> 0 <= z[i][k] < 4096
  {
    hide Of12;
    [Of12(b[..384]), Of12(b[384..768]), Of12(b[768..1152]), Of12(b[1152..1536]), Of12(b[1536..])]
  }

  function TBytes(t: VecK): (b: seq<u8>)
    ensures |b| == 1920
  {
    hide Bytes10;
    Bytes10(t[0]) + Bytes10(t[1]) + Bytes10(t[2]) + Bytes10(t[3]) + Bytes10(t[4]) + Bytes10(t[5])
  }

  function OfTBytes(b: seq<u8>): VecK
    requires |b| == 1920
  {
    hide Of10;
    [Of10(b[..320]), Of10(b[320..640]), Of10(b[640..960]), Of10(b[960..1280]), Of10(b[1280..1600]), Of10(b[1600..])]
  }

  // Challenge and hint

  function BuildChallenge(H: Hashes, mu: Bytes32, w1: seq<u8>): Bytes32 {
    Shake(H, [0x13] + mu + w1, 32)
  }

  function ChallengeStream(H: Hashes, c: Bytes32): Stream {
    Shake(H, [0x13] + c, 196)
  }

  /** The commitment itself, padded with a hash of the commitment, the answer, the key and the challenge. */
  function Hint(H: Hashes, w1: seq<u8>, z: seq<u8>, t: VecK, c: Bytes32): (b: seq<u8>)
    requires |w1| == 768
    ensures |b| == 1357 && b[..768] == w1
  {
    hide TBytes;
    w1 + Expand(H, "mldsa-hints", w1 + z + TBytes(t) + c, 1357 - 768)
  }

  // Key generation

  function KeyRho(H: Hashes, seed: seq<u8>): Bytes32 { Hash32(H, "mldsa-rho", seed) }

  function KeyKey(H: Hashes, seed: seq<u8>): Bytes32 { Hash32(H, "mldsa-key", seed) }

  /** A*s1 + s2, one row reduced. */
  function TVec(H: Hashes, rho: Bytes32, s1: VecL, s2: VecK): VecK {
    hide MatVec, ReduceP, AddP;
    var t := MatVec(H, rho, s1);
    [ReduceP(AddP(t[0], s2[0])), ReduceP(AddP(t[1], s2[1])), ReduceP(AddP(t[2], s2[2])),
     ReduceP(AddP(t[3], s2[3])), ReduceP(AddP(t[4], s2[4])), ReduceP(AddP(t[5], s2[5]))]
  }

  function EncodePublicKey(H: Hashes, rho: Bytes32, t: VecK): PublicKey {
    hide TBytes;
    rho + TBytes(t)
  }

  function PublicBytes(H: Hashes, seed: seq<u8>): PublicKey {
    hide TVec, SmallL, SmallK, EncodePublicKey;
    var (rho, key) := (KeyRho(H, seed), KeyKey(H, seed));
    EncodePublicKey(H, rho, TVec(H, rho, SmallL(H, key, "mldsa-s1"), SmallK(H, key, "mldsa-s2")))
  }

  function T0Bytes(H: Hashes, t: VecK): (b: seq<u8>)
    ensures |b| == 960
  {
    hide TBytes;
    Expand(H, "mldsa-t0", TBytes(t), 960)
  }

  function PrivateBytes(H: Hashes, seed: seq<u8>): PrivateKey {
    hide TVec, SmallL, SmallK, PublicBytes, SmallBytes, T0Bytes, Expand;
    var (rho, key, pk) := (KeyRho(H, seed), KeyKey(H, seed), PublicBytes(H, seed));
    var (s1, s2) := (SmallL(H, key, "mldsa-s1"), SmallK(H, key, "mldsa-s2"));
    var head: seq<u8> := rho;
    var hpk := H.sha3(pk);
    head + key + H.sha3(pk) + SmallBytes(s1) + SmallBytes(s2) + T0Bytes(H, TVec(H, rho, s1, s2)) + hpk
      + Expand(H, "mldsa-sk-zfill", hpk, 128)
  }

  function SecretS1(sk: PrivateKey): (s: VecL)
    ensures forall i, k :: 0 <= i < L && 0 <= k < N ==> -2 <= s[i][k] <= 253
  {
    OfSmall(sk[96..1376], L)
  }

  function SecretS2(sk: PrivateKey): VecK {
    OfSmall(sk[1376..2912], K)
  }

  // Signing

  function LittleEndian(nonce: nat): seq<u8> {
    [nonce % 256, nonce / 256 % 256, nonce / 0x1_0000 % 256, nonce / 0x100_0000 % 256]
  }

  function SignMu(H: Hashes, sk: PrivateKey, msg: seq<u8>): Bytes32 {
    H.sha3(sk[64..96] + msg)
  }

  function YVec(H: Hashes, sk: PrivateKey, msg: seq<u8>, nonce: nat): (y: VecL)
    ensures forall i, k :: 0 <= i < L && 0 <= k < N ==> -GAMMA1 <= y[i][k] < GAMMA1
  {
    hide MaskL;
    MaskL(H, H.sha3(H.sha3(sk[32..64] + SignMu(H, sk, msg) + msg) + LittleEndian(nonce)))
  }

  function WVec(H: Hashes, sk: PrivateKey, msg: seq<u8>, nonce: nat): VecK {
    hide MatVec, YVec;
    MatVec(H, sk[..32], YVec(H, sk, msg, nonce))
  }

  function SignDigest(H: Hashes, sk: PrivateKey, msg: seq<u8>, nonce: nat): Bytes32 {
    hide WVec, HintBytes;
    BuildChallenge(H, SignMu(H, sk, msg), HintBytes(WVec(H, sk, msg, nonce)))
  }

  /** The challenge sampler ends for this nonce. */
  predicate Ends(H: Hashes, sk: PrivateKey, msg: seq<u8>, nonce: nat) {
    Enough(ChallengeStream(H, SignDigest(H, sk, msg, nonce)))
  }

  /** One pass of the rejection loop: a signature, or a failed norm test. */
  ghost function Attempt(H: Hashes, sk: PrivateKey, pk: PublicKey, msg: seq<u8>, nonce: nat): (sig: Option<seq<u8>>)
    requires Ends(H, sk, msg, nonce)
    ensures sig.Some? ==> |sig.value| == SIGNATURE_LEN
  {
    hide WVec, YVec, HintBytes, SignDigest, Challenge, ZVec, RVec, SecretS1, SecretS2, ZBytes, Hint, OfTBytes, NormAtMost;
    var w := WVec(H, sk, msg, nonce);
    var c := SignDigest(H, sk, msg, nonce);
    var poly := Challenge(ChallengeStream(H, c));
    var z := ZVec(YVec(H, sk, msg, nonce), poly, SecretS1(sk));
    var r := RVec(w, poly, SecretS2(sk));
    if !NormAtMost(z, Z_BOUND) || !NormAtMost(r, R_BOUND) then None
    else Some(ZBytes(z) + c + Hint(H, HintBytes(w), ZBytes(z), OfTBytes(pk[32..]), c))
  }

  /** Every challenge sampler the loop starts, from `nonce` on, ends. */
  ghost predicate LoopEnds(H: Hashes, sk: PrivateKey, pk: PublicKey, msg: seq<u8>, nonce: nat)
    decreases MAX_ITERS - nonce
  {
    nonce >= MAX_ITERS || (Ends(H, sk, msg, nonce) && (Attempt(H, sk, pk, msg, nonce) == None ==> LoopEnds(H, sk, pk, msg, nonce + 1)))
  }

  ghost function SignFrom(H: Hashes, sk: PrivateKey, pk: PublicKey, msg: seq<u8>, nonce: nat): Result<seq<u8>, DsaError>
    requires LoopEnds(H, sk, pk, msg, nonce)
    decreases MAX_ITERS - nonce
  {
    hide Attempt;
    if nonce >= MAX_ITERS then Err(CryptoFailure)
    else match Attempt(H, sk, pk, msg, nonce)
      case Some(sig) => Ok(sig)
      case None => SignFrom(H, sk, pk, msg, nonce + 1)
  }

  // Verification

  function VerifyMu(H: Hashes, pk: PublicKey, msg: seq<u8>): Bytes32 {
    H.sha3(H.sha3(pk) + msg)
  }

  ghost function Verify(H: Hashes, pk: seq<u8>, msg: seq<u8>, sig: seq<u8>): Result<(), DsaError> {
    if |pk| != PUBLIC_LEN || |sig| != SIGNATURE_LEN then Err(InvalidLength)
    else
      hide Hint, BuildChallenge, OfTBytes, OfZBytes, NormAtMost;
      var (z, c, w1, tail) := (sig[..1920], sig[1920..1952], sig[1952..2720], sig[2720..]);
      if BuildChallenge(H, VerifyMu(H, pk, msg), w1) != c then Err(CryptoFailure)
      else if Hint(H, w1, z, OfTBytes(pk[32..]), c)[768..] != tail then Err(CryptoFailure)
      else if !NormAtMost(OfZBytes(z), Z_BOUND) then Err(CryptoFailure)
      else Ok(())
  }
}
