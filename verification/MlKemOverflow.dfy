/** When the i32 products of ML-KEM decapsulation fit: not for every key, but for every key with few negative secret coefficients. */
module MlKemOverflow {
  import opened Arith
  import opened Sums
  import opened Words
  import opened HashPrimitives
  import opened Negacyclic
  import opened Weights
  import opened BitPacking
  import opened MlKemPoly
  import opened MlKemCodec
  import opened MlKem
  import opened MlKemScheme
  import opened MlKemAgreement

  /** No ciphertext bytes decompress to more than 3326. */
  lemma DecompressedAtMost(b: seq<u8>, k: nat)
    requires |b| == 320 && k < N
    ensures PolyOf10(b)[k] <= 3326
  {
    hide Field10;
    LargestStep(Field10(b, k));
  }

  lemma LargestStep(t: nat)
    requires t < 1024
    ensures Decompress(t, 1024) <= 3326
    ensures t == 1023 ==> Decompress(t, 1024) == 3326
  {
  }

  // A product that wraps

  /** All coefficients 3328: what private-key bytes may hold. */
  function LargestSecret(): (p: Poly16)
    ensures Canonical(p)
  {
    seq(N, _ => 3328)
  }

  /** All coefficients 3326: what ciphertext bytes 0xFF decompress to. */
  function LargestCipher(): (p: Poly16)
    ensures Canonical(p)
  {
    seq(N, _ => 3326)
  }

  lemma SecretIsReceivable()
    ensures PolyOfBytes(PolyBytes(LargestSecret())) == LargestSecret()
  {
    hide PolyBytes, PolyOfBytes;
    BytesRoundTrip(LargestSecret());
  }

  lemma CipherIsReceivable(b: seq<u8>)
    requires b == seq(320, _ => 0xFF)
    ensures PolyOf10(b) == LargestCipher()
  {
    hide Field10;
    forall k | 0 <= k < N ensures PolyOf10(b)[k] == 3326 {
      OnesField(b, k);
      LargestStep(1023);
    }
  }

  lemma OnesField(b: seq<u8>, k: nat)
    requires b == seq(320, _ => 0xFF) && k < N
    ensures Field10(b, k) == 1023
  {
    hide Unpack10;
    Unpack10Value(0xFF, 0xFF, 0xFF, 0xFF, 0xFF);
  }

  /** Their product overflows i32 at coefficient 255, which comes out wrong. */
  lemma ProductCanWrap()
    ensures ConvAt(LargestSecret(), LargestCipher(), 255) == 256 * 3328 * 3326
    ensures !Fits(LargestSecret(), LargestCipher())
    ensures MulP(LargestSecret(), LargestCipher())[255] != ConvAt(LargestSecret(), LargestCipher(), 255) % Q
  {
    hide Ext, Mul, MulP;
    var a, b := LargestSecret(), LargestCipher();
    var f := i => Mul(Ext(a, i), Ext(b, 255 - i));
    LargestProduct();
    forall i | 0 <= i < N ensures f(i) == 3328 * 3326 {
      ExtInside(a, i);
      ExtInside(b, 255 - i);
    }
    ConstantSum(f, N, 3328 * 3326);
    SumEqual(f, i => Mul(Ext(a, i), Ext(b, 255 - i)), 0, N);
    TimesN(3328 * 3326);
    MulExactIff(a, b, 255);
  }

  lemma LargestProduct()
    ensures Mul(3328, 3326) == 3328 * 3326
  {
  }

  lemma {:induction false} ConstantSum(f: int -> int, n: nat, c: int)
    requires forall i :: 0 <= i < n ==> f(i) == c
    ensures Sum(f, 0, n) == Mul(c, n)
  {
    hide Mul;
    if n == 0 {
      MulUnit(c);
    } else {
      ConstantSum(f, n - 1, c);
      Distrib(c, n - 1, 1);
      MulUnit(c);
    }
  }

  /** A private key and a ciphertext, both of the right length, that decapsulation multiplies wrongly. */
  lemma DecapsulationCanWrap() returns (sk: PrivateKey, ct: seq<u8>)
    ensures |ct| == 1088 && !FitsVec(VecOfBytes(sk[..1152]), UOf(ct))
  {
    hide PolyBytes, PolyOfBytes, PolyOf10, Fits, LargestSecret, LargestCipher;
    var secret := PolyBytes(LargestSecret());
    sk := secret + secret + secret + seq(1248, _ => 0);
    ct := seq(1088, _ => 0xFF);
    assert sk[..1152][..384] == secret;
    assert ct[..320] == seq(320, _ => 0xFF);
    SecretIsReceivable();
    CipherIsReceivable(ct[..320]);
    ProductCanWrap();
  }

  // Keys whose products fit

  function Sign(p: Poly, i: int): (s: int)
    ensures s == 0 || s == 1
  {
    if 0 <= i < N && p[i] < 0 then 1 else 0
  }

  /** How many coefficients are negative. */
  function Negatives(p: Poly): int {
    Sum(i => Sign(p, i), 0, N)
  }

  /** Reduced, a noise polynomial weighs at most 3328 for each negative coefficient and 2 for each other. */
  lemma SecretWeight(s: Poly16)
    requires Small(s)
    ensures Weight(ReduceP(s)) <= 512 + 3326 * Negatives(s)
  {
    hide Mul;
    var f, g := i => AbsAt(ReduceP(s), i), i => Sign(s, i);
    forall i | 0 <= i < N ensures f(i) <= 2 + 3326 * g(i) {
    }
    LinearSum(f, g, N);
    SumEqual(f, i => AbsAt(ReduceP(s), i), 0, N);
    SumEqual(g, i => Sign(s, i), 0, N);
  }

  lemma {:induction false} LinearSum(f: int -> int, g: int -> int, n: nat)
    requires forall i :: 0 <= i < n ==> f(i) <= 2 + 3326 * g(i)
    ensures Sum(f, 0, n) <= 2 * n + 3326 * Sum(g, 0, n)
  {
    if n != 0 {
      LinearSum(f, g, n - 1);
    }
  }

  /** A secret polynomial with at most 193 negative coefficients never overflows, whatever ciphertext it meets. */
  lemma FewNegativesFit(s: Poly16, b: seq<u8>)
    requires Small(s) && Negatives(s) <= 193 && |b| == 320
    ensures Fits(ReduceP(s), PolyOf10(b))
  {
    hide ConvAt, PolyOf10, Weight, Negatives, ReduceP, Mul;
    SecretWeight(s);
    forall k | 0 <= k < N ensures InI32(ConvAt(ReduceP(s), PolyOf10(b), k)) {
      forall i | 0 <= i < N ensures Abs(PolyOf10(b)[i]) <= 3326 {
        DecompressedAtMost(b, i);
      }
      WeightBound(ReduceP(s), PolyOf10(b), k, 3326);
      MulMono(3326, Weight(ReduceP(s)), 642430);
      LargestSum();
    }
  }

  lemma LargestSum()
    ensures Mul(3326, 642430) == 2136722180
  {
  }

  /** The condition, on the key alone. */
  ghost predicate FewNegatives(P: Primitives, seed: seq<u8>) {
    hide KeySecret;
    forall i :: 0 <= i < K ==> Negatives(KeySecret(P, seed)[i]) <= 193
  }

  lemma FewNegativesMeansFit(P: Primitives, seed: seq<u8>, ct: seq<u8>)
    requires FewNegatives(P, seed) && |ct| == 1088
    ensures FitsVec(ReduceVec(KeySecret(P, seed)), UOf(ct))
  {
    hide KeySecret, Negatives, Fits, PolyOf10, ReduceP, Small;
    var s := KeySecret(P, seed);
    FewNegativesFit(s[0], ct[..320]);
    FewNegativesFit(s[1], ct[320..640]);
    FewNegativesFit(s[2], ct[640..960]);
  }

  /**
   For a key with at most 193 negative coefficients in each secret polynomial, and any message, both sides
   agree exactly when the noise of key, encryption and rounding stays in its window, and always when it is at
   most 831 in size.
   */
  lemma AgreementForKey(P: Primitives, seed: seq<u8>, m: Bytes32)
    requires FewNegatives(P, seed)
    ensures Agrees(P, seed, m) <==> forall k :: 0 <= k < N ==> Survives(SchemeBare(P, seed, m), m, k)
    ensures (forall k :: 0 <= k < N ==> -831 <= Centered(SchemeBare(P, seed, m)[k]) <= 831) ==> Agrees(P, seed, m)
  {
    hide Agrees, SchemeBare, Encapsulate, PublicBytes, FewNegatives, FitsVec, UOf, ReduceVec, KeySecret, Centered, MessageBit;
    FewNegativesMeansFit(P, seed, Encapsulate(P, PublicBytes(P, seed), m).0);
    AgreementWhenProductsFit(P, seed, m);
  }
}
