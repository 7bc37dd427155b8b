/** What ML-KEM hashes and encrypts, spelled out in its primitives: both branches of decapsulation, encapsulation, keys and noise. */
module MlKemTranscript {
  import opened Arith
  import opened Words
  import opened Bits
  import opened Wrappers
  import opened HashPrimitives
  import opened Negacyclic
  import opened MlKemPoly
  import opened MlKemCodec
  import opened MlKem
  import opened MlKemScheme
  import opened MlKemAgreement

  /** G: its first half is the key part, its second half the coins. */
  ghost predicate IsG(P: Primitives, m: Bytes32, hpk: Bytes32, key: Bytes32, coins: Bytes32) {
    IsShake(P.h, [0x02] + (m + hpk), key + coins)
  }

  /** The shared secret under a key part: the hash of the key part and the hash of the ciphertext. */
  ghost predicate IsSecret(P: Primitives, key: Bytes32, ct: seq<u8>, secret: Bytes32) {
    IsShake(P.h, [0x03] + (key + P.h.sha3(ct)), secret)
  }

  /** J: what takes the place of the key part when a ciphertext is refused. */
  ghost predicate IsRefusalKey(P: Primitives, z: seq<u8>, ct: seq<u8>, key: Bytes32) {
    IsShake(P.h, [0x04] + (z + P.h.sha3(ct)), key)
  }

  lemma GIs(P: Primitives, m: Bytes32, hpk: Bytes32, key: Bytes32, coins: Bytes32)
    ensures IsG(P, m, hpk, key, coins) <==> (key, coins) == DeriveKAndCoins(P, m, hpk)
  {
    hide Shake;
    ShakeIs(P.h, [0x02] + (m + hpk), key + coins);
    assert (key + coins)[..32] == key && (key + coins)[32..] == coins;
    var expanded := Shake(P.h, [0x02] + (m + hpk), 64);
    assert expanded == expanded[..32] + expanded[32..];
  }

  lemma SecretIs(P: Primitives, key: Bytes32, ct: seq<u8>, secret: Bytes32)
    ensures IsSecret(P, key, ct, secret) <==> secret == DeriveSharedSecret(P, key, ct)
  {
    hide Shake;
    ShakeIs(P.h, [0x03] + (key + P.h.sha3(ct)), secret);
  }

  lemma RefusalKeyIs(P: Primitives, z: Bytes32, ct: seq<u8>, key: Bytes32)
    ensures IsRefusalKey(P, z, ct, key) <==> key == Fallback(P, z, ct)
  {
    hide Shake;
    ShakeIs(P.h, [0x04] + (z + P.h.sha3(ct)), key);
  }

  // Decapsulation

  /**
   Decapsulation for every private key and ciphertext, given what the hashes return on the message it reads:
   no secret exactly for a wrong length, the secret of the key part when re-encryption gives the ciphertext
   back, and that of the refusal key of z otherwise.
   */
  lemma DecapsulationIs(P: Primitives, sk: PrivateKey, ct: seq<u8>, m: Bytes32, key: Bytes32, coins: Bytes32, refusal: Bytes32, secret: Bytes32)
    requires |ct| == 1088 ==> m == Recovered(sk, ct)
    requires IsG(P, m, sk[2336..2368], key, coins) && IsRefusalKey(P, sk[2368..], ct, refusal)
    requires IsSecret(P, if EncryptBytes(P, sk[1152..2336], m, coins) == ct then key else refusal, ct, secret)
    ensures Decapsulate(P, sk, ct) == if |ct| == 1088 then Some(secret) else None
  {
    hide Recovered, EncryptBytes, DeriveKAndCoins, DeriveSharedSecret, Fallback, IsG, IsSecret, IsRefusalKey;
    GIs(P, m, sk[2336..2368], key, coins);
    RefusalKeyIs(P, sk[2368..], ct, refusal);
    SecretIs(P, if EncryptBytes(P, sk[1152..2336], m, coins) == ct then key else refusal, ct, secret);
  }

  /** Bit k of what decapsulation reads, for any key and ciphertext whose products fit i32. */
  lemma RecoveredAt(sk: PrivateKey, ct: seq<u8>, k: nat)
    requires |ct| == 1088 && k < N && FitsVec(VecOfBytes(sk[..1152]), UOf(ct))
    ensures var (s, u, v) := (VecOfBytes(sk[..1152]), UOf(ct), PolyOf4(ct[960..]));
            MessageBit(Recovered(sk, ct), k) == 1 <==> 833 <= (v[k] - DotAt(s, u, k)) % Q <= 2496
  {
    hide VecOfBytes, UOf, PolyOf4, FitsVec, ConvAt, MessageBit, DecodeBit, DotP, DecodedMessage, PolyCong, SubP;
    var (s, u, v) := (VecOfBytes(sk[..1152]), UOf(ct), PolyOf4(ct[960..]));
    var w := MessageCarrier(s, ct);
    DotExact(s, u);
    CongRefl(v, Q);
    CongSum(v, v, DotP(s, u, K), Dot3(s, u), Q);
    ReduceCong(SubP(v, DotP(s, u, K)));
    CongTrans(w, SubP(v, DotP(s, u, K)), SubP(v, Dot3(s, u)), Q);
    CongAt(w, SubP(v, Dot3(s, u)), k);
    DecodedIff(w, DecodedMessage(w));
    assert CoeffBit(w, k) == MessageBit(DecodedMessage(w), k);
    DifferenceAt(s, u, v, k);
  }

  lemma DifferenceAt(s: PolyVec, u: PolyVec, v: Poly16, k: nat)
    requires k < N
    ensures SubP(v, Dot3(s, u))[k] == v[k] - DotAt(s, u, k)
  {
    hide ConvAt;
  }

  /** The ciphertext does not re-encrypt to itself. */
  predicate Refuses(P: Primitives, sk: PrivateKey, ct: seq<u8>)
    requires |ct| == 1088
  {
    Reencrypted(P, sk, ct) != ct
  }

  /** A refused ciphertext gives a secret that depends on z and the ciphertext alone. */
  lemma RefusalIs(P: Primitives, sk: PrivateKey, ct: seq<u8>, key: Bytes32, secret: Bytes32)
    requires |ct| == 1088 && Refuses(P, sk, ct)
    requires IsRefusalKey(P, sk[2368..], ct, key) && IsSecret(P, key, ct, secret)
    ensures Decapsulate(P, sk, ct) == Some(secret)
  {
    hide Recovered, Reencrypted, DeriveKAndCoins, DeriveSharedSecret, Fallback, IsSecret, IsRefusalKey;
    RefusalKeyIs(P, sk[2368..], ct, key);
    SecretIs(P, key, ct, secret);
  }

  /** So two private keys with one z answer alike whatever both refuse. */
  lemma RefusedAlike(P: Primitives, sk: PrivateKey, sk': PrivateKey, ct: seq<u8>)
    requires |ct| == 1088 && Refuses(P, sk, ct) && Refuses(P, sk', ct) && sk[2368..] == sk'[2368..]
    ensures Decapsulate(P, sk, ct) == Decapsulate(P, sk', ct) && Decapsulate(P, sk, ct).Some?
  {
    hide Refuses, DeriveSharedSecret, Fallback, IsSecret, IsRefusalKey, Decapsulate;
    var key := Fallback(P, sk[2368..], ct);
    var secret := DeriveSharedSecret(P, key, ct);
    RefusalKeyIs(P, sk[2368..], ct, key);
    SecretIs(P, key, ct, secret);
    RefusalIs(P, sk, ct, key, secret);
    RefusalIs(P, sk', ct, key, secret);
  }

  // Encapsulation

  /** Encapsulation: the encryption of the message under the coins of G, and the secret of its key part. */
  lemma EncapsulationIs(P: Primitives, pk: PublicKey, m: Bytes32, key: Bytes32, coins: Bytes32, secret: Bytes32)
    requires IsG(P, m, P.h.sha3(pk), key, coins) && IsSecret(P, key, EncryptBytes(P, pk, m, coins), secret)
    ensures Encapsulate(P, pk, m) == (EncryptBytes(P, pk, m, coins), secret)
  {
    hide EncryptBytes, DeriveKAndCoins, DeriveSharedSecret, IsG, IsSecret;
    GIs(P, m, P.h.sha3(pk), key, coins);
    SecretIs(P, key, EncryptBytes(P, pk, m, coins), secret);
  }

  /** The secret binds the ciphertext and the key part: one secret from two pairs exhibits a collision. */
  lemma SecretBinds(P: Primitives, key: Bytes32, ct: seq<u8>, key': Bytes32, ct': seq<u8>, secret: Bytes32)
    requires IsSecret(P, key, ct, secret) && IsSecret(P, key', ct', secret) && (key != key' || ct != ct')
    ensures var (a, b) := ([0x03] + (key + P.h.sha3(ct)), [0x03] + (key' + P.h.sha3(ct')));
            || (ct != ct' && P.h.sha3(ct) == P.h.sha3(ct'))
            || (a != b && forall i: nat :: i < 32 ==> P.h.xof(a, i) == P.h.xof(b, i))
  {
    var (a, b) := ([0x03] + (key + P.h.sha3(ct)), [0x03] + (key' + P.h.sha3(ct')));
    assert a[1..33] == key && b[1..33] == key' && a[33..] == P.h.sha3(ct) && b[33..] == P.h.sha3(ct');
    forall i: nat | i < 32 ensures P.h.xof(a, i) == P.h.xof(b, i) {
      assert secret[i] == P.h.xof(a, i);
    }
  }

  // Encryption in the ring

  /** Coefficient k of the inner product of a row and a vector. */
  function DotAt(a: PolyVec, b: PolyVec, k: nat): int {
    ConvAt(a[0], b[0], k) + ConvAt(a[1], b[1], k) + ConvAt(a[2], b[2], k)
  }

  lemma RowAt(row: PolyVec, v: PolyVec, e: Poly16, k: nat)
    requires CanonicalVec(row) && SmallVec(v) && k < N
    ensures RowPlus(row, v, e)[k] == (DotAt(row, v, k) + e[k]) % Q
  {
    hide RowPlus, ConvAt, FitsVec, Mod, Canonical, Small;
    SmallFitsVec(row, v);
    RowExact(row, v, e);
    CongAt(RowPlus(row, v, e), AddP(Dot3(row, v), e), k);
  }

  lemma CongAt(r: Poly16, sum: Poly, k: nat)
    requires PolyCong(r, sum, Q) && Canonical(r) && k < N
    ensures r[k] == sum[k] % Q
  {
    hide Mod;
    assert Cong(r[k], sum[k], Q);
    ModIs(r[k], Q);
    ModIs(sum[k], Q);
  }

  /** Component i of u is row i of the transposed matrix times r, plus e1. */
  lemma CipherUAt(P: Primitives, pk: PublicKey, coins: Bytes32, i: u8, k: nat)
    requires i < 3 && k < N
    ensures var (rho, r) := (pk[1152..], NoiseVec(P, coins, "mlkem-r"));
            var column := [P.uniform(rho, 0, i), P.uniform(rho, 1, i), P.uniform(rho, 2, i)];
            CipherU(P, pk, coins)[i][k] == (DotAt(column, r, k) + NoisePoly(P, coins, "mlkem-e1", i)[k]) % Q
  {
    hide RowPlus, DotAt, NoisePoly;
    var r := NoiseVec(P, coins, "mlkem-r");
    RowAt(MatrixRow(P, Rho(pk), true, i), r, NoiseVec(P, coins, "mlkem-e1")[i], k);
  }

  /** v is t times r, plus e2, plus 1664 for each set bit of the message. */
  lemma CipherVAt(P: Primitives, pk: PublicKey, m: Bytes32, coins: Bytes32, k: nat)
    requires k < N
    ensures CipherV(P, pk, m, coins)[k]
         == (DotAt(PublicT(pk), NoiseVec(P, coins, "mlkem-r"), k) + NoisePoly(P, coins, "mlkem-e2", 0)[k]
             + 1664 * MessageBit(m, k)) % Q
  {
    hide CipherV, NoiseVec, NoisePoly, ConvAt, PublicT, MessageBit, Mod;
    CipherVIs(P, pk, m, coins);
    CongAt(CipherV(P, pk, m, coins),
           AddP(AddP(Dot3(PublicT(pk), NoiseVec(P, coins, "mlkem-r")), NoisePoly(P, coins, "mlkem-e2", 0)), MessagePoly(m)), k);
  }

  /** The public vector is the matrix times the secret, plus noise. */
  lemma KeyTAt(P: Primitives, seed: seq<u8>, i: u8, k: nat)
    requires i < 3 && k < N
    ensures var rho := KeyRho(P, seed);
            var row := [P.uniform(rho, i, 0), P.uniform(rho, i, 1), P.uniform(rho, i, 2)];
            KeyT(P, seed)[i][k] == (DotAt(row, KeySecret(P, seed), k) + KeyNoise(P, seed)[i][k]) % Q
  {
    hide RowPlus, DotAt, KeySecret, KeyNoise, KeyRho;
    RowAt(MatrixRow(P, KeyRho(P, seed), false, i), KeySecret(P, seed), KeyNoise(P, seed)[i], k);
  }

  /** Noise coefficient k comes from nibble k of its stream: ones among the low two bits minus ones among the high two. */
  lemma NoiseAt(P: Primitives, seed: Bytes32, tag: string, index: u8, k: nat)
    requires k < N
    ensures var byte := P.h.xof([0x01] + Ascii("mlkem-noise") + (Ascii(tag) + seed + [index]), k / 2);
            var at := 4 * (k % 2);
            NoisePoly(P, seed, tag, index)[k] == BitAt(byte, at) + BitAt(byte, at + 1) - BitAt(byte, at + 2) - BitAt(byte, at + 3)
  {
    hide BitAt, Shake, Nibble, And, Shr;
    var input := [0x01] + Ascii("mlkem-noise") + (Ascii(tag) + seed + [index]);
    var stream := NoiseStream(P, seed, tag, index);
    ShakeIs(P.h, input, stream);
    NibbleBits(stream, k);
    NibbleNoiseIs(Nibble(stream, k));
  }

  lemma NibbleNoiseIs(n: nat)
    requires n < 16
    ensures NibbleNoise(n) == n % 2 + n / 2 % 2 - n / 4 % 2 - n / 8 % 2
  {
    hide And, Shr;
    Masks(n);
    Shifts(n);
    Masks(n / 4);
    HalfBits(n);
  }

  lemma HalfBits(n: nat)
    requires n < 16
    ensures n % 4 % 2 == n % 2 && n % 4 / 2 % 2 == n / 2 % 2 && n / 4 % 4 == n / 4 && n / 4 / 2 % 2 == n / 8 % 2
  {
    var low, high := n % 4, n / 4;
    assert n == 4 * high + low && high < 4;
  }

  lemma NibbleBits(stream: seq<u8>, k: nat)
    requires |stream| == N / 2 && k < N
    ensures var (byte, n, at) := (stream[k / 2], Nibble(stream, k), 4 * (k % 2));
            && BitAt(byte, at) == n % 2 && BitAt(byte, at + 1) == n / 2 % 2
            && BitAt(byte, at + 2) == n / 4 % 2 && BitAt(byte, at + 3) == n / 8 % 2
  {
    var byte := stream[k / 2];
    FourBits(byte);
    FourBits(byte / 16);
    BitsAbove(byte);
    LowNibble(byte);
  }

  lemma FourBits(x: nat)
    ensures BitAt(x, 0) == x % 2 && BitAt(x, 1) == x / 2 % 2 && BitAt(x, 2) == x / 4 % 2 && BitAt(x, 3) == x / 8 % 2
  {
    hide BitAt;
    HalfTwice(x);
    BitHalves(x, 0);
    BitHalves(x, 1);
    BitHalves(x, 2);
    BitHalves(x / 2, 0);
    BitHalves(x / 2, 1);
    BitHalves(x / 4, 0);
    BitHalves(x / 8, 0);
  }

  lemma BitsAbove(x: nat)
    ensures forall t: nat :: t < 4 ==> BitAt(x, 4 + t) == BitAt(x / 16, t)
  {
    hide BitAt;
    HalfTwice(x);
    forall t: nat | t < 4 ensures BitAt(x, 4 + t) == BitAt(x / 16, t) {
      BitHalves(x, t + 3);
      BitHalves(x / 2, t + 2);
      BitHalves(x / 4, t + 1);
      BitHalves(x / 8, t);
    }
  }

  lemma HalfTwice(x: nat)
    ensures x / 2 / 2 == x / 4 && x / 4 / 2 == x / 8 && x / 8 / 2 == x / 16
  {
  }

  lemma LowNibble(x: nat)
    ensures x % 16 % 2 == x % 2 && x % 16 / 2 % 2 == x / 2 % 2 && x % 16 / 4 % 2 == x / 4 % 2 && x % 16 / 8 % 2 == x / 8 % 2
  {
    var high, low := x / 16, x % 16;
    Arith.QuotientIs(x, 2, 8 * high + low / 2, low % 2);
    Arith.QuotientIs(x, 4, 4 * high + low / 4, low % 4);
    Arith.QuotientIs(x, 8, 2 * high + low / 8, low % 8);
    TwiceMore(4 * high, low / 2);
    TwiceMore(2 * high, low / 4);
    TwiceMore(high, low / 8);
  }

  lemma TwiceMore(h: int, l: int)
    ensures (2 * h + l) % 2 == l % 2
  {
  }

  // The bytes of keys and ciphertexts

  /** A ciphertext is the three components of u, ten bits a coefficient, and v, four bits a coefficient. */
  lemma CiphertextIs(P: Primitives, pk: PublicKey, m: Bytes32, coins: Bytes32)
    ensures var (ct, u) := (EncryptBytes(P, pk, m, coins), CipherU(P, pk, coins));
            && ct[..320] == Bytes10(u[0]) && ct[320..640] == Bytes10(u[1]) && ct[640..960] == Bytes10(u[2])
            && ct[960..] == Bytes4(CipherV(P, pk, m, coins))
  {
    hide Bytes10, Bytes4, CipherU, CipherV;
  }

  /** Keys, field by field. */
  lemma KeysAre(P: Primitives, seed: seq<u8>)
    ensures var (pk, sk, t, s) := (PublicBytes(P, seed), PrivateBytes(P, seed), KeyT(P, seed), KeySecret(P, seed));
            && pk[..384] == PolyBytes(t[0]) && pk[384..768] == PolyBytes(t[1]) && pk[768..1152] == PolyBytes(t[2])
            && IsShake(P.h, [0x01] + Ascii("mlkem-keygen-material") + seed, pk[1152..])
            && sk[..384] == PolyBytes(s[0]) && sk[384..768] == PolyBytes(s[1]) && sk[768..1152] == PolyBytes(s[2])
            && sk[1152..2336] == pk && sk[2336..2368] == P.h.sha3(pk)
            && IsShake(P.h, [0x01] + Ascii("mlkem-keygen-z") + seed, sk[2368..])
  {
    hide KeyT, KeySecret, PolyBytes, Shake;
    var (pk, sk) := (PublicBytes(P, seed), PrivateBytes(P, seed));
    ShakeIs(P.h, [0x01] + Ascii("mlkem-keygen-material") + seed, pk[1152..]);
    ShakeIs(P.h, [0x01] + Ascii("mlkem-keygen-z") + seed, sk[2368..]);
  }

  /** Secret and noise vectors of a key are drawn under sigma, one tag each. */
  lemma KeyVectorsAre(P: Primitives, seed: seq<u8>, sigma: Bytes32, i: u8)
    requires IsShake(P.h, [0x01] + Ascii("mlkem-keygen-sigma") + seed, sigma) && i < 3
    ensures KeySecret(P, seed)[i] == NoisePoly(P, sigma, "mlkem-s", i)
    ensures KeyNoise(P, seed)[i] == NoisePoly(P, sigma, "mlkem-e", i)
  {
    hide NoisePoly, Shake;
    ShakeIs(P.h, [0x01] + Ascii("mlkem-keygen-sigma") + seed, sigma);
  }
}
