/** Decapsulation against encapsulation: where the noise goes, and exactly when the message survives it. */
module MlKemAgreement {
  import opened Arith
  import opened Words
  import opened Wrappers
  import opened HashPrimitives
  import opened Negacyclic
  import opened MlKemPoly
  import opened MlKemCodec
  import opened MlKem
  import opened MlKemScheme

  type Vec = v: seq<Poly> | |v| == 3 witness [Zero(), Zero(), Zero()]

  /** The inner product over the integers. */
  function Dot3(a: Vec, b: Vec): Poly {
    AddP(AddP(Conv(a[0], b[0]), Conv(a[1], b[1])), Conv(a[2], b[2]))
  }

  function AddV(a: Vec, b: Vec): Vec {
    [AddP(a[0], b[0]), AddP(a[1], b[1]), AddP(a[2], b[2])]
  }

  function SubV(a: Vec, b: Vec): Vec {
    [SubP(a[0], b[0]), SubP(a[1], b[1]), SubP(a[2], b[2])]
  }

  ghost predicate VecCong(a: Vec, b: Vec) {
    PolyCong(a[0], b[0], Q) && PolyCong(a[1], b[1], Q) && PolyCong(a[2], b[2], Q)
  }

  lemma Dot3Cong(a: Vec, a': Vec, b: Vec, b': Vec)
    requires VecCong(a, a') && VecCong(b, b')
    ensures PolyCong(Dot3(a, b), Dot3(a', b'), Q)
  {
    hide PolyCong, Conv, AddP;
    ConvCong(a[0], a'[0], b[0], b'[0], Q);
    ConvCong(a[1], a'[1], b[1], b'[1], Q);
    ConvCong(a[2], a'[2], b[2], b'[2], Q);
    CongSum(Conv(a[0], b[0]), Conv(a'[0], b'[0]), Conv(a[1], b[1]), Conv(a'[1], b'[1]), Q);
    CongSum(AddP(Conv(a[0], b[0]), Conv(a[1], b[1])), AddP(Conv(a'[0], b'[0]), Conv(a'[1], b'[1])), Conv(a[2], b[2]), Conv(a'[2], b'[2]), Q);
  }

  ghost predicate FitsVec(a: PolyVec, b: PolyVec) {
    Fits(a[0], b[0]) && Fits(a[1], b[1]) && Fits(a[2], b[2])
  }

  lemma SmallFitsVec(a: PolyVec, b: PolyVec)
    requires CanonicalVec(a) && SmallVec(b)
    ensures FitsVec(a, b) && FitsVec(b, a)
  {
    hide Fits, Canonical, Small;
    SmallFits(a[0], b[0]);
    SmallFits(a[1], b[1]);
    SmallFits(a[2], b[2]);
  }

  /** The reduced running sum is the inner product modulo 3329 when no accumulator wraps. */
  lemma {:induction false} DotExact(a: PolyVec, b: PolyVec)
    requires FitsVec(a, b)
    ensures PolyCong(DotP(a, b, K), Dot3(a, b), Q)
  {
    hide PolyCong, Conv, MulP, ReduceP, Fits;
    DotStep(a, b, 1, Zero());
    DotStep(a, b, 2, AddP(Zero(), Conv(a[0], b[0])));
    DotStep(a, b, 3, AddP(AddP(Zero(), Conv(a[0], b[0])), Conv(a[1], b[1])));
    assert AddP(Zero(), Conv(a[0], b[0])) == Conv(a[0], b[0]);
  }

  lemma DotStep(a: PolyVec, b: PolyVec, n: nat, before: Poly)
    requires 0 < n <= K && Fits(a[n - 1], b[n - 1])
    requires n == 1 ==> before == Zero()
    requires n > 1 ==> PolyCong(DotP(a, b, n - 1), before, Q)
    ensures PolyCong(DotP(a, b, n), AddP(before, Conv(a[n - 1], b[n - 1])), Q)
  {
    hide PolyCong, Conv, MulP, ReduceP, Fits, AddP;
    if n == 1 {
      CongRefl(Zero(), Q);
    }
    MulFits(a[n - 1], b[n - 1]);
    CongSum(DotP(a, b, n - 1), before, MulP(a[n - 1], b[n - 1]), Conv(a[n - 1], b[n - 1]), Q);
    ReduceCong(AddP(DotP(a, b, n - 1), MulP(a[n - 1], b[n - 1])));
    CongTrans(DotP(a, b, n), AddP(DotP(a, b, n - 1), MulP(a[n - 1], b[n - 1])), AddP(before, Conv(a[n - 1], b[n - 1])), Q);
  }

  lemma RowExact(row: PolyVec, v: PolyVec, e: Poly16)
    requires FitsVec(row, v)
    ensures PolyCong(RowPlus(row, v, e), AddP(Dot3(row, v), e), Q)
  {
    hide PolyCong, Dot3, DotP, ReduceP, FitsVec, AddP;
    DotExact(row, v);
    CongRefl(e, Q);
    CongSum(DotP(row, v, K), Dot3(row, v), e, e, Q);
    ReduceCong(AddP(DotP(row, v, K), e));
    CongTrans(RowPlus(row, v, e), AddP(DotP(row, v, K), e), AddP(Dot3(row, v), e), Q);
  }

  /** Multiplying an inner product by one more polynomial, on either side. */
  lemma DotTimes(a: Vec, b: Vec, c: Poly)
    ensures Conv(Dot3(a, b), c) == AddP(AddP(Conv(Conv(a[0], b[0]), c), Conv(Conv(a[1], b[1]), c)), Conv(Conv(a[2], b[2]), c))
    ensures Conv(c, Dot3(a, b)) == AddP(AddP(Conv(c, Conv(a[0], b[0])), Conv(c, Conv(a[1], b[1]))), Conv(c, Conv(a[2], b[2])))
  {
    hide Conv, AddP;
    ConvAdds(AddP(Conv(a[0], b[0]), Conv(a[1], b[1])), Conv(a[2], b[2]), c);
    ConvAdds(Conv(a[0], b[0]), Conv(a[1], b[1]), c);
  }

  /** (a*s)*r = s*(a*r). */
  lemma CrossTerm(a: Poly, s: Poly, r: Poly)
    ensures Conv(Conv(a, s), r) == Conv(s, Conv(a, r))
  {
    hide Conv;
    ConvCommutes(a, s);
    ConvAssociates(s, a, r);
  }

  /** A matrix by rows; the encapsulator uses its columns. */
  function Column(m: seq<Vec>, j: nat): Vec
    requires |m| == 3 && j < 3
  {
    [m[0][j], m[1][j], m[2][j]]
  }

  function MatTimes(m: seq<Vec>, s: Vec): Vec
    requires |m| == 3
  {
    [Dot3(m[0], s), Dot3(m[1], s), Dot3(m[2], s)]
  }

  function TransposeTimes(m: seq<Vec>, r: Vec): Vec
    requires |m| == 3
  {
    [Dot3(Column(m, 0), r), Dot3(Column(m, 1), r), Dot3(Column(m, 2), r)]
  }

  /** (A*s)*r = s*(A^T*r), exactly. */
  lemma Transpose(m: seq<Vec>, s: Vec, r: Vec)
    requires |m| == 3
    ensures Dot3(MatTimes(m, s), r) == Dot3(s, TransposeTimes(m, r))
  {
    hide Conv, Dot3;
    forall i, j | 0 <= i < 3 && 0 <= j < 3
      ensures Conv(Conv(m[i][j], s[j]), r[i]) == Conv(s[j], Conv(m[i][j], r[i]))
    {
      CrossTerm(m[i][j], s[j], r[i]);
    }
    DotTimes(m[0], s, r[0]);
    DotTimes(m[1], s, r[1]);
    DotTimes(m[2], s, r[2]);
    DotTimes(Column(m, 0), r, s[0]);
    DotTimes(Column(m, 1), r, s[1]);
    DotTimes(Column(m, 2), r, s[2]);
    DotIs(MatTimes(m, s), r);
    DotIs(s, TransposeTimes(m, r));
    Nine(Conv(s[0], Conv(m[0][0], r[0])), Conv(s[1], Conv(m[0][1], r[0])), Conv(s[2], Conv(m[0][2], r[0])),
         Conv(s[0], Conv(m[1][0], r[1])), Conv(s[1], Conv(m[1][1], r[1])), Conv(s[2], Conv(m[1][2], r[1])),
         Conv(s[0], Conv(m[2][0], r[2])), Conv(s[1], Conv(m[2][1], r[2])), Conv(s[2], Conv(m[2][2], r[2])));
  }

  lemma DotIs(a: Vec, b: Vec)
    ensures Dot3(a, b) == AddP(AddP(Conv(a[0], b[0]), Conv(a[1], b[1])), Conv(a[2], b[2]))
  {
  }

  lemma Nine(a: Poly, b: Poly, c: Poly, d: Poly, e: Poly, f: Poly, g: Poly, h: Poly, i: Poly)
    ensures AddP(AddP(AddP(AddP(a, b), c), AddP(AddP(d, e), f)), AddP(AddP(g, h), i))
         == AddP(AddP(AddP(AddP(a, d), g), AddP(AddP(b, e), h)), AddP(AddP(c, f), i))
  {
  }

  lemma Dot3Adds(a: Vec, b: Vec, c: Vec)
    ensures Dot3(AddV(a, b), c) == AddP(Dot3(a, c), Dot3(b, c))
    ensures Dot3(c, AddV(a, b)) == AddP(Dot3(c, a), Dot3(c, b))
  {
    hide Conv;
    ConvAdds(a[0], b[0], c[0]);
    ConvAdds(a[1], b[1], c[1]);
    ConvAdds(a[2], b[2], c[2]);
  }

  /** Key noise, encryption noise, and the rounding of u (`eu`) and of v (`ev`). */
  function BareNoise(s: Vec, e: Vec, r: Vec, e1: Vec, e2: Poly, eu: Vec, ev: Poly): Poly {
    SubP(SubP(AddP(AddP(Dot3(e, r), e2), ev), Dot3(s, e1)), Dot3(s, eu))
  }

  /**
   Everything that stands between the decapsulator's polynomial and the message: that noise and what the i32
   accumulators lost (`lost`).
   */
  function Noise(s: Vec, e: Vec, r: Vec, e1: Vec, e2: Poly, eu: Vec, ev: Poly, lost: Poly): Poly {
    AddP(BareNoise(s, e, r, e1, e2, eu, ev), lost)
  }

  /** What the encryptor computes, congruences and all. */
  ghost predicate Encrypts(m: seq<Vec>, s: Vec, e: Vec, r: Vec, e1: Vec, e2: Poly, msg: Poly, t: Vec, u: Vec, v: Poly)
    requires |m| == 3
  {
    && VecCong(t, AddV(MatTimes(m, s), e))
    && VecCong(u, AddV(TransposeTimes(m, r), e1))
    && PolyCong(v, AddP(AddP(Dot3(t, r), e2), msg), Q)
  }

  /** v = (A*s)*r + e*r + e2 + msg. */
  lemma CarrierV(m: seq<Vec>, s: Vec, e: Vec, r: Vec, e1: Vec, e2: Poly, msg: Poly, t: Vec, u: Vec, v: Poly)
    requires |m| == 3 && Encrypts(m, s, e, r, e1, e2, msg, t, u, v)
    ensures PolyCong(v, AddP(AddP(AddP(Dot3(MatTimes(m, s), r), Dot3(e, r)), e2), msg), Q)
  {
    hide PolyCong, Dot3, AddP, MatTimes, AddV, TransposeTimes;
    var ms := MatTimes(m, s);
    CongRefl(r[0], Q);
    CongRefl(r[1], Q);
    CongRefl(r[2], Q);
    CongRefl(e2, Q);
    CongRefl(msg, Q);
    Dot3Cong(t, AddV(ms, e), r, r);
    Dot3Adds(ms, e, r);
    CongSum(Dot3(t, r), Dot3(AddV(ms, e), r), e2, e2, Q);
    CongSum(AddP(Dot3(t, r), e2), AddP(Dot3(AddV(ms, e), r), e2), msg, msg, Q);
    CongTrans(v, AddP(AddP(Dot3(t, r), e2), msg), AddP(AddP(Dot3(AddV(ms, e), r), e2), msg), Q);
  }

  /** s*u' = s*(A^T*r) + s*e1 + s*eu. */
  lemma CarrierU(m: seq<Vec>, s: Vec, r: Vec, e1: Vec, u: Vec, sc: Vec, u': Vec)
    requires |m| == 3 && VecCong(u, AddV(TransposeTimes(m, r), e1)) && VecCong(sc, s)
    ensures PolyCong(Dot3(sc, u'), AddP(AddP(Dot3(s, TransposeTimes(m, r)), Dot3(s, e1)), Dot3(s, SubV(u', u))), Q)
  {
    hide PolyCong, Dot3, AddP, TransposeTimes, SubP;
    var mr := TransposeTimes(m, r);
    var eu := SubV(u', u);
    forall i | 0 <= i < 3 ensures u'[i] == AddP(u[i], SubP(u'[i], u[i])) {
      AddBack(u[i], u'[i]);
    }
    assert u' == AddV(u, eu);
    forall p: Poly ensures PolyCong(p, p, Q) {
      CongRefl(p, Q);
    }
    Dot3Cong(sc, s, u', AddV(u, eu));
    Dot3Adds(u, eu, s);
    Dot3Cong(s, s, u, AddV(mr, e1));
    Dot3Adds(mr, e1, s);
    CongSum(Dot3(s, u), AddP(Dot3(s, mr), Dot3(s, e1)), Dot3(s, eu), Dot3(s, eu), Q);
    CongTrans(Dot3(sc, u'), AddP(Dot3(s, u), Dot3(s, eu)), AddP(AddP(Dot3(s, mr), Dot3(s, e1)), Dot3(s, eu)), Q);
  }

  lemma AddBack(a: Poly, b: Poly)
    ensures b == AddP(a, SubP(b, a))
  {
  }

  /** The decapsulator's polynomial is the message polynomial plus the noise. */
  lemma CarrierIsMessagePlusNoise(m: seq<Vec>, s: Vec, e: Vec, r: Vec, e1: Vec, e2: Poly, msg: Poly,
                                  t: Vec, u: Vec, v: Poly, sc: Vec, u': Vec, v': Poly, su: Poly, w: Poly)
    requires |m| == 3 && Encrypts(m, s, e, r, e1, e2, msg, t, u, v) && VecCong(sc, s)
    requires PolyCong(w, SubP(v', su), Q)
    ensures PolyCong(w, AddP(msg, Noise(s, e, r, e1, e2, SubV(u', u), SubP(v', v), SubP(Dot3(sc, u'), su))), Q)
  {
    hide Dot3, PolyCong, AddV, SubV, MatTimes, TransposeTimes, AddP, SubP;
    CarrierV(m, s, e, r, e1, e2, msg, t, u, v);
    CarrierU(m, s, r, e1, u, sc, u');
    Transpose(m, s, r);
    var big := Dot3(s, TransposeTimes(m, r));
    var vSum := AddP(AddP(AddP(big, Dot3(e, r)), e2), msg);
    var uSum := AddP(AddP(big, Dot3(s, e1)), Dot3(s, SubV(u', u)));
    CongRefl(SubP(v', su), Q);
    CongSum(v, vSum, Dot3(sc, u'), uSum, Q);
    CongSum(SubP(v', su), SubP(v', su), SubP(v, Dot3(sc, u')), SubP(vSum, uSum), Q);
    CongSum(SubP(SubP(v', su), SubP(v, Dot3(sc, u'))), SubP(SubP(v', su), SubP(v, Dot3(sc, u'))),
            SubP(v, Dot3(sc, u')), SubP(vSum, uSum), Q) by {
      CongRefl(SubP(SubP(v', su), SubP(v, Dot3(sc, u'))), Q);
    }
    Regroup(big, Dot3(e, r), e2, msg, Dot3(s, e1), Dot3(s, SubV(u', u)), v, v', Dot3(sc, u'), su);
    CongTrans(w, SubP(v', su), AddP(msg, Noise(s, e, r, e1, e2, SubV(u', u), SubP(v', v), SubP(Dot3(sc, u'), su))), Q);
  }

  lemma Regroup(big: Poly, er: Poly, e2: Poly, msg: Poly, se1: Poly, seu: Poly, v: Poly, v': Poly, exact: Poly, su: Poly)
    ensures SubP(v', su) == AddP(SubP(SubP(v', su), SubP(v, exact)), SubP(v, exact))
    ensures AddP(SubP(SubP(v', su), SubP(v, exact)), SubP(AddP(AddP(AddP(big, er), e2), msg), AddP(AddP(big, se1), seu)))
         == AddP(msg, AddP(SubP(SubP(AddP(AddP(er, e2), SubP(v', v)), se1), seu), SubP(exact, su)))
  {
  }

  // The scheme

  /** The noise of one encapsulation to one honest key. */
  function SchemeBare(P: Primitives, seed: seq<u8>, m: Bytes32): Poly {
    hide KeySecret, KeyNoise, NoiseVec, NoisePoly, Encapsulate, CipherU, CipherV, UOf, VOf, PublicBytes, BareNoise;
    var pk := PublicBytes(P, seed);
    var coins := DeriveKAndCoins(P, m, P.h.sha3(pk)).1;
    var ct := Encapsulate(P, pk, m).0;
    BareNoise(KeySecret(P, seed), KeyNoise(P, seed), NoiseVec(P, coins, "mlkem-r"), NoiseVec(P, coins, "mlkem-e1"),
      NoisePoly(P, coins, "mlkem-e2", 0), SubV(UOf(ct), CipherU(P, pk, coins)), SubP(VOf(ct), CipherV(P, pk, m, coins)))
  }

  /** What the code's s*u' falls short of the exact one by. */
  function SchemeLost(P: Primitives, seed: seq<u8>, m: Bytes32): Poly {
    hide KeySecret, Encapsulate, UOf, DotP, PublicBytes;
    var ct := Encapsulate(P, PublicBytes(P, seed), m).0;
    var sc := ReduceVec(KeySecret(P, seed));
    SubP(Dot3(sc, UOf(ct)), DotP(sc, UOf(ct), K))
  }

  function SchemeNoise(P: Primitives, seed: seq<u8>, m: Bytes32): Poly {
    hide SchemeBare, SchemeLost;
    AddP(SchemeBare(P, seed, m), SchemeLost(P, seed, m))
  }

  function Matrix(P: Primitives, rho: Bytes32): (m: seq<Vec>)
    ensures |m| == 3
  {
    [MatrixRow(P, rho, false, 0), MatrixRow(P, rho, false, 1), MatrixRow(P, rho, false, 2)]
  }

  /** Key generation's t is A*s + e. */
  lemma KeyIs(P: Primitives, seed: seq<u8>)
    ensures VecCong(KeyT(P, seed), AddV(MatTimes(Matrix(P, KeyRho(P, seed)), KeySecret(P, seed)), KeyNoise(P, seed)))
  {
    hide RowPlus, MatrixRow, KeySecret, KeyNoise, KeyRho, FitsVec, Dot3, PolyCong, AddP;
    var (rho, s, e) := (KeyRho(P, seed), KeySecret(P, seed), KeyNoise(P, seed));
    forall i: u8 | i < 3 ensures PolyCong(RowPlus(MatrixRow(P, rho, false, i), s, e[i]), AddP(Dot3(MatrixRow(P, rho, false, i), s), e[i]), Q) {
      SmallFitsVec(MatrixRow(P, rho, false, i), s);
      RowExact(MatrixRow(P, rho, false, i), s, e[i]);
    }
  }

  /** The encapsulator's u is A^T*r + e1. */
  lemma CipherUIs(P: Primitives, pk: PublicKey, coins: Bytes32)
    ensures VecCong(CipherU(P, pk, coins),
              AddV(TransposeTimes(Matrix(P, Rho(pk)), NoiseVec(P, coins, "mlkem-r")), NoiseVec(P, coins, "mlkem-e1")))
  {
    hide RowPlus, NoiseVec, FitsVec, Dot3, PolyCong, AddP, Rho;
    var (rho, r, e1) := (Rho(pk), NoiseVec(P, coins, "mlkem-r"), NoiseVec(P, coins, "mlkem-e1"));
    forall i: u8 | i < 3
      ensures MatrixRow(P, rho, true, i) == Column(Matrix(P, rho), i)
      ensures PolyCong(RowPlus(MatrixRow(P, rho, true, i), r, e1[i]), AddP(Dot3(MatrixRow(P, rho, true, i), r), e1[i]), Q)
    {
      SmallFitsVec(MatrixRow(P, rho, true, i), r);
      RowExact(MatrixRow(P, rho, true, i), r, e1[i]);
    }
  }

  /** The encapsulator's v is t*r + e2 + msg. */
  lemma CipherVIs(P: Primitives, pk: PublicKey, m: Bytes32, coins: Bytes32)
    ensures PolyCong(CipherV(P, pk, m, coins),
              AddP(AddP(Dot3(PublicT(pk), NoiseVec(P, coins, "mlkem-r")), NoisePoly(P, coins, "mlkem-e2", 0)), MessagePoly(m)), Q)
  {
    hide RowPlus, NoiseVec, NoisePoly, FitsVec, Dot3, PolyCong, AddP, PublicT, MessagePoly, ReduceP;
    var (t, r, e2, msg) := (PublicT(pk), NoiseVec(P, coins, "mlkem-r"), NoisePoly(P, coins, "mlkem-e2", 0), MessagePoly(m));
    SmallFitsVec(t, r);
    RowExact(t, r, e2);
    CongRefl(msg, Q);
    CongSum(RowPlus(t, r, e2), AddP(Dot3(t, r), e2), msg, msg, Q);
    ReduceCong(AddP(RowPlus(t, r, e2), msg));
    CongTrans(CipherV(P, pk, m, coins), AddP(RowPlus(t, r, e2), msg), AddP(AddP(Dot3(t, r), e2), msg), Q);
  }

  /** The fields an honest private key carries. */
  lemma HonestKeys(P: Primitives, seed: seq<u8>)
    ensures var (pk, sk) := (PublicBytes(P, seed), PrivateBytes(P, seed));
            && VecOfBytes(sk[..1152]) == ReduceVec(KeySecret(P, seed))
            && sk[1152..2336] == pk && sk[2336..2368] == P.h.sha3(pk)
            && Rho(pk) == KeyRho(P, seed) && PublicT(pk) == KeyT(P, seed)
  {
    hide KeySecret, KeyRho, KeyT, VecBytes, VecOfBytes, DeriveHashBlock;
    var (pk, sk) := (PublicBytes(P, seed), PrivateBytes(P, seed));
    VecRoundTrip(KeySecret(P, seed));
    VecRoundTrip(KeyT(P, seed));
    ReduceVecCanonical(KeyT(P, seed));
    PublicFields(P, seed);
    PrivateFields(P, seed);
  }

  lemma ReduceVecCanonical(v: PolyVec)
    requires CanonicalVec(v)
    ensures ReduceVec(v) == v
  {
    hide Canonical, ReduceP;
    ReduceCanonical(v[0]);
    ReduceCanonical(v[1]);
    ReduceCanonical(v[2]);
  }

  lemma PublicFields(P: Primitives, seed: seq<u8>)
    ensures PublicBytes(P, seed)[..1152] == VecBytes(KeyT(P, seed)) && PublicBytes(P, seed)[1152..] == KeyRho(P, seed)
  {
    hide KeyT, KeyRho, VecBytes;
  }

  lemma PrivateFields(P: Primitives, seed: seq<u8>)
    ensures var (pk, sk) := (PublicBytes(P, seed), PrivateBytes(P, seed));
            sk[..1152] == VecBytes(KeySecret(P, seed)) && sk[1152..2336] == pk && sk[2336..2368] == P.h.sha3(pk)
  {
    hide KeySecret, PublicBytes, VecBytes, DeriveHashBlock;
  }

  lemma ReduceVecCong(v: PolyVec)
    ensures VecCong(ReduceVec(v), v)
  {
    hide PolyCong, ReduceP;
    ReduceCong(v[0]);
    ReduceCong(v[1]);
    ReduceCong(v[2]);
  }

  /** What decapsulation computes from an honest encapsulation is the message plus the scheme's noise. */
  lemma SchemeCarrier(P: Primitives, seed: seq<u8>, m: Bytes32)
    ensures var ct := Encapsulate(P, PublicBytes(P, seed), m).0;
            PolyCong(MessageCarrier(VecOfBytes(PrivateBytes(P, seed)[..1152]), ct), AddP(MessagePoly(m), SchemeNoise(P, seed, m)), Q)
  {
    hide KeySecret, KeyNoise, NoiseVec, NoisePoly, Encapsulate, CipherU, CipherV, UOf, VOf, DotP, PublicBytes, PrivateBytes,
      BareNoise, VecOfBytes, KeyT, KeyRho, Matrix, MessagePoly, Rho, PublicT, ReduceP, ReduceVec, Dot3, VecCong, PolyCong,
      AddV, SubV, AddP, SubP, MatTimes, TransposeTimes;
    var pk := PublicBytes(P, seed);
    var coins := DeriveKAndCoins(P, m, P.h.sha3(pk)).1;
    var ct := Encapsulate(P, pk, m).0;
    var s := KeySecret(P, seed);
    var sc := ReduceVec(s);
    HonestKeys(P, seed);
    KeyIs(P, seed);
    CipherUIs(P, pk, coins);
    CipherVIs(P, pk, m, coins);
    ReduceVecCong(s);
    ReduceCong(SubP(VOf(ct), DotP(sc, UOf(ct), K)));
    CarrierIsMessagePlusNoise(Matrix(P, Rho(pk)), s, KeyNoise(P, seed), NoiseVec(P, coins, "mlkem-r"), NoiseVec(P, coins, "mlkem-e1"),
      NoisePoly(P, coins, "mlkem-e2", 0), MessagePoly(m), PublicT(pk), CipherU(P, pk, coins), CipherV(P, pk, m, coins),
      sc, UOf(ct), VOf(ct), DotP(sc, UOf(ct), K), MessageCarrier(sc, ct));
  }

  /** Coefficient k of the noise leaves bit k of the message readable. */
  predicate Survives(noise: Poly, m: Bytes32, k: nat)
    requires k < N
  {
    -832 + MessageBit(m, k) <= Centered(noise[k]) <= 832
  }

  /** Decapsulation reads the encapsulated message back exactly when no coefficient of the noise leaves its window. */
  lemma MessageRecoveredIff(P: Primitives, seed: seq<u8>, m: Bytes32)
    ensures Recovered(PrivateBytes(P, seed), Encapsulate(P, PublicBytes(P, seed), m).0) == m
            <==> forall k :: 0 <= k < N ==> Survives(SchemeNoise(P, seed, m), m, k)
  {
    hide Encapsulate, PublicBytes, PrivateBytes, SchemeNoise, MessageCarrier, VecOfBytes, DecodedMessage, MessageBit, DecodeBit, Centered;
    var ct := Encapsulate(P, PublicBytes(P, seed), m).0;
    var w := MessageCarrier(VecOfBytes(PrivateBytes(P, seed)[..1152]), ct);
    var noise := SchemeNoise(P, seed, m);
    SchemeCarrier(P, seed, m);
    DecodedIff(w, m);
    forall k | 0 <= k < N ensures CoeffBit(w, k) == MessageBit(m, k) <==> Survives(noise, m, k) {
      assert Cong(w[k], AddP(MessagePoly(m), noise)[k], Q);
      NoiseWindow(MessageBit(m, k), noise[k], w[k]);
    }
  }

  /** Both sides agree, and for the right reason: the message is read, re-encryption gives the ciphertext and the mask selects. */
  ghost predicate Agrees(P: Primitives, seed: seq<u8>, m: Bytes32) {
    hide Encapsulate, PublicBytes, PrivateBytes, Recovered, Reencrypted, Decapsulate;
    var sk := PrivateBytes(P, seed);
    var (ct, shared) := Encapsulate(P, PublicBytes(P, seed), m);
    && Recovered(sk, ct) == m
    && Reencrypted(P, sk, ct) == ct && EqMask(Reencrypted(P, sk, ct), ct) == 0xFF
    && Decapsulate(P, sk, ct) == Some(shared)
  }

  /** The sides agree exactly when every coefficient of the noise stays in its window. */
  lemma Agreement(P: Primitives, seed: seq<u8>, m: Bytes32)
    ensures Agrees(P, seed, m) <==> forall k :: 0 <= k < N ==> Survives(SchemeNoise(P, seed, m), m, k)
  {
    hide PublicBytes, PrivateBytes, SchemeNoise, Recovered, MessageBit, EncryptBytes, Survives;
    MessageRecoveredIff(P, seed, m);
    HonestKeys(P, seed);
  }

  /** Noise of centred size at most 831 in every coefficient is always enough. */
  lemma AgreementUnderBound(P: Primitives, seed: seq<u8>, m: Bytes32)
    requires forall k :: 0 <= k < N ==> -831 <= Centered(SchemeNoise(P, seed, m)[k]) <= 831
    ensures Agrees(P, seed, m)
  {
    hide PublicBytes, PrivateBytes, SchemeNoise, Encapsulate, Agrees, Centered, MessageBit;
    Agreement(P, seed, m);
  }

  /** The rounding of u contributes at most 2 and that of v at most 104 in every coefficient. */
  lemma RoundingNoise(u: PolyVec, v: Poly16, k: nat)
    requires k < N && CanonicalVec(u) && Canonical(v)
    ensures var ct := Ciphertext(u, v);
            && (forall i :: 0 <= i < K ==> -2 <= Centered(SubV(UOf(ct), u)[i][k]) <= 2)
            && -104 <= Centered(SubP(VOf(ct), v)[k]) <= 104
  {
    hide Centered, Bytes10, Bytes4, PolyOf10, PolyOf4, Canonical, Ciphertext;
    CiphertextFields(u, v);
    RoundedU(u[0], k);
    RoundedU(u[1], k);
    RoundedU(u[2], k);
    RoundedV(v, k);
  }

  lemma CiphertextFields(u: PolyVec, v: Poly16)
    ensures UOf(Ciphertext(u, v)) == [PolyOf10(Bytes10(u[0])), PolyOf10(Bytes10(u[1])), PolyOf10(Bytes10(u[2]))]
    ensures VOf(Ciphertext(u, v)) == PolyOf4(Bytes4(v))
  {
    hide Bytes10, Bytes4, PolyOf10, PolyOf4;
    var ct := Ciphertext(u, v);
    assert ct[..320] == Bytes10(u[0]) && ct[320..640] == Bytes10(u[1]) && ct[640..960] == Bytes10(u[2]) && ct[960..] == Bytes4(v);
  }

  lemma RoundedU(p: Poly16, k: nat)
    requires k < N && Canonical(p)
    ensures -2 <= Centered(SubP(PolyOf10(Bytes10(p)), p)[k]) <= 2
  {
    hide Centered, Bytes10, PolyOf10, Compress, Decompress;
    RoundTrip10(p, k);
    CompressionError10(p[k]);
  }

  lemma RoundedV(p: Poly16, k: nat)
    requires k < N && Canonical(p)
    ensures -104 <= Centered(SubP(PolyOf4(Bytes4(p)), p)[k]) <= 104
  {
    hide Centered, Bytes4, PolyOf4, Compress, Decompress;
    RoundTrip4(p, k);
    CompressionError4(p[k]);
  }

  /** Without a wrapped accumulator nothing is lost in s*u'. */
  lemma NothingLost(s: PolyVec, u: PolyVec, k: nat)
    requires k < N && FitsVec(s, u)
    ensures Cong(SubP(Dot3(s, u), DotP(s, u, K))[k], 0, Q)
  {
    hide Dot3, DotP, FitsVec;
    DotExact(s, u);
    assert Cong(DotP(s, u, K)[k], Dot3(s, u)[k], Q);
    CongAdd(Dot3(s, u)[k], Dot3(s, u)[k], DotP(s, u, K)[k], Dot3(s, u)[k], Q);
  }

  /** The products of decapsulation fit their accumulators. */
  ghost predicate DecapsulationFits(P: Primitives, seed: seq<u8>, m: Bytes32) {
    hide Encapsulate, PublicBytes, KeySecret, UOf;
    FitsVec(ReduceVec(KeySecret(P, seed)), UOf(Encapsulate(P, PublicBytes(P, seed), m).0))
  }

  /** Then the noise of key, encryption and rounding alone decides. */
  lemma BareNoiseDecides(P: Primitives, seed: seq<u8>, m: Bytes32, k: nat)
    requires k < N && DecapsulationFits(P, seed, m)
    ensures Centered(SchemeNoise(P, seed, m)[k]) == Centered(SchemeBare(P, seed, m)[k])
  {
    hide Centered, SchemeBare, Encapsulate, PublicBytes, KeySecret, UOf, FitsVec, ReduceVec, Dot3, DotP;
    var bare: int, lost: int := SchemeBare(P, seed, m)[k], SchemeLost(P, seed, m)[k];
    NothingLost(ReduceVec(KeySecret(P, seed)), UOf(Encapsulate(P, PublicBytes(P, seed), m).0), k);
    CongAdd(bare, bare, lost, 0, Q);
    CenteredCong(bare + lost, bare);
  }

  /** With products that fit, the sides agree exactly when the noise of key, encryption and rounding stays in its window. */
  lemma AgreementWhenProductsFit(P: Primitives, seed: seq<u8>, m: Bytes32)
    requires DecapsulationFits(P, seed, m)
    ensures Agrees(P, seed, m) <==> forall k :: 0 <= k < N ==> Survives(SchemeBare(P, seed, m), m, k)
    ensures (forall k :: 0 <= k < N ==> -831 <= Centered(SchemeBare(P, seed, m)[k]) <= 831) ==> Agrees(P, seed, m)
  {
    hide Agrees, SchemeNoise, SchemeBare, DecapsulationFits, Centered, MessageBit;
    Agreement(P, seed, m);
    forall k | 0 <= k < N ensures Survives(SchemeNoise(P, seed, m), m, k) <==> Survives(SchemeBare(P, seed, m), m, k) {
      BareNoiseDecides(P, seed, m, k);
    }
  }
}
