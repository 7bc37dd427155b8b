/** What a signature says in the ring: the answer opens the commitment, and each field of the signature is one stated polynomial. */
module MlDsaOpening {
  import opened Arith
  import opened Words
  import opened HashPrimitives
  import opened BitPacking
  import opened Negacyclic
  import opened MlDsaPoly
  import opened MlDsaChallenge
  import opened MlDsaCodec
  import opened MlDsa
  import opened MlDsaCorrectness

  /** The inner product of the first n components, exact in the ring. */
  function Dot(a: VecL, s: VecL, n: nat): Poly
    requires n <= L
  {
    if n == 0 then Zero() else AddP(Dot(a, s, n - 1), Conv(a[n - 1], s[n - 1]))
  }

  lemma ReduceCong(p: Poly)
    ensures PolyCong(ReduceP(p), p, Q)
  {
    forall k | 0 <= k < N ensures Cong(ReduceP(p)[k], p[k], Q) {
      CongMod(p[k], Q);
    }
  }

  /** A row of the matrix times a vector, reduced after each product, is the inner product modulo q. */
  lemma {:induction false} RowIsDot(a: VecL, s: VecL, n: nat)
    requires n <= L
    ensures PolyCong(RowP(a, s, n), Dot(a, s, n), Q)
  {
    hide PolyCong, Conv, AddP, ReduceP;
    if n == 0 {
      CongRefl(Zero(), Q);
    } else {
      RowIsDot(a, s, n - 1);
      var product := Conv(a[n - 1], s[n - 1]);
      ReduceCong(product);
      CongSum(RowP(a, s, n - 1), Dot(a, s, n - 1), MulP(a[n - 1], s[n - 1]), product, Q);
      ReduceCong(AddP(RowP(a, s, n - 1), MulP(a[n - 1], s[n - 1])));
      CongTrans(RowP(a, s, n), AddP(RowP(a, s, n - 1), MulP(a[n - 1], s[n - 1])), Dot(a, s, n), Q);
    }
  }

  /** Coefficient by coefficient: the five exact products, added and reduced once. */
  lemma RowIs(a: VecL, s: VecL, k: nat)
    requires k < N
    ensures RowP(a, s, L)[k] == (ConvAt(a[0], s[0], k) + ConvAt(a[1], s[1], k) + ConvAt(a[2], s[2], k) + ConvAt(a[3], s[3], k)
                                 + ConvAt(a[4], s[4], k)) % Q
  {
    hide ConvAt, RowP, Mod;
    RowIsDot(a, s, L);
    FiveTerms(a, s, k);
    CongOnce(RowP(a, s, L), Dot(a, s, L), k);
  }

  lemma FiveTerms(a: VecL, s: VecL, k: nat)
    requires k < N
    ensures Dot(a, s, L)[k] == ConvAt(a[0], s[0], k) + ConvAt(a[1], s[1], k) + ConvAt(a[2], s[2], k) + ConvAt(a[3], s[3], k)
                               + ConvAt(a[4], s[4], k)
  {
    hide ConvAt;
    assert Dot(a, s, 0)[k] == 0;
    assert Dot(a, s, 1)[k] == ConvAt(a[0], s[0], k);
    assert Dot(a, s, 2)[k] == Dot(a, s, 1)[k] + ConvAt(a[1], s[1], k);
    assert Dot(a, s, 3)[k] == Dot(a, s, 2)[k] + ConvAt(a[2], s[2], k);
    assert Dot(a, s, 4)[k] == Dot(a, s, 3)[k] + ConvAt(a[3], s[3], k);
  }

  // The answer opens the commitment

  lemma ZIs(y: Poly24, c: Poly24, s: Poly24)
    ensures PolyCong(ZPoly(y, c, s), AddP(y, Conv(c, s)), Q)
    ensures PolyCong(RPoly(y, c, s), SubP(y, Conv(c, s)), Q)
  {
    hide PolyCong, Conv, AddP, SubP, ReduceP;
    ReduceCong(Conv(c, s));
    CongRefl(y, Q);
    CongSum(y, y, MulP(c, s), Conv(c, s), Q);
    ReduceCong(AddP(y, MulP(c, s)));
    ReduceCong(SubP(y, MulP(c, s)));
    CongTrans(ZPoly(y, c, s), AddP(y, MulP(c, s)), AddP(y, Conv(c, s)), Q);
    CongTrans(RPoly(y, c, s), SubP(y, MulP(c, s)), SubP(y, Conv(c, s)), Q);
  }

  /** a*(c*s) = c*(a*s). */
  lemma ConvSwap(a: Poly, c: Poly, s: Poly)
    ensures Conv(a, Conv(c, s)) == Conv(c, Conv(a, s))
  {
    hide Conv;
    ConvAssociates(a, c, s);
    ConvAssociates(c, a, s);
    ConvCommutes(a, c);
  }

  lemma TimesZero(c: Poly)
    ensures Conv(c, Zero()) == Zero()
  {
    hide Conv;
    assert AddP(Zero(), Zero()) == Zero();
    ConvAdds(Zero(), Zero(), c);
    OnlyZeroDoubles(Conv(c, Zero()));
  }

  lemma OnlyZeroDoubles(p: Poly)
    requires p == AddP(p, p)
    ensures p == Zero()
  {
    forall k | 0 <= k < N ensures p[k] == 0 {
      assert p[k] == AddP(p, p)[k];
    }
  }

  lemma Regroup(a: Poly, b: Poly, c: Poly, d: Poly)
    ensures AddP(AddP(a, b), AddP(c, d)) == AddP(AddP(a, c), AddP(b, d))
  {
  }

  /** a*z = a*y + c*(a*s), component by component. */
  lemma {:induction false} DotOfAnswer(a: VecL, y: VecL, c: Poly24, s: VecL, n: nat)
    requires n <= L
    ensures PolyCong(Dot(a, ZVec(y, c, s), n), AddP(Dot(a, y, n), Conv(c, Dot(a, s, n))), Q)
  {
    hide PolyCong, Conv, AddP, ZPoly;
    if n == 0 {
      TimesZero(c);
      NothingAdded();
      CongRefl(Zero(), Q);
    } else {
      var i := n - 1;
      DotOfAnswer(a, y, c, s, i);
      ZIs(y[i], c, s[i]);
      CongRefl(a[i], Q);
      ConvCong(a[i], a[i], ZVec(y, c, s)[i], AddP(y[i], Conv(c, s[i])), Q);
      ConvAdds(y[i], Conv(c, s[i]), a[i]);
      ConvSwap(a[i], c, s[i]);
      var (ay, cas) := (Conv(a[i], y[i]), Conv(c, Conv(a[i], s[i])));
      CongSum(Dot(a, ZVec(y, c, s), i), AddP(Dot(a, y, i), Conv(c, Dot(a, s, i))), Conv(a[i], ZVec(y, c, s)[i]), AddP(ay, cas), Q);
      Regroup(Dot(a, y, i), Conv(c, Dot(a, s, i)), ay, cas);
      ConvAdds(Dot(a, s, i), Conv(a[i], s[i]), c);
    }
  }

  lemma NothingAdded()
    ensures AddP(Zero(), Zero()) == Zero()
  {
  }

  /** One row: a*z - c*t = w - c*s2 for w = a*y and t = a*s1 + s2. */
  lemma RowOpens(a: VecL, y: VecL, c: Poly24, s1: VecL, s2: Poly24)
    ensures var (w, t) := (RowP(a, y, L), ReduceP(AddP(RowP(a, s1, L), s2)));
            PolyCong(SubP(RowP(a, ZVec(y, c, s1), L), Conv(c, t)), SubP(w, Conv(c, s2)), Q)
  {
    hide PolyCong, Conv, AddP, SubP, ReduceP, RowP, Dot, ZVec;
    var (w, t, z) := (RowP(a, y, L), ReduceP(AddP(RowP(a, s1, L), s2)), ZVec(y, c, s1));
    var (ay, as1, az) := (Dot(a, y, L), Dot(a, s1, L), Dot(a, z, L));
    RowIsDot(a, y, L);
    RowIsDot(a, s1, L);
    RowIsDot(a, z, L);
    DotOfAnswer(a, y, c, s1, L);
    CongTrans(RowP(a, z, L), az, AddP(ay, Conv(c, as1)), Q);
    CongRefl(s2, Q);
    CongRefl(c, Q);
    CongSum(RowP(a, s1, L), as1, s2, s2, Q);
    ReduceCong(AddP(RowP(a, s1, L), s2));
    CongTrans(t, AddP(RowP(a, s1, L), s2), AddP(as1, s2), Q);
    ConvCong(c, c, t, AddP(as1, s2), Q);
    ConvAdds(as1, s2, c);
    CongSum(RowP(a, z, L), AddP(ay, Conv(c, as1)), Conv(c, t), AddP(Conv(c, as1), Conv(c, s2)), Q);
    Cancel(ay, Conv(c, as1), Conv(c, s2));
    CongRefl(Conv(c, s2), Q);
    CongSum(w, ay, Conv(c, s2), Conv(c, s2), Q);
    CongTrans(SubP(w, Conv(c, s2)), SubP(ay, Conv(c, s2)), SubP(ay, Conv(c, s2)), Q) by {
      CongRefl(SubP(ay, Conv(c, s2)), Q);
    }
    CongTrans(SubP(RowP(a, z, L), Conv(c, t)), SubP(ay, Conv(c, s2)), SubP(w, Conv(c, s2)), Q);
  }

  lemma Cancel(a: Poly, b: Poly, c: Poly)
    ensures SubP(AddP(a, b), AddP(b, c)) == SubP(a, c)
  {
  }

  /**
   The identity lattice signatures rest on, for any private key bytes: with t = A*s1 + s2 the public vector,
   A*z - c*t = w - c*s2 modulo q in every row.
   */
  lemma AnswerOpensCommitment(H: Hashes, sk: PrivateKey, msg: seq<u8>, nonce: nat, i: nat)
    requires Ends(H, sk, msg, nonce) && i < K
    ensures var (rho, c) := (sk[..32], Challenge(ChallengeStream(H, SignDigest(H, sk, msg, nonce))));
            var t := TVec(H, rho, SecretS1(sk), SecretS2(sk));
            PolyCong(SubP(RowP(Entry(H, rho, i), Answer(H, sk, msg, nonce), L), Conv(c, t[i])),
                     SubP(WVec(H, sk, msg, nonce)[i], Conv(c, SecretS2(sk)[i])), Q)
  {
    hide PolyCong, Conv, AddP, SubP, ReduceP, RowP, Entry, YVec, SignDigest, Challenge, ZVec, SecretS1, SecretS2, Enough;
    var (rho, c) := (sk[..32], Challenge(ChallengeStream(H, SignDigest(H, sk, msg, nonce))));
    RowOpens(Entry(H, rho, i), YVec(H, sk, msg, nonce), c, SecretS1(sk), SecretS2(sk)[i]);
  }

  // The fields of a signature

  /** A coefficient of the encoded answer is the low twelve bits of (y + c*s1) modulo q. */
  lemma AnswerField(z: VecL, i: nat, k: nat)
    requires i < L && k < N
    ensures OfZBytes(ZBytes(z))[i][k] == z[i][k] % Q % 4096
  {
    hide Bytes12, Of12;
    var b := ZBytes(z);
    assert b[..384] == Bytes12(z[0]) && b[384..768] == Bytes12(z[1]) && b[768..1152] == Bytes12(z[2])
        && b[1152..1536] == Bytes12(z[3]) && b[1536..] == Bytes12(z[4]);
    LowBack(z[i], k);
  }

  lemma LowBack(p: Poly24, k: nat)
    requires k < N
    ensures Of12(Bytes12(p))[k] == p[k] % Q % 4096
  {
    hide Packed12, Unpacked12;
    Packing12(Low12(p));
    assert Of12(Bytes12(p))[k] == Low12(p)[k];
  }

  /** What the second norm test looks at: (w - c*s2) modulo q, coefficient by coefficient. */
  lemma TestedResidue(w: VecK, c: Poly24, s: VecK, i: nat, k: nat)
    requires i < K && k < N
    ensures RVec(w, c, s)[i][k] == (w[i][k] - ConvAt(c, s[i], k)) % Q
  {
    hide RPoly, ConvAt, PolyCong, Mod;
    ZIs(w[i], c, s[i]);
    var (r, exact) := (RPoly(w[i], c, s[i]), SubP(w[i], Conv(c, s[i])));
    CongOnce(r, exact, k);
  }

  lemma CongOnce(r: Poly24, exact: Poly, k: nat)
    requires PolyCong(r, exact, Q) && Canonical(r) && k < N
    ensures r[k] == exact[k] % Q
  {
    hide Mod;
    assert Cong(r[k], exact[k], Q);
    ModIs(r[k], Q);
    ModIs(exact[k], Q);
  }
}
