/** What the checks of a path search mean for the certificates on an accepted path, in the fields of the certificates alone. */
module PathMeaning {
  import opened Words
  import opened Bits
  import opened Wrappers
  import opened Lists
  import opened Certificates

  // Issuers

  /** Marked as a certification authority, allowed to sign certificates, and allowed that many authorities below it. */
  predicate MayIssue(issuer: Certificate, authoritiesBelow: nat) {
    && issuer.ca == Some(true)
    && (issuer.keyUsage.Some? ==> BitAt(issuer.keyUsage.value, 2) == 1)
    && (issuer.pathLen.Some? ==> authoritiesBelow <= issuer.pathLen.value)
  }

  /** The issuer check passes exactly on such certificates, and otherwise names the first condition missed. */
  lemma IssuerCheckIs(issuer: Certificate, authoritiesBelow: nat)
    ensures ValidateIssuerConstraints(issuer, authoritiesBelow) == Pass <==> MayIssue(issuer, authoritiesBelow)
    ensures ValidateIssuerConstraints(issuer, authoritiesBelow) == Fail(IssuerNotCa) <==> issuer.ca != Some(true)
    ensures ValidateIssuerConstraints(issuer, authoritiesBelow) == Fail(IssuerMissingKeyCertSign) <==>
              issuer.ca == Some(true) && issuer.keyUsage.Some? && BitAt(issuer.keyUsage.value, 2) == 0
    ensures ValidateIssuerConstraints(issuer, authoritiesBelow) == Fail(PathLenExceeded) <==>
              MayIssue(issuer.(pathLen := None), authoritiesBelow) && issuer.pathLen.Some? && issuer.pathLen.value < authoritiesBelow
  {
    hide And, BitAt;
    if issuer.keyUsage.Some? {
      BitTwo(issuer.keyUsage.value);
    }
  }

  lemma BitTwo(x: nat)
    ensures And(x, 4) == 0 <==> BitAt(x, 2) == 0
  {
    hide And, BitAt;
    SmallPowers();
    BitTest(x, 2);
  }

  // Required policy, usage and revocation pointers

  predicate MeetsOptions(cert: Certificate, options: Options, isLeaf: bool) {
    && (options.requiredPolicy.Some? ==> options.requiredPolicy.value in cert.policies)
    && (options.requiredEku.Some? && isLeaf ==> options.requiredEku.value in cert.ekus)
    && (options.requireCrl && cert.subject != cert.issuer ==> cert.crlUris != [])
    && (options.requireLocator && cert.subject != cert.issuer ==> cert.crlUris != [] || cert.aiaUris != [])
  }

  lemma OptionsCheckIs(cert: Certificate, options: Options, isLeaf: bool)
    ensures ValidatePolicyAndRevocation(cert, options, isLeaf) == Pass <==> MeetsOptions(cert, options, isLeaf)
    ensures ValidatePolicyAndRevocation(cert, options, isLeaf) == Fail(MissingRequiredPolicy) <==>
              options.requiredPolicy.Some? && options.requiredPolicy.value !in cert.policies
    ensures ValidatePolicyAndRevocation(cert, options, isLeaf) == Fail(MissingRequiredExtendedKeyUsage) <==>
              && MeetsOptions(cert, options.(requiredEku := None), isLeaf)
              && isLeaf && options.requiredEku.Some? && options.requiredEku.value !in cert.ekus
    ensures ValidatePolicyAndRevocation(cert, options, isLeaf) == Fail(MissingRevocationInfo) <==>
              && (options.requiredPolicy.Some? ==> options.requiredPolicy.value in cert.policies)
              && options.requireCrl && cert.subject != cert.issuer && cert.crlUris == []
  {
  }

  // Times

  /** Hundreds of years of the two-digit form: 1950 to 2049. */
  lemma YearIs(input: Time)
    requires CanonicalTime(input).Ok?
    ensures |input| == 15 ==> CanonicalTime(input).value == input
    ensures |input| == 13 ==>
              var (t, yy) := (CanonicalTime(input).value, 10 * (input[0] as int - 0x30) + input[1] as int - 0x30);
              Number(t[..4]) == (if yy < 50 then 2000 + yy else 1900 + yy) && t[4..] == input[2..]
  {
    hide Number;
    if |input| == 13 {
      var t := CanonicalTime(input).value;
      FourDigits(t[..4]);
      assert t[2..4] == input[..2];
      assert t[4..] == input[2..12] + [ZULU];
    }
  }

  lemma FourDigits(s: Time)
    requires |s| == 4
    ensures Number(s) == 1000 * Digit(s[0]) + 100 * Digit(s[1]) + 10 * Digit(s[2]) + Digit(s[3])
  {
    hide Number;
    LastDigit(s);
    LastDigit(s[..3]);
    LastDigit(s[..3][..2]);
    LastDigit(s[..3][..2][..1]);
    assert s[..3][..2][..1][..0] == [];
    NothingBefore();
  }

  /** Which bound of the validity period is missed, for readable times. */
  lemma TimeCheckIs(cert: Certificate, now: Time)
    requires Canonical(now) && CanonicalTime(cert.notBefore).Ok? && CanonicalTime(cert.notAfter).Ok?
    ensures Canonical(CanonicalTime(cert.notBefore).value) && Canonical(CanonicalTime(cert.notAfter).value)
    ensures var (from, until) := (Instant(CanonicalTime(cert.notBefore).value), Instant(CanonicalTime(cert.notAfter).value));
            ValidateTime(cert, now) == if Instant(now) < from then Fail(CertificateNotYetValid)
                                       else if until < Instant(now) then Fail(CertificateExpired) else Pass
  {
    hide CanonicalTime, Before, Instant, Canonical;
    CanonicalTimeIs(cert.notBefore);
    CanonicalTimeIs(cert.notAfter);
    TimeOrder(now, CanonicalTime(cert.notBefore).value);
    TimeOrder(CanonicalTime(cert.notAfter).value, now);
  }

  // Names

  /** The same letter, or its other case. */
  predicate SameLetter(a: char, b: char) {
    || a == b
    || ('A' <= a <= 'Z' && b as int == a as int + 32)
    || ('A' <= b <= 'Z' && a as int == b as int + 32)
  }

  predicate SameText(a: string, b: string) {
    |a| == |b| && forall i :: 0 <= i < |a| ==> SameLetter(a[i], b[i])
  }

  lemma LowerIsSameText(a: string, b: string)
    ensures Lower(a) == Lower(b) <==> SameText(a, b)
  {
    if Lower(a) == Lower(b) {
      forall i | 0 <= i < |a| ensures SameLetter(a[i], b[i]) {
        assert Lower(a)[i] == Lower(b)[i];
      }
    }
  }

  predicate Dots(s: string) {
    forall i :: 0 <= i < |s| ==> s[i] == '.'
  }

  lemma {:induction false} TrimmedDots(s: string)
    ensures |TrimDots(s)| <= |s| && s[|s| - |TrimDots(s)|..] == TrimDots(s) && Dots(s[..|s| - |TrimDots(s)|])
    ensures TrimDots(s) != "" ==> TrimDots(s)[0] != '.'
  {
    if s != "" && s[0] == '.' {
      TrimmedDots(s[1..]);
      var n := |s| - |TrimDots(s)|;
      assert s[..n] == [s[0]] + s[1..][..n - 1];
    }
  }

  /** A constraint, less its leading dots, is the name or what follows some dot of it, in either case of letters. */
  predicate Covers(constraint: string, name: string) {
    exists at: nat ::
      && at < |constraint| && Dots(constraint[..at]) && constraint[at] != '.'
      && Under(constraint[at..], name)
  }

  predicate Under(base: string, name: string) {
    || SameText(name, base)
    || (|base| < |name| && name[|name| - |base| - 1] == '.' && SameText(name[|name| - |base|..], base))
  }

  lemma MatchIsCover(name: string, constraint: string)
    ensures DnsMatches(name, constraint) <==> Covers(constraint, name)
  {
    hide DnsMatches, Lower, TrimDots, Under, Covers;
    UnderIs(name, TrimDots(constraint));
    MatchUnfolds(name, constraint);
    CoverIs(name, constraint);
  }

  lemma CoverIs(name: string, constraint: string)
    ensures Covers(constraint, name) <==> TrimDots(constraint) != "" && Under(TrimDots(constraint), name)
  {
    hide TrimDots, Under, Dots;
    TrimmedDots(constraint);
    var base := TrimDots(constraint);
    var at := |constraint| - |base|;
    if base != "" {
      assert constraint[at] == constraint[at..][0] == base[0];
    }
    if Covers(constraint, name) {
      var other: nat :| other < |constraint| && Dots(constraint[..other]) && constraint[other] != '.' && Under(constraint[other..], name);
      NoLaterThan(constraint, other, at);
      if base != "" {
        NoLaterThan(constraint, at, other);
      }
    }
  }

  lemma NoLaterThan(s: string, i: nat, j: nat)
    requires i < |s| && j <= |s| && s[i] != '.' && Dots(s[..j])
    ensures j <= i
  {
    assert forall k :: 0 <= k < j ==> s[k] == s[..j][k];
  }

  lemma MatchUnfolds(name: string, constraint: string)
    ensures DnsMatches(name, constraint) <==>
              var (n, c) := (Lower(name), Lower(TrimDots(constraint)));
              c != "" && (n == c || (EndsWith(n, c) && EndsWith(n[..|n| - |c|], ".")))
  {
    hide Lower, TrimDots;
  }

  lemma UnderIs(name: string, base: string)
    ensures var (n, c) := (Lower(name), Lower(base));
            Under(base, name) <==> n == c || (EndsWith(n, c) && EndsWith(n[..|n| - |c|], "."))
  {
    hide Lower;
    LowerIsSameText(name, base);
    if |base| < |name| {
      var cut := |name| - |base|;
      LowerIsSameText(name[cut..], base);
      LowerSlices(name, cut);
      assert Lower(name)[..cut][cut - 1..] == [Lower(name)[cut - 1]];
      LowerDot(name, cut - 1);
    }
  }

  lemma LowerSlices(s: string, cut: nat)
    requires cut <= |s|
    ensures Lower(s)[cut..] == Lower(s[cut..])
  {
  }

  lemma LowerDot(s: string, i: nat)
    requires i < |s|
    ensures Lower(s)[i] == '.' <==> s[i] == '.'
  {
  }

  /** No name of the subject is excluded, and each is permitted when the issuer permits any. */
  predicate NamesAllowed(issuer: Certificate, subject: Certificate) {
    forall name :: name in subject.dnsNames ==>
      && (forall c :: c in issuer.excludedDns ==> !Covers(c, name))
      && (issuer.permittedDns != [] ==> exists c :: c in issuer.permittedDns && Covers(c, name))
  }

  lemma NamesCheckIs(issuer: Certificate, subject: Certificate)
    ensures ValidateNameConstraints(issuer, subject) == if NamesAllowed(issuer, subject) then Pass else Fail(NameConstraintsViolation)
  {
    hide DnsMatches, Covers;
    forall name, c ensures DnsMatches(name, c) <==> Covers(c, name) {
      MatchIsCover(name, c);
    }
    assert forall name :: DnsAllowed(issuer, name) <==>
        && (forall c :: c in issuer.excludedDns ==> !Covers(c, name))
        && (issuer.permittedDns != [] ==> exists c :: c in issuer.permittedDns && Covers(c, name));
  }
}
