/** The certificate fields chain validation reads, and the checks it makes on one or two certificates. */
module Certificates {
  import opened Words
  import opened Wrappers
  import opened Lists

  type Name = seq<u8>
  type Oid = seq<u8>

  /** A time string as the bytes of its UTF-8 text. */
  type Time = seq<u8>

  datatype Certificate = Certificate(
    subject: Name,
    issuer: Name,
    serial: seq<u8>,
    notBefore: Time,
    notAfter: Time,
    ca: Option<bool>,
    pathLen: Option<u32>,
    keyUsage: Option<u16>,
    policies: seq<Oid>,
    mappings: seq<(Oid, Oid)>,
    inhibitAny: Option<u32>,
    requireExplicit: Option<u32>,
    inhibitMapping: Option<u32>,
    ekus: seq<Oid>,
    crlUris: seq<string>,
    aiaUris: seq<string>,
    dnsNames: seq<string>,
    permittedDns: seq<string>,
    excludedDns: seq<string>,
    tbs: seq<u8>,
    signature: seq<u8>,
    publicKey: seq<u8>)

  datatype ValidationError =
    | InvalidNowTimeFormat | CertificateNotYetValid | CertificateExpired | IssuerNotFound | IssuerNotCa
    | IssuerMissingKeyCertSign | PathLenExceeded | UntrustedRoot | ChainLoopDetected | MaxChainDepthExceeded
    | SignatureRejected(code: nat) | MissingRequiredPolicy | MissingRequiredExtendedKeyUsage | ExplicitPolicyRequired
    | PolicyMappingInhibited | NameConstraintsViolation | MissingRevocationInfo | MissingRevocationLocator
    | SliceInsideCharacter  // no error value of the source: validation panics and returns nothing

  /** The outcome of one check. */
  datatype Check = Pass | Fail(error: ValidationError) {
    predicate IsFailure() {
      Fail?
    }

    function PropagateFailure<T>(): Result<T, ValidationError>
      requires Fail?
    {
      Err(error)
    }
  }

  datatype Options = Options(
    requiredPolicy: Option<Oid>,
    requiredEku: Option<Oid>,
    requireExplicit: bool,
    requireCrl: bool,
    requireLocator: bool,
    inhibitMapping: bool)

  predicate SelfIssued(cert: Certificate) {
    cert.subject == cert.issuer
  }

  // Times

  const ZULU: u8 := 0x5A
  const CENTURY19: Time := [0x31, 0x39]
  const CENTURY20: Time := [0x32, 0x30]

  predicate AllDigits(s: Time) {
    forall i :: 0 <= i < |s| ==> 0x30 <= s[i] <= 0x39
  }

  function Digit(b: u8): int {
    b as int - 0x30
  }

  /** Byte 2 continues a character, so slicing there is out of place. */
  predicate SlicesInside(input: Time) {
    |input| == 13 && input[12] == ZULU && 0x80 <= input[2] < 0xC0
  }

  /** GeneralizedTime as it is; UTCTime with its century, years from 50 on in the 1900s. */
  function CanonicalTime(input: Time): Result<Time, ValidationError> {
    if |input| == 15 && input[14] == ZULU then
      if AllDigits(input[..14]) then Ok(input) else Err(InvalidNowTimeFormat)
    else if |input| == 13 && input[12] == ZULU then
      if 0x80 <= input[2] < 0xC0 then Err(SliceInsideCharacter)
      else if !AllDigits(input[..2]) || !AllDigits(input[2..12]) then Err(InvalidNowTimeFormat)
      else
        var century := if 10 * Digit(input[0]) + Digit(input[1]) >= 50 then CENTURY19 else CENTURY20;
        Ok(century + input[..2] + input[2..12] + [ZULU])
    else Err(InvalidNowTimeFormat)
  }

  predicate Canonical(t: Time) {
    |t| == 15 && AllDigits(t[..14]) && t[14] == ZULU
  }

  /** For every input: a panic exactly when byte 2 continues a character, otherwise a canonical time or a refusal. */
  lemma CanonicalTimeIs(input: Time)
    ensures CanonicalTime(input) == Err(SliceInsideCharacter) <==> SlicesInside(input)
    ensures CanonicalTime(input).Ok? <==> (|input| == 13 || |input| == 15) && input[|input| - 1] == ZULU && AllDigits(input[..|input| - 1])
    ensures CanonicalTime(input).Ok? ==> Canonical(CanonicalTime(input).value)
  {
    if |input| == 13 {
      assert input[..12] == input[..2] + input[2..12];
    }
  }

  /** Such an input: the letter a, the two bytes of e with acute accent, nine digits and Z. */
  lemma AccentedTimePanics()
    ensures var input := [0x61, 0xC3, 0xA9, 0x30, 0x31, 0x30, 0x31, 0x30, 0x30, 0x30, 0x30, 0x30, 0x5A];
            CanonicalTime(input) == Err(SliceInsideCharacter)
  {
  }

  /** String order, byte by byte. */
  predicate Before(a: Time, b: Time) {
    b != [] && (a == [] || a[0] < b[0] || (a[0] == b[0] && Before(a[1..], b[1..])))
  }

  /** The number a digit string spells. */
  function Number(s: Time): int {
    if s == [] then 0 else 10 * Number(s[..|s| - 1]) + Digit(s[|s| - 1])
  }

  function Instant(t: Time): int
    requires Canonical(t)
  {
    Number(t[..14])
  }

  /** Comparing canonical times as strings is comparing them as numbers YYYYMMDDHHMMSS. */
  lemma TimeOrder(a: Time, b: Time)
    requires Canonical(a) && Canonical(b)
    ensures Before(a, b) <==> Instant(a) < Instant(b)
  {
    hide Before, Number;
    assert a == a[..14] + [ZULU] && b == b[..14] + [ZULU];
    BeforeLast(a[..14], b[..14], ZULU, ZULU);
    DigitOrder(a[..14], b[..14]);
  }

  lemma {:induction false} DigitOrder(a: Time, b: Time)
    requires |a| == |b| && AllDigits(a) && AllDigits(b)
    ensures Before(a, b) <==> Number(a) < Number(b)
    ensures a == b <==> Number(a) == Number(b)
  {
    hide Before, Number;
    if a == [] {
      NothingBefore();
    } else {
      var n := |a| - 1;
      var x, y := a[n], b[n];
      DigitOrder(a[..n], b[..n]);
      assert a == a[..n] + [x] && b == b[..n] + [y];
      BeforeLast(a[..n], b[..n], x, y);
      LastDigit(a);
      LastDigit(b);
      assert 0 <= Digit(x) <= 9 && 0 <= Digit(y) <= 9;
    }
  }

  lemma NothingBefore()
    ensures !Before([], []) && Number([]) == 0
  {
  }

  lemma LastDigit(s: Time)
    requires s != []
    ensures Number(s) == 10 * Number(s[..|s| - 1]) + Digit(s[|s| - 1])
  {
  }

  lemma {:induction false} BeforeLast(a: Time, b: Time, x: u8, y: u8)
    requires |a| == |b|
    ensures Before(a + [x], b + [y]) <==> Before(a, b) || (a == b && x < y)
  {
    if a != [] {
      assert (a + [x])[1..] == a[1..] + [x] && (b + [y])[1..] == b[1..] + [y];
      BeforeLast(a[1..], b[1..], x, y);
    } else {
      assert a + [x] == [x] && b + [y] == [y];
    }
  }

  function ValidateTime(cert: Certificate, now: Time): Check {
    match CanonicalTime(cert.notBefore)
    case Err(e) => Fail(e)
    case Ok(notBefore) =>
      match CanonicalTime(cert.notAfter)
      case Err(e) => Fail(e)
      case Ok(notAfter) =>
        if Before(now, notBefore) then Fail(CertificateNotYetValid)
        else if Before(notAfter, now) then Fail(CertificateExpired)
        else Pass
  }

  /** Reading the validity period of a certificate panics. */
  predicate TimePanics(cert: Certificate) {
    SlicesInside(cert.notBefore) || (CanonicalTime(cert.notBefore).Ok? && SlicesInside(cert.notAfter))
  }

  /**
   A certificate passes exactly when the instant lies in its validity period, both ends included, and
   validation panics exactly when reading that period does.
   */
  lemma TimeWindow(cert: Certificate, now: Time)
    requires Canonical(now)
    ensures ValidateTime(cert, now) == Fail(SliceInsideCharacter) <==> TimePanics(cert)
    ensures ValidateTime(cert, now) == Pass <==>
              var (notBefore, notAfter) := (CanonicalTime(cert.notBefore), CanonicalTime(cert.notAfter));
              && notBefore.Ok? && notAfter.Ok? && Canonical(notBefore.value) && Canonical(notAfter.value)
              && Instant(notBefore.value) <= Instant(now) <= Instant(notAfter.value)
  {
    hide CanonicalTime, Before, Instant, Canonical, SlicesInside;
    CanonicalTimeIs(cert.notBefore);
    CanonicalTimeIs(cert.notAfter);
    if CanonicalTime(cert.notBefore).Ok? && CanonicalTime(cert.notAfter).Ok? {
      TimeOrder(now, CanonicalTime(cert.notBefore).value);
      TimeOrder(CanonicalTime(cert.notAfter).value, now);
    }
  }

  /** Whatever the instant, only reading the times can panic. */
  lemma TimePanicsIs(cert: Certificate, now: Time)
    ensures ValidateTime(cert, now) == Fail(SliceInsideCharacter) <==> TimePanics(cert)
  {
    hide CanonicalTime, Before, SlicesInside;
    CanonicalTimeIs(cert.notBefore);
    CanonicalTimeIs(cert.notAfter);
  }

  // Required policy, usage and revocation pointers

  function ValidatePolicyAndRevocation(cert: Certificate, options: Options, isLeaf: bool): Check {
    if options.requiredPolicy.Some? && options.requiredPolicy.value !in cert.policies then Fail(MissingRequiredPolicy)
    else if options.requireCrl && cert.crlUris == [] && !SelfIssued(cert) then Fail(MissingRevocationInfo)
    else if options.requireLocator && cert.crlUris == [] && cert.aiaUris == [] && !SelfIssued(cert) then
      Fail(MissingRevocationLocator)
    else if isLeaf && options.requiredEku.Some? && options.requiredEku.value !in cert.ekus then
      Fail(MissingRequiredExtendedKeyUsage)
    else Pass
  }

  // Issuer and name constraints

  function ValidateIssuerConstraints(issuer: Certificate, caHopsBelow: nat): Check {
    if issuer.ca != Some(true) then Fail(IssuerNotCa)
    else if issuer.keyUsage.Some? && And(issuer.keyUsage.value, 0x0004) == 0 then Fail(IssuerMissingKeyCertSign)
    else if issuer.pathLen.Some? && caHopsBelow > issuer.pathLen.value then Fail(PathLenExceeded)
    else Pass
  }

  function LowerChar(c: char): char {
    if 'A' <= c <= 'Z' then (c as int + 32) as char else c
  }

  function Lower(s: string): (r: string)
    ensures |r| == |s|
  {
    seq(|s|, i requires 0 <= i < |s| => LowerChar(s[i]))
  }

  function TrimDots(s: string): string {
    if s != "" && s[0] == '.' then TrimDots(s[1..]) else s
  }

  predicate DnsMatches(name: string, constraint: string) {
    var n, c := Lower(name), Lower(TrimDots(constraint));
    && c != ""
    && (n == c || (EndsWith(n, c) && EndsWith(n[..|n| - |c|], ".")))
  }

  /** A name matches exactly when, ignoring case, it is the constraint or some labels and a dot before it. */
  lemma DnsMatchIff(name: string, constraint: string)
    ensures DnsMatches(name, constraint) <==>
              var n, c := Lower(name), Lower(TrimDots(constraint));
              c != "" && (n == c || exists prefix: string :: n == prefix + "." + c)
  {
    hide Lower, TrimDots;
    SuffixIff(Lower(name), Lower(TrimDots(constraint)));
  }

  lemma SuffixIff(n: string, c: string)
    ensures EndsWith(n, c) && EndsWith(n[..|n| - |c|], ".") <==> exists prefix: string :: n == prefix + "." + c
  {
    if EndsWith(n, c) && EndsWith(n[..|n| - |c|], ".") {
      var prefix := n[..|n| - |c| - 1];
      assert n[..|n| - |c|] == prefix + ".";
      assert n == prefix + "." + c;
    }
    if exists prefix: string :: n == prefix + "." + c {
      var prefix: string :| n == prefix + "." + c;
      assert n[|n| - |c|..] == c;
      assert n[..|n| - |c|] == prefix + ".";
    }
  }

  predicate DnsAllowed(issuer: Certificate, name: string) {
    && (forall c :: c in issuer.excludedDns ==> !DnsMatches(name, c))
    && (issuer.permittedDns == [] || exists c :: c in issuer.permittedDns && DnsMatches(name, c))
  }

  function ValidateNameConstraints(issuer: Certificate, subject: Certificate): Check {
    if forall n :: n in subject.dnsNames ==> DnsAllowed(issuer, n) then Pass else Fail(NameConstraintsViolation)
  }

  /** The loop of `validate_name_constraints`, with its early returns. */
  method CheckNameConstraints(issuer: Certificate, subject: Certificate) returns (r: Check)
    ensures r == ValidateNameConstraints(issuer, subject)
  {
    hide DnsMatches;
    var constrained := issuer.permittedDns != [] || issuer.excludedDns != [];
    if !constrained || subject.dnsNames == [] {
      return Pass;
    }
    for i := 0 to |subject.dnsNames|
      invariant forall k :: 0 <= k < i ==> DnsAllowed(issuer, subject.dnsNames[k])
    {
      var name := subject.dnsNames[i];
      var excluded := AnyMatches(name, issuer.excludedDns);
      if excluded {
        assert name in subject.dnsNames && !DnsAllowed(issuer, name);
        return Fail(NameConstraintsViolation);
      }
      var permitted := AnyMatches(name, issuer.permittedDns);
      if issuer.permittedDns != [] && !permitted {
        assert name in subject.dnsNames && !DnsAllowed(issuer, name);
        return Fail(NameConstraintsViolation);
      }
    }
    return Pass;
  }

  method AnyMatches(name: string, constraints: seq<string>) returns (found: bool)
    ensures found <==> exists c :: c in constraints && DnsMatches(name, c)
  {
    hide DnsMatches;
    for i := 0 to |constraints|
      invariant forall k :: 0 <= k < i ==> !DnsMatches(name, constraints[k])
    {
      if DnsMatches(name, constraints[i]) {
        assert constraints[i] in constraints;
        return true;
      }
    }
    return false;
  }
}
