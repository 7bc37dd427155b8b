/** The backtracking certificate path search: its result as a function, and the recursive method that computes it. */
module PathSearch {
  import opened Words
  import opened Wrappers
  import opened Certificates
  import opened PathPolicy

  /** What one validation call holds fixed; `verify(subject, issuer)` is the signature check, with the error it fails with. */
  datatype Env = Env(
    intermediates: seq<Certificate>,
    anchors: seq<Certificate>,
    now: Time,
    enforceSignatures: bool,
    options: Options,
    verify: (Certificate, Certificate) -> Option<nat>)

  datatype Report = Report(chainLen: nat, anchor: nat, policies: seq<Oid>)

  datatype State = State(visited: seq<seq<u8>>, policy: Policy)

  /** The three counters of the recursion. */
  datatype Depth = Depth(chainLen: nat, caHops: nat, hop: nat)

  function Start(): Depth {
    Depth(1, 0, 0)
  }

  function Deeper(d: Depth): Depth {
    Depth(d.chainLen + 1, d.caHops + 1, d.hop + 1)
  }

  function HopsLeft(hop: nat): nat {
    if hop > 16 then 0 else 17 - hop
  }

  /** Index of the first certificate with a subject. */
  function Position(certs: seq<Certificate>, name: Name): (r: Option<nat>)
    ensures r.Some? ==> r.value < |certs| && certs[r.value].subject == name && forall i :: 0 <= i < r.value ==> certs[i].subject != name
    ensures r.None? ==> forall i :: 0 <= i < |certs| ==> certs[i].subject != name
  {
    PositionFrom(certs, name, 0)
  }

  function PositionFrom(certs: seq<Certificate>, name: Name, at: nat): (r: Option<nat>)
    requires at <= |certs|
    ensures r.Some? ==> at <= r.value < |certs| && certs[r.value].subject == name && forall i :: at <= i < r.value ==> certs[i].subject != name
    ensures r.None? ==> forall i :: at <= i < |certs| ==> certs[i].subject != name
    decreases |certs| - at
  {
    if at == |certs| then None
    else if certs[at].subject == name then Some(at)
    else PositionFrom(certs, name, at + 1)
  }

  /** Indices of all certificates with a subject, in order. */
  function Candidates(certs: seq<Certificate>, name: Name): (r: seq<nat>)
    ensures forall k :: 0 <= k < |r| ==> r[k] < |certs| && certs[r[k]].subject == name
    ensures forall i: nat :: i < |certs| && certs[i].subject == name ==> i in r
    ensures Increasing(r)
  {
    if certs == [] then []
    else
      var last := |certs| - 1;
      Candidates(certs[..last], name) + if certs[last].subject == name then [last] else []
  }

  predicate Increasing(s: seq<nat>) {
    forall i, j :: 0 <= i < j < |s| ==> s[i] < s[j]
  }

  /** Checks on the current certificate, and the state they leave. */
  function Enter(env: Env, cert: Certificate, st: State, isLeaf: bool): Result<State, ValidationError> {
    var p := Entered(st.policy, cert);
    :- ValidateTime(cert, env.now);
    :- ValidatePolicyAndRevocation(cert, env.options, isLeaf);
    :- CheckExplicit(p);
    :- CheckMapping(p, cert);
    if cert.serial in st.visited then Err(ChainLoopDetected) else Ok(State(st.visited + [cert.serial], p))
  }

  /** Checks between a certificate and its issuer. */
  function Cross(env: Env, current: Certificate, issuer: Certificate, policy: Policy, caHops: nat): Result<Policy, ValidationError> {
    var p := Crossed(policy, issuer);
    :- ValidateTime(issuer, env.now);
    :- ValidatePolicyAndRevocation(issuer, env.options, false);
    :- CheckExplicit(p);
    :- CheckMapping(p, current);
    :- CheckMapping(p, issuer);
    :- ValidateIssuerConstraints(issuer, caHops);
    :- ValidateNameConstraints(issuer, current);
    :- CheckSignature(env, current, issuer);
    Ok(p)
  }

  function CheckSignature(env: Env, current: Certificate, issuer: Certificate): Check {
    if !env.enforceSignatures then Pass
    else match env.verify(current, issuer)
      case None => Pass
      case Some(code) => Fail(SignatureRejected(code))
  }

  /** A self-issued certificate ends the path when some anchor has its name; no signature is checked. */
  function EndSelfIssued(env: Env, cert: Certificate, st: State, d: Depth): Result<Report, ValidationError> {
    match Position(env.anchors, cert.subject)
    case None => Err(UntrustedRoot)
    case Some(a) =>
      var policies :- Finalized(st.policy);
      Ok(Report(d.chainLen, a, policies))
  }

  /** Otherwise the first anchor with the issuer's name ends it. */
  function EndAtAnchor(env: Env, cert: Certificate, st: State, d: Depth, a: nat): Result<Report, ValidationError>
    requires a < |env.anchors|
  {
    var p :- Cross(env, cert, env.anchors[a], st.policy, d.caHops);
    var policies :- Finalized(p);
    Ok(Report(d.chainLen + 1, a, policies))
  }

  /** What `validate_chain_step` returns. */
  function Search(env: Env, cert: Certificate, st: State, d: Depth): Result<Report, ValidationError>
    decreases HopsLeft(d.hop), 2, 0
  {
    if d.hop > 16 then Err(MaxChainDepthExceeded)
    else
      var entered :- Enter(env, cert, st, d.chainLen == 1);
      if SelfIssued(cert) then EndSelfIssued(env, cert, entered, d)
      else match Position(env.anchors, cert.issuer)
        case Some(a) => EndAtAnchor(env, cert, entered, d, a)
        case None => TryAll(env, cert, entered, d, Candidates(env.intermediates, cert.issuer), IssuerNotFound)
  }

  /** The first candidate that leads anywhere or panics, or the error of the last. */
  function TryAll(env: Env, cert: Certificate, st: State, d: Depth, candidates: seq<nat>, last: ValidationError): Result<Report, ValidationError>
    requires d.hop <= 16 && forall k :: 0 <= k < |candidates| ==> candidates[k] < |env.intermediates|
    decreases HopsLeft(d.hop), 1, |candidates|
  {
    if candidates == [] then Err(last)
    else match TryOne(env, cert, st, d, env.intermediates[candidates[0]])
      case Ok(report) => Ok(report)
      case Err(e) => if e == SliceInsideCharacter then Err(e) else TryAll(env, cert, st, d, candidates[1..], e)
  }

  function TryOne(env: Env, cert: Certificate, st: State, d: Depth, issuer: Certificate): Result<Report, ValidationError>
    requires d.hop <= 16
    decreases HopsLeft(d.hop), 0, 0
  {
    var p :- Cross(env, cert, issuer, st.policy, d.caHops);
    Search(env, issuer, State(st.visited, Descended(p, cert)), Deeper(d))
  }

  /** The mutable state of one branch of the search. */
  class ChainValidationState {
    var visited: seq<seq<u8>>
    var effective: Option<seq<Oid>>
    var explicitSkip: Option<u32>
    var anySkip: Option<u32>
    var mappingSkip: Option<u32>

    function Value(): State
      reads this
    {
      State(visited, Policies())
    }

    function Policies(): Policy
      reads this
    {
      Policy(effective, explicitSkip, anySkip, mappingSkip)
    }

    constructor (value: State)
      ensures Value() == value
    {
      visited := value.visited;
      effective := value.policy.effective;
      explicitSkip := value.policy.explicitSkip;
      anySkip := value.policy.anySkip;
      mappingSkip := value.policy.mappingSkip;
    }

    method UpdateInhibitAny(cert: Certificate)
      modifies this`anySkip
      ensures anySkip == Lowered(old(anySkip), cert.inhibitAny)
    {
      if cert.inhibitAny.Some? {
        var limit := cert.inhibitAny.value;
        anySkip := Some(if anySkip.Some? then Min(anySkip.value, limit) else limit);
      }
    }

    method UpdateExplicit(cert: Certificate)
      modifies this`explicitSkip
      ensures explicitSkip == Lowered(old(explicitSkip), cert.requireExplicit)
    {
      if cert.requireExplicit.Some? {
        var limit := cert.requireExplicit.value;
        explicitSkip := Some(if explicitSkip.Some? then Min(explicitSkip.value, limit) else limit);
      }
    }

    method UpdateMapping(cert: Certificate)
      modifies this`mappingSkip
      ensures mappingSkip == Lowered(old(mappingSkip), cert.inhibitMapping)
    {
      if cert.inhibitMapping.Some? {
        var limit := cert.inhibitMapping.value;
        mappingSkip := Some(if mappingSkip.Some? then Min(mappingSkip.value, limit) else limit);
      }
    }

    /** `update_effective_policies`; the retain loop filters in place. */
    method UpdateEffective(cert: Certificate)
      modifies this`effective
      ensures effective == Narrowed(old(effective), cert, anySkip == Some(0))
    {
      hide Unique, Retained;
      if cert.policies == [] {
        return;
      }
      var current := UniquePolicies(cert.policies);
      UniqueSame(cert.policies);
      if ANY_POLICY in current && anySkip != Some(0) {
        return;
      }
      if effective == None {
        effective := Some(current);
        return;
      }
      var existing, kept := effective.value, [];
      RetainedNone(current);
      for i := 0 to |existing|
        invariant kept == Retained(existing[..i], current)
      {
        RetainedStep(existing, current, i);
        if existing[i] in current {
          kept := kept + [existing[i]];
        }
      }
      assert existing[..|existing|] == existing;
      effective := Some(kept);
    }

    method ApplyMappings(issuer: Certificate)
      modifies this`effective
      ensures effective == Mapped(old(effective), issuer)
    {
      hide Unique, Remapped;
      if effective == None || issuer.mappings == [] {
        return;
      }
      var remapped := RemapPolicies(effective.value, issuer.mappings);
      var unique := UniquePolicies(remapped);
      effective := Some(unique);
    }

    /** The updates made for the certificate that becomes current. */
    method Enter(cert: Certificate) returns (r: Check)
      modifies this
      ensures visited == old(visited) && Policies() == Entered(old(Policies()), cert)
      ensures r == var c := CheckExplicit(Policies()); if c.Pass? then CheckMapping(Policies(), cert) else c
    {
      hide Narrowed;
      UpdateInhibitAny(cert);
      UpdateEffective(cert);
      UpdateExplicit(cert);
      r := CheckExplicit(Policies());
      UpdateMapping(cert);
      if r.Pass? {
        r := CheckMapping(Policies(), cert);
      }
    }

    /** The updates made for an issuer above the current certificate. */
    method Cross(issuer: Certificate, current: Certificate) returns (r: Check)
      modifies this
      ensures visited == old(visited) && Policies() == Crossed(old(Policies()), issuer)
      ensures r == var e := CheckExplicit(Policies());
                   if e.Fail? then e
                   else var c := CheckMapping(Policies(), current); if c.Fail? then c else CheckMapping(Policies(), issuer)
    {
      hide Narrowed, Mapped;
      ApplyMappings(issuer);
      r := Enter(issuer);
      if CheckExplicit(Policies()).Pass? {
        r := CheckMapping(Policies(), current);
        if r.Pass? {
          r := CheckMapping(Policies(), issuer);
        }
      }
    }

    method Descend(current: Certificate)
      modifies this
      ensures visited == old(visited) && Policies() == Descended(old(Policies()), current)
    {
      if SelfIssued(current) {
        return;
      }
      anySkip := Decremented(anySkip);
      explicitSkip := Decremented(explicitSkip);
      mappingSkip := Decremented(mappingSkip);
    }
  }

  lemma UniqueSame(s: seq<Oid>)
    ensures forall p :: p in Unique(s) <==> p in s
  {
  }

  lemma RetainedNone(t: seq<Oid>)
    ensures Retained([], t) == []
  {
  }

  lemma RetainedStep(s: seq<Oid>, t: seq<Oid>, i: nat)
    requires i < |s|
    ensures Retained(s[..i + 1], t) == Retained(s[..i], t) + if s[i] in t then [s[i]] else []
  {
    assert s[..i + 1][..i] == s[..i];
  }

  method FirstWithSubject(certs: seq<Certificate>, name: Name) returns (r: Option<nat>)
    ensures r == Position(certs, name)
  {
    for i := 0 to |certs|
      invariant PositionFrom(certs, name, i) == Position(certs, name)
    {
      if certs[i].subject == name {
        return Some(i);
      }
    }
    return None;
  }

  method FilterBySubject(certs: seq<Certificate>, name: Name) returns (r: seq<nat>)
    ensures r == Candidates(certs, name)
  {
    r := [];
    for i := 0 to |certs|
      invariant r == Candidates(certs[..i], name)
    {
      assert certs[..i + 1][..i] == certs[..i];
      if certs[i].subject == name {
        r := r + [i];
      }
    }
    assert certs[..|certs|] == certs;
  }

  method ValidateChainStep(env: Env, current: Certificate, chainLen: nat, caHops: nat, hop: nat, state: ChainValidationState)
    returns (r: Result<Report, ValidationError>)
    modifies state
    ensures r == Search(env, current, old(state.Value()), Depth(chainLen, caHops, hop))
    decreases HopsLeft(hop), 2
  {
    hide ValidateTime, ValidatePolicyAndRevocation, Entered, CheckExplicit, CheckMapping, Crossed, Candidates, Position, Finalized, TryAll;
    if hop > 16 {
      return Err(MaxChainDepthExceeded);
    }
    :- ValidateTime(current, env.now);
    :- ValidatePolicyAndRevocation(current, env.options, chainLen == 1);
    :- state.Enter(current);
    if current.serial in state.visited {
      return Err(ChainLoopDetected);
    }
    state.visited := state.visited + [current.serial];

    if SelfIssued(current) {
      var anchor := FirstWithSubject(env.anchors, current.subject);
      if anchor == None {
        return Err(UntrustedRoot);
      }
      var policies :- Finalized(state.Policies());
      return Ok(Report(chainLen, anchor.value, policies));
    }

    var anchor := FirstWithSubject(env.anchors, current.issuer);
    if anchor.Some? {
      r := CrossToAnchor(env, current, chainLen, caHops, anchor.value, state);
      return;
    }

    r := TryCandidates(env, current, chainLen, caHops, hop, state);
  }

  /** The loop over matching intermediates, each on its own clone of the state. */
  method TryCandidates(env: Env, current: Certificate, chainLen: nat, caHops: nat, hop: nat, state: ChainValidationState)
    returns (r: Result<Report, ValidationError>)
    requires hop <= 16
    ensures state.Value() == old(state.Value())
    ensures r == TryAll(env, current, state.Value(), Depth(chainLen, caHops, hop), Candidates(env.intermediates, current.issuer), IssuerNotFound)
    decreases HopsLeft(hop), 1
  {
    hide Candidates, TryOne;
    ghost var st, d := state.Value(), Depth(chainLen, caHops, hop);
    var candidates := FilterBySubject(env.intermediates, current.issuer);
    if candidates == [] {
      return Err(IssuerNotFound);
    }
    var lastError := IssuerNotFound;
    for i := 0 to |candidates|
      invariant state.Value() == st
      invariant TryAll(env, current, st, d, candidates[i..], lastError) == TryAll(env, current, st, d, candidates, IssuerNotFound)
    {
      var next := new ChainValidationState(state.Value());
      var result := TryCandidate(env, current, env.intermediates[candidates[i]], chainLen, caHops, hop, next);
      if result.Ok? || result.error == SliceInsideCharacter {
        return result;
      }
      lastError := result.error;
      assert candidates[i..][1..] == candidates[i + 1..];
    }
    return Err(lastError);
  }

  /** The closure that tries one candidate issuer. */
  method TryCandidate(env: Env, current: Certificate, issuer: Certificate, chainLen: nat, caHops: nat, hop: nat, next: ChainValidationState)
    returns (r: Result<Report, ValidationError>)
    requires hop <= 16
    modifies next
    ensures r == TryOne(env, current, old(next.Value()), Depth(chainLen, caHops, hop), issuer)
    decreases HopsLeft(hop), 0
  {
    hide ValidateTime, ValidatePolicyAndRevocation, Crossed, CheckExplicit, CheckMapping, ValidateIssuerConstraints, ValidateNameConstraints,
      Search, Descended;
    :- ValidateTime(issuer, env.now);
    :- ValidatePolicyAndRevocation(issuer, env.options, false);
    :- next.Cross(issuer, current);
    :- ValidateIssuerConstraints(issuer, caHops);
    :- CheckNameConstraints(issuer, current);
    :- CheckSignature(env, current, issuer);
    next.Descend(current);
    r := ValidateChainStep(env, issuer, chainLen + 1, caHops + 1, hop + 1, next);
  }

  method CrossToAnchor(env: Env, current: Certificate, chainLen: nat, caHops: nat, anchor: nat, state: ChainValidationState)
    returns (r: Result<Report, ValidationError>)
    requires anchor < |env.anchors|
    modifies state
    ensures r == EndAtAnchor(env, current, old(state.Value()), Depth(chainLen, caHops, 0), anchor)
  {
    hide ValidateTime, ValidatePolicyAndRevocation, Crossed, CheckExplicit, CheckMapping, ValidateIssuerConstraints, ValidateNameConstraints, Finalized;
    var issuer := env.anchors[anchor];
    :- ValidateTime(issuer, env.now);
    :- ValidatePolicyAndRevocation(issuer, env.options, false);
    :- state.Cross(issuer, current);
    :- ValidateIssuerConstraints(issuer, caHops);
    :- CheckNameConstraints(issuer, current);
    :- CheckSignature(env, current, issuer);
    var policies :- Finalized(state.Policies());
    return Ok(Report(chainLen + 1, anchor, policies));
  }

  /** What `validate_certificate_chain_internal` returns. */
  function Validation(leaf: Certificate, env: Env, now: Time): Result<Report, ValidationError> {
    if env.anchors == [] then Err(UntrustedRoot)
    else
      var canonical :- CanonicalTime(now);
      Search(env.(now := canonical), leaf, State([], Initial(env.options)), Start())
  }

  method ValidateCertificateChain(leaf: Certificate, env: Env, now: Time) returns (r: Result<Report, ValidationError>)
    ensures r == Validation(leaf, env, now)
  {
    if env.anchors == [] {
      return Err(UntrustedRoot);
    }
    var canonical :- CanonicalTime(now);
    var state := new ChainValidationState(State([], Initial(env.options)));
    r := ValidateChainStep(env.(now := canonical), leaf, 1, 0, 0, state);
  }
}
