/** The policy state a path search carries from the leaf toward the root: effective policies and three skip counters. */
module PathPolicy {
  import opened Words
  import opened Wrappers
  import opened Certificates

  const ANY_POLICY: Oid := [0x55, 0x1d, 0x20, 0x00]

  /** Effective policies (absent before the first certificate that names any) and the skip counters. */
  datatype Policy = Policy(
    effective: Option<seq<Oid>>,
    explicitSkip: Option<u32>,
    anySkip: Option<u32>,
    mappingSkip: Option<u32>)

  function Initial(options: Options): Policy {
    Policy(None, if options.requireExplicit then Some(0) else None, None, if options.inhibitMapping then Some(0) else None)
  }

  predicate Distinct<T(==)>(s: seq<T>) {
    forall i, j :: 0 <= i < j < |s| ==> s[i] != s[j]
  }

  /** First occurrences, in order. */
  function Unique(s: seq<Oid>): (r: seq<Oid>)
    ensures Distinct(r)
    ensures forall p :: p in r <==> p in s
    ensures |r| <= |s|
  {
    if s == [] then []
    else
      var rest := Unique(s[..|s| - 1]);
      var last := s[|s| - 1];
      assert s == s[..|s| - 1] + [last];
      if last in rest then rest else rest + [last]
  }

  method UniquePolicies(policies: seq<Oid>) returns (out: seq<Oid>)
    ensures out == Unique(policies)
  {
    out := [];
    for i := 0 to |policies|
      invariant out == Unique(policies[..i])
    {
      assert policies[..i + 1][..i] == policies[..i];
      if policies[i] !in out {
        out := out + [policies[i]];
      }
    }
    assert policies[..|policies|] == policies;
  }

  /** The policies of `s` that also occur in `t`. */
  function Retained(s: seq<Oid>, t: seq<Oid>): (r: seq<Oid>)
    ensures forall p :: p in r <==> p in s && p in t
    ensures Distinct(s) ==> Distinct(r)
  {
    if s == [] then []
    else
      var rest := Retained(s[..|s| - 1], t);
      assert s == s[..|s| - 1] + [s[|s| - 1]];
      if s[|s| - 1] in t then rest + [s[|s| - 1]] else rest
  }

  /** Narrowing by one certificate; anyPolicy narrows nothing unless it is inhibited. */
  function Narrowed(effective: Option<seq<Oid>>, cert: Certificate, anyInhibited: bool): Option<seq<Oid>> {
    if cert.policies == [] then effective
    else if ANY_POLICY in cert.policies && !anyInhibited then effective
    else match effective
      case None => Some(Unique(cert.policies))
      case Some(existing) => Some(Retained(existing, Unique(cert.policies)))
  }

  /** Issuer policies a subject policy maps to, in mapping order, or the policy itself. */
  function Targets(policy: Oid, mappings: seq<(Oid, Oid)>): seq<Oid> {
    if mappings == [] then []
    else
      var last := mappings[|mappings| - 1];
      Targets(policy, mappings[..|mappings| - 1]) + if last.1 == policy then [last.0] else []
  }

  function Remapped(policies: seq<Oid>, mappings: seq<(Oid, Oid)>): seq<Oid> {
    if policies == [] then []
    else
      var last := policies[|policies| - 1];
      var targets := Targets(last, mappings);
      Remapped(policies[..|policies| - 1], mappings) + if targets == [] then [last] else targets
  }

  lemma {:induction false} TargetsAre(policy: Oid, mappings: seq<(Oid, Oid)>, p: Oid)
    ensures p in Targets(policy, mappings) <==> (p, policy) in mappings
  {
    if mappings != [] {
      var front, last := mappings[..|mappings| - 1], mappings[|mappings| - 1];
      TargetsAre(policy, front, p);
      assert mappings == front + [last];
    }
  }

  /** After mapping, a policy is present when it was and nothing maps it, or when it is the image of one that was. */
  lemma {:induction false} RemappedAre(policies: seq<Oid>, mappings: seq<(Oid, Oid)>, p: Oid)
    ensures p in Remapped(policies, mappings) <==>
              || (p in policies && forall m :: m in mappings ==> m.1 != p)
              || (exists m :: m in mappings && m.0 == p && m.1 in policies)
  {
    if policies != [] {
      var front, last := policies[..|policies| - 1], policies[|policies| - 1];
      RemappedAre(front, mappings, p);
      assert policies == front + [last];
      TargetsAre(last, mappings, p);
      if Targets(last, mappings) == [] {
        forall m | m in mappings ensures m.1 != last {
          TargetsAre(last, mappings, m.0);
        }
      } else {
        var t := Targets(last, mappings)[0];
        TargetsAre(last, mappings, t);
        assert (t, last) in mappings;
      }
      if (p, last) in mappings {
        assert (p, last).0 == p;
      }
    }
  }

  lemma TargetsStep(policy: Oid, mappings: seq<(Oid, Oid)>, j: nat)
    requires j < |mappings|
    ensures Targets(policy, mappings[..j + 1])
         == Targets(policy, mappings[..j]) + if mappings[j].1 == policy then [mappings[j].0] else []
  {
    assert mappings[..j + 1][..j] == mappings[..j];
  }

  lemma RemappedStep(policies: seq<Oid>, mappings: seq<(Oid, Oid)>, i: nat)
    requires i < |policies|
    ensures Remapped(policies[..i + 1], mappings)
         == Remapped(policies[..i], mappings)
            + if Targets(policies[i], mappings) == [] then [policies[i]] else Targets(policies[i], mappings)
  {
    assert policies[..i + 1][..i] == policies[..i];
  }

  /** The nested loops of `apply_policy_mappings_for_issuer`. */
  method RemapPolicies(policies: seq<Oid>, mappings: seq<(Oid, Oid)>) returns (remapped: seq<Oid>)
    ensures remapped == Remapped(policies, mappings)
  {
    hide Targets, Remapped;
    remapped := [];
    NothingMapped(mappings);
    for i := 0 to |policies|
      invariant remapped == Remapped(policies[..i], mappings)
    {
      var policy := policies[i];
      ghost var before := remapped;
      var mapped := false;
      NoTargets(policy);
      for j := 0 to |mappings|
        invariant remapped == before + Targets(policy, mappings[..j])
        invariant mapped <==> Targets(policy, mappings[..j]) != []
      {
        TargetsStep(policy, mappings, j);
        if policy == mappings[j].1 {
          remapped := remapped + [mappings[j].0];
          mapped := true;
        }
      }
      assert mappings[..|mappings|] == mappings;
      if !mapped {
        remapped := remapped + [policy];
      }
      RemappedStep(policies, mappings, i);
    }
    assert policies[..|policies|] == policies;
  }

  lemma NothingMapped(mappings: seq<(Oid, Oid)>)
    ensures Remapped([], mappings) == []
  {
  }

  lemma NoTargets(policy: Oid)
    ensures Targets(policy, []) == []
  {
  }

  function Mapped(effective: Option<seq<Oid>>, issuer: Certificate): Option<seq<Oid>> {
    match effective
    case None => None
    case Some(existing) => if issuer.mappings == [] then effective else Some(Unique(Remapped(existing, issuer.mappings)))
  }

  /** A counter takes the smaller of its value and a new limit. */
  function Lowered(counter: Option<u32>, limit: Option<u32>): (r: Option<u32>)
    ensures r == None <==> counter == None && limit == None
  {
    match (counter, limit)
    case (_, None) => counter
    case (None, Some(_)) => limit
    case (Some(c), Some(l)) => Some(Min(c, l))
  }

  function Decremented(counter: Option<u32>): Option<u32> {
    match counter
    case Some(c) => Some(if c == 0 then 0 else c - 1)
    case None => None
  }

  /** A certificate becomes the current one. */
  function Entered(p: Policy, cert: Certificate): Policy {
    var any := Lowered(p.anySkip, cert.inhibitAny);
    Policy(
      Narrowed(p.effective, cert, any == Some(0)),
      Lowered(p.explicitSkip, cert.requireExplicit),
      any,
      Lowered(p.mappingSkip, cert.inhibitMapping))
  }

  /** Its issuer is applied above it: mappings first, then as for a current certificate. */
  function Crossed(p: Policy, issuer: Certificate): Policy {
    Entered(p.(effective := Mapped(p.effective, issuer)), issuer)
  }

  /** The counters go down when the search moves on from a certificate that is not self-issued. */
  function Descended(p: Policy, current: Certificate): Policy {
    if SelfIssued(current) then p
    else Policy(p.effective, Decremented(p.explicitSkip), Decremented(p.anySkip), Decremented(p.mappingSkip))
  }

  predicate ExplicitSatisfied(p: Policy) {
    p.explicitSkip == Some(0) ==> p.effective.Some? && p.effective.value != []
  }

  function CheckExplicit(p: Policy): Check {
    if ExplicitSatisfied(p) then Pass else Fail(ExplicitPolicyRequired)
  }

  predicate MappingAllowed(p: Policy, cert: Certificate) {
    p.mappingSkip == Some(0) ==> cert.mappings == []
  }

  function CheckMapping(p: Policy, cert: Certificate): Check {
    if MappingAllowed(p, cert) then Pass else Fail(PolicyMappingInhibited)
  }

  /** The report's policies. */
  function Final(p: Policy): (r: seq<Oid>) {
    if p.effective.Some? then p.effective.value else []
  }

  /** `finalize_effective_policies`. */
  function Finalized(p: Policy): Result<seq<Oid>, ValidationError> {
    if p.explicitSkip == Some(0) && Final(p) == [] then Err(ExplicitPolicyRequired) else Ok(Final(p))
  }

  /** No policy is ever listed twice. */
  predicate NoRepeats(p: Policy) {
    p.effective.Some? ==> Distinct(p.effective.value)
  }

  lemma StepsKeepDistinct(p: Policy, cert: Certificate)
    requires NoRepeats(p)
    ensures NoRepeats(Entered(p, cert)) && NoRepeats(Crossed(p, cert)) && NoRepeats(Descended(p, cert))
  {
  }

  /** Without mappings, policies are only ever lost: what survives a crossing was there before, or nothing had been named. */
  lemma CrossingOnlyNarrows(p: Policy, issuer: Certificate, oid: Oid)
    requires issuer.mappings == [] && p.effective.Some? && oid in Final(Crossed(p, issuer))
    ensures oid in p.effective.value
    ensures oid in issuer.policies || issuer.policies == [] || ANY_POLICY in issuer.policies
  {
  }

  /** Once a counter is set it never goes back up and never becomes unset. */
  predicate NoHigher(now: Option<u32>, before: Option<u32>) {
    before.Some? ==> now.Some? && now.value <= before.value
  }

  lemma CountersOnlyFall(p: Policy, cert: Certificate)
    ensures forall q :: q in [Entered(p, cert), Crossed(p, cert), Descended(p, cert)] ==>
              NoHigher(q.explicitSkip, p.explicitSkip) && NoHigher(q.anySkip, p.anySkip) && NoHigher(q.mappingSkip, p.mappingSkip)
  {
    hide Narrowed, Mapped;
  }

  // Order

  /** Retained policies keep the order of the list they come from. */
  lemma {:induction false} RetainedParts(a: seq<Oid>, b: seq<Oid>, p: Oid, t: seq<Oid>)
    ensures Retained(a + b, t) == Retained(a, t) + Retained(b, t)
    ensures Retained([p], t) == if p in t then [p] else []
  {
    hide Retained;
    RetainedLast([], p, t);
    assert [] + [p] == [p];
    if b == [] {
      assert a + b == a;
      RetainedLast(a, p, t);
    } else {
      var (front, last) := (b[..|b| - 1], b[|b| - 1]);
      RetainedParts(a, front, p, t);
      assert b == front + [last] && a + b == (a + front) + [last];
      RetainedLast(a + front, last, t);
      RetainedLast(front, last, t);
    }
  }

  lemma RetainedLast(s: seq<Oid>, p: Oid, t: seq<Oid>)
    ensures Retained([], t) == []
    ensures Retained(s + [p], t) == Retained(s, t) + if p in t then [p] else []
  {
    assert (s + [p])[..|s|] == s;
  }

  /** A new policy is listed after the ones before it, a repeated one not again. */
  lemma UniqueGrows(s: seq<Oid>, p: Oid)
    ensures Unique([]) == []
    ensures Unique(s + [p]) == Unique(s) + if p in s then [] else [p]
  {
    assert (s + [p])[..|s|] == s;
    assert Unique(s) + [] == Unique(s);
  }

  /** Policies are mapped one by one, in order, each to its issuer policies in the order of the mappings. */
  lemma {:induction false} RemappedParts(a: seq<Oid>, b: seq<Oid>, p: Oid, mappings: seq<(Oid, Oid)>, m: (Oid, Oid))
    ensures Remapped(a + b, mappings) == Remapped(a, mappings) + Remapped(b, mappings)
    ensures Remapped([p], mappings) == if Targets(p, mappings) == [] then [p] else Targets(p, mappings)
    ensures Targets(p, mappings + [m]) == Targets(p, mappings) + if m.1 == p then [m.0] else []
  {
    hide Targets;
    assert [p][..0] == [];
    TargetsStep(p, mappings + [m], |mappings|);
    assert (mappings + [m])[..|mappings| + 1] == mappings + [m] && (mappings + [m])[..|mappings|] == mappings;
    if b == [] {
      assert a + b == a && Remapped(a, mappings) + [] == Remapped(a, mappings);
    } else {
      var last := |b| - 1;
      RemappedParts(a, b[..last], p, mappings, m);
      assert (a + b)[..|a + b| - 1] == a + b[..last];
    }
  }

  lemma NarrowedKeepsOrder(a: seq<Oid>, b: seq<Oid>, cert: Certificate, anyInhibited: bool)
    ensures var (left, right, both) := (Narrowed(Some(a), cert, anyInhibited), Narrowed(Some(b), cert, anyInhibited), Narrowed(Some(a + b), cert, anyInhibited));
            left.Some? && right.Some? && both == Some(left.value + right.value)
  {
    hide Retained, Unique;
    RetainedParts(a, b, ANY_POLICY, Unique(cert.policies));
  }
}
