/** When a list of certificates is a path, in closed form: skip counters as limits counted down, policies as an intersection. */
module PathConditions {
  import opened Words
  import opened Wrappers
  import opened Certificates
  import opened PathPolicy
  import opened PathSearch
  import opened PathTheorems
  import opened PathMeaning

  // Skip counters

  /** The three skip counters: explicit policy required, anyPolicy inhibited, mapping inhibited. */
  datatype Counter = Explicit | Any | Mapping

  function Limit(cert: Certificate, w: Counter): Option<u32> {
    match w
    case Explicit => cert.requireExplicit
    case Any => cert.inhibitAny
    case Mapping => cert.inhibitMapping
  }

  /** Whether the options of the call start the counter at zero. */
  predicate FromStart(options: Options, w: Counter) {
    match w
    case Explicit => options.requireExplicit
    case Any => false
    case Mapping => options.inhibitMapping
  }

  function Skip(p: Policy, w: Counter): Option<u32> {
    match w
    case Explicit => p.explicitSkip
    case Any => p.anySkip
    case Mapping => p.mappingSkip
  }

  /** Set, and at most t. */
  predicate Within(counter: Option<u32>, t: nat) {
    counter.Some? && counter.value <= t
  }

  /** How many certificates from i up to but not including j are not self-issued. */
  function Descents(env: Env, leaf: Certificate, ix: seq<nat>, i: nat, j: nat): nat
    requires j <= |ix| && InRange(env, ix)
  {
    if j <= i then 0
    else
      var last := CertAt(env, leaf, ix, j - 1);
      Descents(env, leaf, ix, i, j - 1) + if last.subject == last.issuer then 0 else 1
  }

  /** The limit certificate i sets has come down to t or less once certificate j is current; it counts from the step to i on. */
  predicate ReachesFrom(env: Env, leaf: Certificate, ix: seq<nat>, w: Counter, j: nat, t: nat, i: nat)
    requires i <= j <= |ix| && InRange(env, ix)
  {
    Within(Limit(CertAt(env, leaf, ix, i), w), t + Descents(env, leaf, ix, if i == 0 then 0 else i - 1, j))
  }

  /** The counter is at most t once certificate j is current: from the start, or by the limit of some certificate up to j. */
  predicate Reaches(env: Env, leaf: Certificate, ix: seq<nat>, w: Counter, j: nat, t: nat)
    requires j <= |ix| && InRange(env, ix)
  {
    FromStart(env.options, w) || exists i: nat :: i <= j && ReachesFrom(env, leaf, ix, w, j, t, i)
  }

  lemma WithinLowered(counter: Option<u32>, limit: Option<u32>, t: nat)
    ensures Within(Lowered(counter, limit), t) <==> Within(counter, t) || Within(limit, t)
  {
  }

  lemma WithinDecremented(counter: Option<u32>, t: nat)
    ensures Within(Decremented(counter), t) <==> Within(counter, t + 1)
  {
  }

  lemma EnteredSkips(p: Policy, cert: Certificate, w: Counter)
    ensures Skip(Entered(p, cert), w) == Lowered(Skip(p, w), Limit(cert, w))
    ensures Skip(Crossed(p, cert), w) == Lowered(Skip(p, w), Limit(cert, w))
  {
    hide Narrowed, Mapped;
  }

  lemma DescendedSkips(p: Policy, cert: Certificate, w: Counter)
    ensures Skip(Descended(p, cert), w) == if cert.subject == cert.issuer then Skip(p, w) else Decremented(Skip(p, w))
  {
  }

  /** Every counter at every certificate of a list, exactly. */
  lemma {:induction false} CountersAre(env: Env, leaf: Certificate, ix: seq<nat>, w: Counter, j: nat, t: nat)
    requires j <= |ix| && InRange(env, ix)
    ensures Within(Skip(PolicyAt(env, leaf, ix, j), w), t) <==> Reaches(env, leaf, ix, w, j, t)
  {
    hide Entered, Crossed, Descended, PolicyBefore, Within, Lowered, Decremented, Skip;
    var cert := CertAt(env, leaf, ix, j);
    EnteredSkips(PolicyBefore(env, leaf, ix, j), cert, w);
    WithinLowered(Skip(PolicyBefore(env, leaf, ix, j), w), Limit(cert, w), t);
    if j == 0 {
      StartSkips(env, leaf, ix, w, t);
    } else {
      var (below, p) := (CertAt(env, leaf, ix, j - 1), PolicyAt(env, leaf, ix, j - 1));
      var step := if below.subject == below.issuer then 0 else 1;
      CountersAre(env, leaf, ix, w, j - 1, t + step);
      BeforeIs(env, leaf, ix, j);
      DescendedSkips(Crossed(p, cert), below, w);
      EnteredSkips(p, cert, w);
      WithinDecremented(Skip(Crossed(p, cert), w), t);
      WithinLowered(Skip(p, w), Limit(cert, w), t + step);
      ReachesStep(env, leaf, ix, w, j, t, step);
    }
  }

  lemma BeforeIs(env: Env, leaf: Certificate, ix: seq<nat>, j: nat)
    requires 0 < j <= |ix| && InRange(env, ix)
    ensures PolicyBefore(env, leaf, ix, j)
         == Descended(Crossed(PolicyAt(env, leaf, ix, j - 1), CertAt(env, leaf, ix, j)), CertAt(env, leaf, ix, j - 1))
  {
    hide Descended, Crossed, PolicyAt;
  }

  lemma StartSkips(env: Env, leaf: Certificate, ix: seq<nat>, w: Counter, t: nat)
    requires InRange(env, ix)
    ensures PolicyBefore(env, leaf, ix, 0) == Initial(env.options)
    ensures Within(Skip(PolicyBefore(env, leaf, ix, 0), w), t) <==> FromStart(env.options, w)
    ensures Reaches(env, leaf, ix, w, 0, t) <==> FromStart(env.options, w) || Within(Limit(leaf, w), t)
  {
    if Within(Limit(leaf, w), t) {
      assert ReachesFrom(env, leaf, ix, w, 0, t, 0);
    }
  }

  lemma ReachesStep(env: Env, leaf: Certificate, ix: seq<nat>, w: Counter, j: nat, t: nat, step: nat)
    requires 0 < j <= |ix| && InRange(env, ix)
    requires var below := CertAt(env, leaf, ix, j - 1); step == if below.subject == below.issuer then 0 else 1
    ensures Reaches(env, leaf, ix, w, j, t) <==>
              Reaches(env, leaf, ix, w, j - 1, t + step) || Within(Limit(CertAt(env, leaf, ix, j), w), t + step)
    ensures Within(Limit(CertAt(env, leaf, ix, j), w), t) ==> Within(Limit(CertAt(env, leaf, ix, j), w), t + step)
  {
    hide Limit;
    forall i: nat | i <= j
      ensures ReachesFrom(env, leaf, ix, w, j, t, i) <==>
                if i < j then ReachesFrom(env, leaf, ix, w, j - 1, t + step, i) else Within(Limit(CertAt(env, leaf, ix, j), w), t + step)
    {
      assert Descents(env, leaf, ix, j - 1, j - 1) == 0;
    }
    if Within(Limit(CertAt(env, leaf, ix, j), w), t + step) {
      assert ReachesFrom(env, leaf, ix, w, j, t, j);
    }
    if Reaches(env, leaf, ix, w, j, t) && !FromStart(env.options, w) {
      var i: nat :| i <= j && ReachesFrom(env, leaf, ix, w, j, t, i);
      assert i < j ==> ReachesFrom(env, leaf, ix, w, j - 1, t + step, i);
    }
    if Reaches(env, leaf, ix, w, j - 1, t + step) && !FromStart(env.options, w) {
      var i: nat :| i <= j - 1 && ReachesFrom(env, leaf, ix, w, j - 1, t + step, i);
      assert ReachesFrom(env, leaf, ix, w, j, t, i);
    }
  }

  // Policies

  lemma NarrowedAre(effective: Option<seq<Oid>>, cert: Certificate, anyInhibited: bool, oid: Oid)
    ensures var (after, narrows) := (Narrowed(effective, cert, anyInhibited), cert.policies != [] && (ANY_POLICY in cert.policies ==> anyInhibited));
            && (after.Some? <==> effective.Some? || narrows)
            && (after.Some? ==> (oid in after.value <==> (effective.Some? ==> oid in effective.value) && (narrows ==> oid in cert.policies)))
  {
  }

  /** One crossing, mappings included: what is carried over, then the narrowing. */
  lemma CrossedAre(p: Policy, issuer: Certificate, oid: Oid)
    ensures var (after, inhibited) := (Crossed(p, issuer), Within(Lowered(p.anySkip, issuer.inhibitAny), 0));
            var narrows := issuer.policies != [] && (ANY_POLICY in issuer.policies ==> inhibited);
            && (after.effective.Some? <==> p.effective.Some? || narrows)
            && (after.effective.Some? ==>
                  (oid in after.effective.value <==> (p.effective.Some? ==> Carried(p.effective.value, issuer, oid)) && (narrows ==> oid in issuer.policies)))
  {
    hide Unique, Narrowed, Remapped;
    var any := Lowered(p.anySkip, issuer.inhibitAny);
    NarrowedAre(Mapped(p.effective, issuer), issuer, any == Some(0), oid);
    if p.effective.Some? {
      RemappedAre(p.effective.value, issuer.mappings, oid);
      UniqueSame(Remapped(p.effective.value, issuer.mappings));
    }
  }

  /** Present before and not mapped, or the image of one present before. */
  predicate Carried(policies: seq<Oid>, issuer: Certificate, oid: Oid) {
    || (oid in policies && forall m :: m in issuer.mappings ==> m.1 != oid)
    || (exists m :: m in issuer.mappings && m.0 == oid && m.1 in policies)
  }

  /** Certificate i limits the policies: it names some, and not anyPolicy unless that is inhibited there. */
  predicate Constrains(env: Env, leaf: Certificate, ix: seq<nat>, i: nat)
    requires i <= |ix| && InRange(env, ix)
  {
    var cert := CertAt(env, leaf, ix, i);
    cert.policies != [] && (ANY_POLICY in cert.policies ==> Reaches(env, leaf, ix, Any, i, 0))
  }

  /** Some certificate up to j limits the policies. */
  predicate Constrained(env: Env, leaf: Certificate, ix: seq<nat>, j: nat)
    requires j <= |ix| && InRange(env, ix)
  {
    exists i: nat :: i <= j && Constrains(env, leaf, ix, i)
  }

  /** Every certificate up to j that limits the policies names this one. */
  predicate NamedByAll(env: Env, leaf: Certificate, ix: seq<nat>, j: nat, oid: Oid)
    requires j <= |ix| && InRange(env, ix)
  {
    forall i: nat :: i <= j && Constrains(env, leaf, ix, i) ==> oid in CertAt(env, leaf, ix, i).policies
  }

  /** Without mappings, the policies at certificate j are those every limiting certificate names. */
  lemma {:induction false} PoliciesAre(env: Env, leaf: Certificate, ix: seq<nat>, j: nat, oid: Oid)
    requires j <= |ix| && InRange(env, ix) && forall i: nat :: i <= j ==> CertAt(env, leaf, ix, i).mappings == []
    ensures var effective := PolicyAt(env, leaf, ix, j).effective;
            && (effective.Some? <==> Constrained(env, leaf, ix, j))
            && (effective.Some? ==> (oid in effective.value <==> NamedByAll(env, leaf, ix, j, oid)))
  {
    hide Narrowed, Lowered, Constrains, CertAt, PolicyBefore;
    var (cert, p) := (CertAt(env, leaf, ix, j), PolicyBefore(env, leaf, ix, j));
    var inhibited := Lowered(p.anySkip, cert.inhibitAny) == Some(0);
    CountersAre(env, leaf, ix, Any, j, 0);
    NarrowedAre(p.effective, cert, inhibited, oid);
    ConstrainsIs(env, leaf, ix, j);
    if j == 0 {
      StartSkips(env, leaf, ix, Any, 0);
    } else {
      PoliciesAre(env, leaf, ix, j - 1, oid);
      var narrows := PoliciesStep(env, leaf, ix, j, oid);
    }
  }

  lemma ConstrainsIs(env: Env, leaf: Certificate, ix: seq<nat>, j: nat)
    requires j <= |ix| && InRange(env, ix)
    ensures Constrains(env, leaf, ix, j) <==>
              var cert := CertAt(env, leaf, ix, j);
              cert.policies != [] && (ANY_POLICY in cert.policies ==> Reaches(env, leaf, ix, Any, j, 0))
  {
    hide Reaches, CertAt;
  }

  /** Narrowing at the crossing and again on entry is narrowing on entry. */
  lemma PoliciesStep(env: Env, leaf: Certificate, ix: seq<nat>, j: nat, oid: Oid) returns (narrows: bool)
    requires 0 < j <= |ix| && InRange(env, ix) && CertAt(env, leaf, ix, j).mappings == []
    ensures var (was, before, cert) := (PolicyAt(env, leaf, ix, j - 1).effective, PolicyBefore(env, leaf, ix, j).effective, CertAt(env, leaf, ix, j));
            && (narrows ==> Constrains(env, leaf, ix, j))
            && (before.Some? <==> was.Some? || narrows)
            && (before.Some? ==> (oid in before.value <==> (was.Some? ==> oid in was.value) && (narrows ==> oid in cert.policies)))
  {
    hide Narrowed, Lowered, Constrains, CertAt, PolicyAt, Decremented, Crossed;
    var (p, cert, below) := (PolicyAt(env, leaf, ix, j - 1), CertAt(env, leaf, ix, j), CertAt(env, leaf, ix, j - 1));
    BeforeIs(env, leaf, ix, j);
    CrossedAre(p, cert, oid);
    ConstrainsIs(env, leaf, ix, j);
    var inhibited := Within(Lowered(p.anySkip, cert.inhibitAny), 0);
    narrows := cert.policies != [] && (ANY_POLICY in cert.policies ==> inhibited);
    if inhibited {
      ReachedAbove(env, leaf, ix, j);
    }
  }

  /** A counter that has run out at the crossing has run out above it. */
  lemma ReachedAbove(env: Env, leaf: Certificate, ix: seq<nat>, j: nat)
    requires 0 < j <= |ix| && InRange(env, ix)
    requires Within(Lowered(PolicyAt(env, leaf, ix, j - 1).anySkip, CertAt(env, leaf, ix, j).inhibitAny), 0)
    ensures Reaches(env, leaf, ix, Any, j, 0)
  {
    hide PolicyAt, CertAt, Reaches, Crossed, Entered, Descended, Lowered;
    var (p, cert, below) := (PolicyAt(env, leaf, ix, j - 1), CertAt(env, leaf, ix, j), CertAt(env, leaf, ix, j - 1));
    CountersAre(env, leaf, ix, Any, j, 0);
    BeforeIs(env, leaf, ix, j);
    EnteredSkips(p, cert, Any);
    DescendedSkips(Crossed(p, cert), below, Any);
    WithinDecremented(Skip(Crossed(p, cert), Any), 0);
    AtIs(env, leaf, ix, j);
    EnteredSkips(PolicyBefore(env, leaf, ix, j), cert, Any);
    WithinLowered(Skip(PolicyBefore(env, leaf, ix, j), Any), Limit(cert, Any), 0);
  }

  lemma AtIs(env: Env, leaf: Certificate, ix: seq<nat>, j: nat)
    requires j <= |ix| && InRange(env, ix)
    ensures PolicyAt(env, leaf, ix, j) == Entered(PolicyBefore(env, leaf, ix, j), CertAt(env, leaf, ix, j))
  {
    hide Entered, PolicyBefore, CertAt;
  }

  // Paths

  /** Valid at the instant, and as the options ask. */
  predicate Good(env: Env, cert: Certificate, isLeaf: bool)
    requires Canonical(env.now)
  {
    var (from, until) := (CanonicalTime(cert.notBefore), CanonicalTime(cert.notAfter));
    && from.Ok? && until.Ok? && Canonical(from.value) && Canonical(until.value)
    && Instant(from.value) <= Instant(env.now) <= Instant(until.value)
    && MeetsOptions(cert, env.options, isLeaf)
  }

  /** Certificate j: good, with a policy left if one is required there, and no mappings if they are inhibited there. */
  predicate GoodNode(env: Env, leaf: Certificate, ix: seq<nat>, j: nat)
    requires j <= |ix| && InRange(env, ix) && Canonical(env.now)
  {
    var cert := CertAt(env, leaf, ix, j);
    && Good(env, cert, j == 0)
    && (Reaches(env, leaf, ix, Explicit, j, 0) ==> Final(PolicyAt(env, leaf, ix, j)) != [])
    && (Reaches(env, leaf, ix, Mapping, j, 0) ==> cert.mappings == [])
  }

  /** A counter that has run out by certificate j or is set to zero by its issuer. */
  predicate RunsOut(env: Env, leaf: Certificate, ix: seq<nat>, w: Counter, j: nat, issuer: Certificate)
    requires j <= |ix| && InRange(env, ix)
  {
    Reaches(env, leaf, ix, w, j, 0) || Limit(issuer, w) == Some(0)
  }

  /** Certificate j was issued by this one, with j authorities below it. */
  predicate GoodLink(env: Env, leaf: Certificate, ix: seq<nat>, j: nat, issuer: Certificate)
    requires j <= |ix| && InRange(env, ix) && Canonical(env.now)
  {
    var cert := CertAt(env, leaf, ix, j);
    && issuer.subject == cert.issuer && Good(env, issuer, false)
    && MayIssue(issuer, j) && NamesAllowed(issuer, cert) && (env.enforceSignatures ==> env.verify(cert, issuer) == None)
    && (RunsOut(env, leaf, ix, Explicit, j, issuer) ==> Final(Crossed(PolicyAt(env, leaf, ix, j), issuer)) != [])
    && (RunsOut(env, leaf, ix, Mapping, j, issuer) ==> cert.mappings == [] && issuer.mappings == [])
  }

  predicate NamesAnchor(env: Env, name: Name) {
    exists a: nat :: a < |env.anchors| && env.anchors[a].subject == name
  }

  /** The first anchor of that name. */
  predicate FirstNamed(env: Env, name: Name, a: nat) {
    a < |env.anchors| && env.anchors[a].subject == name && forall b: nat :: b < a ==> env.anchors[b].subject != name
  }

  predicate GoodEnd(env: Env, leaf: Certificate, ix: seq<nat>)
    requires InRange(env, ix) && Canonical(env.now)
  {
    var last := CertAt(env, leaf, ix, |ix|);
    if last.subject == last.issuer then NamesAnchor(env, last.subject)
    else exists a: nat :: a < |env.anchors| && FirstNamed(env, last.issuer, a) && GoodLink(env, leaf, ix, |ix|, env.anchors[a])
  }

  /** Certificate j is not the end: it is not self-issued, no anchor has its issuer's name, and the next certificate issued it. */
  predicate GoodStep(env: Env, leaf: Certificate, ix: seq<nat>, j: nat)
    requires j < |ix| && InRange(env, ix) && Canonical(env.now)
  {
    var cert := CertAt(env, leaf, ix, j);
    cert.subject != cert.issuer && !NamesAnchor(env, cert.issuer) && GoodLink(env, leaf, ix, j, CertAt(env, leaf, ix, j + 1))
  }

  lemma GoodIs(env: Env, cert: Certificate, isLeaf: bool)
    requires Canonical(env.now)
    ensures ValidAt(env, cert, isLeaf) <==> Good(env, cert, isLeaf)
  {
    hide ValidateTime, CanonicalTime, Canonical, Instant, ValidatePolicyAndRevocation, MeetsOptions;
    TimeWindow(cert, env.now);
    OptionsCheckIs(cert, env.options, isLeaf);
  }

  lemma SatisfiedIs(p: Policy)
    ensures ExplicitSatisfied(p) <==> (Within(Skip(p, Explicit), 0) ==> Final(p) != [])
    ensures forall cert :: MappingAllowed(p, cert) <==> (Within(Skip(p, Mapping), 0) ==> cert.mappings == [])
  {
  }

  lemma NodeIs(env: Env, leaf: Certificate, ix: seq<nat>, j: nat)
    requires j <= |ix| && InRange(env, ix) && Canonical(env.now)
    ensures Node(env, leaf, ix, j) <==> GoodNode(env, leaf, ix, j)
  {
    hide ValidAt, Good, PolicyAt, CertAt, Reaches, Skip, Within, Final, ExplicitSatisfied, MappingAllowed, Canonical;
    GoodIs(env, CertAt(env, leaf, ix, j), j == 0);
    SatisfiedIs(PolicyAt(env, leaf, ix, j));
    CountersAre(env, leaf, ix, Explicit, j, 0);
    CountersAre(env, leaf, ix, Mapping, j, 0);
  }

  /** The conditions between a certificate and its issuer, whether that is the next certificate or the anchor. */
  lemma LinkIs(env: Env, leaf: Certificate, ix: seq<nat>, j: nat, issuer: Certificate)
    requires j <= |ix| && InRange(env, ix) && Canonical(env.now)
    ensures var (cert, crossed) := (CertAt(env, leaf, ix, j), Crossed(PolicyAt(env, leaf, ix, j), issuer));
            ValidAt(env, issuer, false) && PolicyHolds(crossed, issuer) && MappingAllowed(crossed, cert) && Issues(env, issuer, cert, j)
            <==> GoodLink(env, leaf, ix, j, issuer)
  {
    hide ValidAt, Good, PolicyAt, CertAt, Reaches, Skip, Within, Final, ExplicitSatisfied, MappingAllowed, Canonical, Crossed, NamesAllowed,
      MayIssue, ValidateIssuerConstraints, ValidateNameConstraints, Limit, Lowered;
    var (cert, p) := (CertAt(env, leaf, ix, j), PolicyAt(env, leaf, ix, j));
    GoodIs(env, issuer, false);
    IssuerCheckIs(issuer, j);
    NamesCheckIs(issuer, cert);
    SatisfiedIs(Crossed(p, issuer));
    forall w ensures Within(Skip(Crossed(p, issuer), w), 0) <==> RunsOut(env, leaf, ix, w, j, issuer) {
      EnteredSkips(p, issuer, w);
      WithinLowered(Skip(p, w), Limit(issuer, w), 0);
      CountersAre(env, leaf, ix, w, j, 0);
      WithinZero(Limit(issuer, w));
    }
  }

  lemma WithinZero(limit: Option<u32>)
    ensures Within(limit, 0) <==> limit == Some(0)
  {
  }

  lemma AnchorNamed(env: Env, name: Name)
    ensures Position(env.anchors, name).Some? <==> NamesAnchor(env, name)
    ensures forall a: nat :: FirstNamed(env, name, a) <==> Position(env.anchors, name) == Some(a)
  {
    var p := Position(env.anchors, name);
    forall a: nat | FirstNamed(env, name, a) ensures p == Some(a) {
      assert env.anchors[a].subject == name;
    }
  }

  lemma StepIsGood(env: Env, leaf: Certificate, ix: seq<nat>, j: nat)
    requires j < |ix| && InRange(env, ix) && Canonical(env.now)
    ensures Link(env, leaf, ix, j) <==> GoodStep(env, leaf, ix, j)
  {
    hide ValidAt, GoodLink, PolicyAt, CertAt, Canonical, Crossed, Issues, PolicyHolds, MappingAllowed, Position, NamesAnchor;
    LinkIs(env, leaf, ix, j, CertAt(env, leaf, ix, j + 1));
    AnchorNamed(env, CertAt(env, leaf, ix, j).issuer);
  }

  lemma EndIsGood(env: Env, leaf: Certificate, ix: seq<nat>)
    requires InRange(env, ix) && Canonical(env.now)
    ensures EndsAtAnchor(env, leaf, ix) <==> GoodEnd(env, leaf, ix)
  {
    hide ValidAt, GoodLink, PolicyAt, CertAt, Canonical, Crossed, Issues, PolicyHolds, MappingAllowed, Position, NamesAnchor, FirstNamed;
    var last := CertAt(env, leaf, ix, |ix|);
    AnchorNamed(env, last.subject);
    AnchorNamed(env, last.issuer);
    var a := Position(env.anchors, last.issuer);
    if a.Some? {
      LinkIs(env, leaf, ix, |ix|, env.anchors[a.value]);
      assert FirstNamed(env, last.issuer, a.value);
    }
  }

  /** A list of intermediates is a path exactly on these conditions on the certificates, the anchors, the instant and the options. */
  lemma PathIff(env: Env, leaf: Certificate, ix: seq<nat>)
    requires Canonical(env.now)
    ensures IsPath(env, leaf, ix) <==>
              && InRange(env, ix) && |ix| <= 16
              && (forall j: nat :: j <= |ix| ==> GoodNode(env, leaf, ix, j))
              && (forall j: nat :: j < |ix| ==> GoodStep(env, leaf, ix, j))
              && (forall i: nat, j: nat :: i < j <= |ix| ==> CertAt(env, leaf, ix, i).serial != CertAt(env, leaf, ix, j).serial)
              && GoodEnd(env, leaf, ix)
  {
    hide GoodNode, GoodStep, GoodEnd, Node, Link, EndsAtAnchor, Canonical, CertAt;
    if InRange(env, ix) {
      forall j: nat | j <= |ix| ensures Node(env, leaf, ix, j) <==> GoodNode(env, leaf, ix, j) {
        NodeIs(env, leaf, ix, j);
      }
      forall j: nat | j < |ix| ensures Link(env, leaf, ix, j) <==> GoodStep(env, leaf, ix, j) {
        StepIsGood(env, leaf, ix, j);
      }
      EndIsGood(env, leaf, ix);
      forall i: nat, j: nat | i < j <= |ix|
        ensures SerialsDiffer(env, leaf, ix, i, j) <==> CertAt(env, leaf, ix, i).serial != CertAt(env, leaf, ix, j).serial
      {
      }
    }
  }

  /** The report: how many certificates, the anchor counted unless the last one stands for it; which anchor; and the policies left. */
  lemma ReportIs(env: Env, leaf: Certificate, ix: seq<nat>)
    requires IsPath(env, leaf, ix)
    ensures var (r, last, policy) := (ReportOf(env, leaf, ix), CertAt(env, leaf, ix, |ix|), PolicyAt(env, leaf, ix, |ix|));
            if last.subject == last.issuer then
              r.chainLen == |ix| + 1 && FirstNamed(env, last.subject, r.anchor) && r.policies == Final(policy)
            else
              r.chainLen == |ix| + 2 && FirstNamed(env, last.issuer, r.anchor) && r.policies == Final(Crossed(policy, env.anchors[r.anchor]))
  {
    hide PolicyAt, CertAt, Crossed, Issues, PolicyHolds, MappingAllowed, ValidAt, Final, Walks;
    AnchorNamed(env, CertAt(env, leaf, ix, |ix|).subject);
    AnchorNamed(env, CertAt(env, leaf, ix, |ix|).issuer);
  }

  /** The issuer above certificate j of a path: the next certificate, or the first anchor with the issuer's name. */
  function IssuerAbove(env: Env, leaf: Certificate, ix: seq<nat>, j: nat): Certificate
    requires IsPath(env, leaf, ix) && j <= |ix| && (j == |ix| ==> !SelfIssued(Last(env, leaf, ix)))
  {
    if j < |ix| then CertAt(env, leaf, ix, j + 1) else env.anchors[Position(env.anchors, Last(env, leaf, ix).issuer).value]
  }

  /** Every issuer on a path is an authority that may sign certificates, within its path length, and constrains no name below it. */
  lemma IssuersOnPath(env: Env, leaf: Certificate, ix: seq<nat>, j: nat)
    requires IsPath(env, leaf, ix) && j <= |ix| && (j == |ix| ==> !SelfIssued(Last(env, leaf, ix)))
    ensures var (cert, issuer) := (CertAt(env, leaf, ix, j), IssuerAbove(env, leaf, ix, j));
            && issuer.subject == cert.issuer && issuer.ca == Some(true)
            && (issuer.keyUsage.Some? ==> BitAt(issuer.keyUsage.value, 2) == 1)
            && (issuer.pathLen.Some? ==> j <= issuer.pathLen.value)
            && NamesAllowed(issuer, cert) && MeetsOptions(issuer, env.options, false)
  {
    hide PolicyAt, Crossed, PolicyHolds, MappingAllowed, ValidateIssuerConstraints, ValidateNameConstraints, ValidateTime,
      ValidatePolicyAndRevocation, NamesAllowed, MeetsOptions, BitAt;
    var (cert, issuer) := (CertAt(env, leaf, ix, j), IssuerAbove(env, leaf, ix, j));
    if j < |ix| {
      assert Link(env, leaf, ix, j);
    }
    IssuerCheckIs(issuer, j);
    NamesCheckIs(issuer, cert);
    OptionsCheckIs(issuer, env.options, false);
  }
}
