/**
 The path search against a declarative notion of path: a list of intermediates, each the issuer of the
 one before. The search does what the first decisive list, in list order, makes it do: it reports that
 path, or panics where reading a certificate's times does.
 */
module PathTheorems {
  import opened Words
  import opened Wrappers
  import opened Certificates
  import opened PathPolicy
  import opened PathSearch

  // One fixed list of intermediates followed to its end

  /** How following a list can end other than in an error. */
  datatype Outcome = Accepted(report: Report) | Panicked

  function Ended(r: Result<Report, ValidationError>): Option<Outcome> {
    match r
    case Ok(report) => Some(Accepted(report))
    case Err(e) => if e == SliceInsideCharacter then Some(Panicked) else None
  }

  /** The outcome for exactly the candidate list `ix` from `cert` on, if every check along it passes or its last one panics. */
  function Follow(env: Env, cert: Certificate, st: State, d: Depth, ix: seq<nat>): Option<Outcome>
    decreases |ix|, 1
  {
    if d.hop > 16 then None
    else match Enter(env, cert, st, d.chainLen == 1)
      case Err(e) => if ix == [] then Ended(Err(e)) else None
      case Ok(entered) =>
        if SelfIssued(cert) then
          if ix == [] then Ended(EndSelfIssued(env, cert, entered, d)) else None
        else match Position(env.anchors, cert.issuer)
          case Some(a) => if ix == [] then Ended(EndAtAnchor(env, cert, entered, d, a)) else None
          case None => FollowVia(env, cert, entered, d, ix)
  }

  function FollowVia(env: Env, cert: Certificate, st: State, d: Depth, ix: seq<nat>): Option<Outcome>
    decreases |ix|, 0
  {
    if ix == [] || ix[0] >= |env.intermediates| || env.intermediates[ix[0]].subject != cert.issuer then None
    else
      var issuer := env.intermediates[ix[0]];
      match Cross(env, cert, issuer, st.policy, d.caHops)
      case Err(e) => if |ix| == 1 then Ended(Err(e)) else None
      case Ok(p) => Follow(env, issuer, State(st.visited, Descended(p, cert)), Deeper(d), ix[1..])
  }

  /** List order of two paths, by the first place they differ. */
  predicate Precedes(a: seq<nat>, b: seq<nat>) {
    a != [] && b != [] && (a[0] < b[0] || (a[0] == b[0] && Precedes(a[1..], b[1..])))
  }

  lemma {:induction false} PrecedesOneWay(a: seq<nat>, b: seq<nat>)
    requires Precedes(a, b)
    ensures !Precedes(b, a)
  {
    if a[0] == b[0] {
      PrecedesOneWay(a[1..], b[1..]);
    }
  }

  /** `ix` is followed to `o`, and every other list that can be followed comes later. */
  ghost predicate FirstFollowed(env: Env, cert: Certificate, st: State, d: Depth, ix: seq<nat>, o: Outcome) {
    && Follow(env, cert, st, d, ix) == Some(o)
    && forall iy: seq<nat> :: Follow(env, cert, st, d, iy).Some? && iy != ix ==> Precedes(ix, iy)
  }

  /** The same below one certificate, for lists whose first index is among the candidates. */
  ghost predicate FirstAmong(env: Env, cert: Certificate, st: State, d: Depth, candidates: seq<nat>, ix: seq<nat>, o: Outcome) {
    && ix != [] && ix[0] in candidates
    && FollowVia(env, cert, st, d, ix) == Some(o)
    && forall iy: seq<nat> :: iy != [] && iy[0] in candidates && FollowVia(env, cert, st, d, iy).Some? && iy != ix ==> Precedes(ix, iy)
  }

  ghost predicate NoneAmong(env: Env, cert: Certificate, st: State, d: Depth, candidates: seq<nat>) {
    forall iy: seq<nat> :: iy != [] && iy[0] in candidates ==> FollowVia(env, cert, st, d, iy) == None
  }

  ghost predicate Matching(env: Env, cert: Certificate, candidates: seq<nat>) {
    forall k :: 0 <= k < |candidates| ==> candidates[k] < |env.intermediates| && env.intermediates[candidates[k]].subject == cert.issuer
  }

  /** The search ends as the first list that can be followed does; it fails exactly when there is none. */
  lemma {:induction false} SearchFindsFirst(env: Env, cert: Certificate, st: State, d: Depth) returns (ix: seq<nat>)
    ensures var o := Ended(Search(env, cert, st, d));
            && (o.Some? ==> FirstFollowed(env, cert, st, d, ix, o.value))
            && (o.None? ==> forall iy: seq<nat> :: Follow(env, cert, st, d, iy) == None)
    decreases HopsLeft(d.hop), 2, 0
  {
    hide Enter, Cross, EndSelfIssued, EndAtAnchor, Position, Candidates, FollowVia, TryAll, Precedes;
    ix := [];
    if d.hop <= 16 && Enter(env, cert, st, d.chainLen == 1).Ok? {
      var entered := Enter(env, cert, st, d.chainLen == 1).value;
      if !SelfIssued(cert) && Position(env.anchors, cert.issuer) == None {
        var candidates := Candidates(env.intermediates, cert.issuer);
        ix := TryFindsFirst(env, cert, entered, d, candidates, IssuerNotFound);
        forall iy: seq<nat> | FollowVia(env, cert, entered, d, iy).Some? ensures iy != [] && iy[0] in candidates {
          ViaCandidate(env, cert, entered, d, iy);
        }
      }
    }
  }

  /** A list can only be followed through a matching intermediate. */
  lemma ViaCandidate(env: Env, cert: Certificate, st: State, d: Depth, iy: seq<nat>)
    requires FollowVia(env, cert, st, d, iy).Some?
    ensures iy != [] && iy[0] in Candidates(env.intermediates, cert.issuer)
  {
    hide Candidates, Cross, Follow;
  }

  lemma {:induction false} TryFindsFirst(env: Env, cert: Certificate, st: State, d: Depth, candidates: seq<nat>, last: ValidationError)
    returns (ix: seq<nat>)
    requires d.hop <= 16 && Increasing(candidates) && Matching(env, cert, candidates) && last != SliceInsideCharacter
    ensures var o := Ended(TryAll(env, cert, st, d, candidates, last));
            && (o.Some? ==> FirstAmong(env, cert, st, d, candidates, ix, o.value))
            && (o.None? ==> NoneAmong(env, cert, st, d, candidates))
    decreases HopsLeft(d.hop), 1, |candidates|
  {
    hide Search, Cross, Follow, FollowVia, TryOne, FirstAmong, NoneAmong;
    ix := [];
    if candidates == [] {
      NothingUnder(env, cert, st, d);
    }
    if candidates != [] {
      var c := candidates[0];
      var one := TryOne(env, cert, st, d, env.intermediates[c]);
      var tail := OneFindsFirst(env, cert, st, d, c);
      if Ended(one).Some? {
        ix := [c] + tail;
        EarlierCandidate(env, cert, st, d, candidates, ix, Ended(one).value);
      } else {
        ix := TryFindsFirst(env, cert, st, d, candidates[1..], one.error);
        LaterCandidate(env, cert, st, d, candidates, ix, Ended(TryAll(env, cert, st, d, candidates[1..], one.error)));
      }
    }
  }

  lemma NothingUnder(env: Env, cert: Certificate, st: State, d: Depth)
    ensures NoneAmong(env, cert, st, d, [])
  {
  }

  /** When nothing lies under the first candidate, the rest decide. */
  lemma LaterCandidate(env: Env, cert: Certificate, st: State, d: Depth, candidates: seq<nat>, ix: seq<nat>, o: Option<Outcome>)
    requires candidates != [] && NoneAmong(env, cert, st, d, [candidates[0]])
    requires o.Some? ==> FirstAmong(env, cert, st, d, candidates[1..], ix, o.value)
    requires o.None? ==> NoneAmong(env, cert, st, d, candidates[1..])
    ensures o.Some? ==> FirstAmong(env, cert, st, d, candidates, ix, o.value)
    ensures o.None? ==> NoneAmong(env, cert, st, d, candidates)
  {
    hide FollowVia, Precedes;
    assert candidates == [candidates[0]] + candidates[1..];
    assert candidates[0] in [candidates[0]];
    forall iy: seq<nat> | iy != [] && iy[0] in candidates && FollowVia(env, cert, st, d, iy).Some? ensures iy[0] in candidates[1..] {
    }
  }

  /** Everything under candidate c: the first list through it, or none. */
  lemma OneFindsFirst(env: Env, cert: Certificate, st: State, d: Depth, c: nat) returns (tail: seq<nat>)
    requires d.hop <= 16 && c < |env.intermediates| && env.intermediates[c].subject == cert.issuer
    ensures var o := Ended(TryOne(env, cert, st, d, env.intermediates[c]));
            && (o.Some? ==> FirstAmong(env, cert, st, d, [c], [c] + tail, o.value))
            && (o.None? ==> NoneAmong(env, cert, st, d, [c]))
    decreases HopsLeft(d.hop), 0, 0
  {
    hide Search, Cross, Follow;
    var issuer := env.intermediates[c];
    tail := [];
    var crossed := Cross(env, cert, issuer, st.policy, d.caHops);
    if crossed.Ok? {
      var next := State(st.visited, Descended(crossed.value, cert));
      tail := SearchFindsFirst(env, issuer, next, Deeper(d));
      assert ([c] + tail)[1..] == tail;
      forall iy: seq<nat> | iy != [] && iy[0] in [c] && iy != [c] + tail && FollowVia(env, cert, st, d, iy).Some?
        ensures Ended(TryOne(env, cert, st, d, issuer)).Some? ==> Precedes([c] + tail, iy)
      {
        assert iy == [c] + iy[1..];
        assert Follow(env, issuer, next, Deeper(d), iy[1..]).Some?;
      }
      if Ended(TryOne(env, cert, st, d, issuer)).None? {
        forall iy: seq<nat> | iy != [] && iy[0] in [c] ensures FollowVia(env, cert, st, d, iy) == None {
          assert Follow(env, issuer, next, Deeper(d), iy[1..]) == None;
        }
      }
    } else {
      forall iy: seq<nat> | iy != [] && iy[0] in [c] && FollowVia(env, cert, st, d, iy).Some?
        ensures iy == [c] && crossed.error == SliceInsideCharacter
      {
        assert iy == [iy[0]];
      }
    }
  }

  /** What is first under the first candidate is first among all. */
  lemma EarlierCandidate(env: Env, cert: Certificate, st: State, d: Depth, candidates: seq<nat>, ix: seq<nat>, o: Outcome)
    requires candidates != [] && Increasing(candidates) && FirstAmong(env, cert, st, d, [candidates[0]], ix, o)
    ensures FirstAmong(env, cert, st, d, candidates, ix, o)
  {
    hide FollowVia, Follow;
    forall iy: seq<nat> | iy != [] && iy[0] in candidates && FollowVia(env, cert, st, d, iy).Some? && iy != ix
      ensures Precedes(ix, iy)
    {
      if iy[0] != candidates[0] {
        assert candidates[0] < iy[0];
      } else {
        assert iy[0] in [candidates[0]];
      }
    }
  }

  // The closed form

  /** Certificate j of the path: the leaf, then the listed intermediates. */
  function CertAt(env: Env, leaf: Certificate, ix: seq<nat>, j: nat): Certificate
    requires j <= |ix| && InRange(env, ix)
  {
    if j == 0 then leaf else env.intermediates[ix[j - 1]]
  }

  predicate InRange(env: Env, ix: seq<nat>) {
    forall j :: 0 <= j < |ix| ==> ix[j] < |env.intermediates|
  }

  /** Policy state once certificate j is current. */
  function PolicyAt(env: Env, leaf: Certificate, ix: seq<nat>, j: nat): Policy
    requires j <= |ix| && InRange(env, ix)
    decreases j, 1
  {
    Entered(PolicyBefore(env, leaf, ix, j), CertAt(env, leaf, ix, j))
  }

  function PolicyBefore(env: Env, leaf: Certificate, ix: seq<nat>, j: nat): Policy
    requires j <= |ix| && InRange(env, ix)
    decreases j, 0
  {
    if j == 0 then Initial(env.options)
    else Descended(Crossed(PolicyAt(env, leaf, ix, j - 1), CertAt(env, leaf, ix, j)), CertAt(env, leaf, ix, j - 1))
  }

  predicate ValidAt(env: Env, cert: Certificate, isLeaf: bool) {
    && ValidateTime(cert, env.now) == Pass
    && ValidatePolicyAndRevocation(cert, env.options, isLeaf) == Pass
  }

  predicate PolicyHolds(p: Policy, cert: Certificate) {
    ExplicitSatisfied(p) && MappingAllowed(p, cert)
  }

  /** `issuer` may have issued `subject` with `hops` certification authorities below it. */
  predicate Issues(env: Env, issuer: Certificate, subject: Certificate, hops: nat) {
    && issuer.subject == subject.issuer
    && ValidateIssuerConstraints(issuer, hops) == Pass
    && ValidateNameConstraints(issuer, subject) == Pass
    && (env.enforceSignatures ==> env.verify(subject, issuer) == None)
  }

  /** The last certificate of the path. */
  function Last(env: Env, leaf: Certificate, ix: seq<nat>): Certificate
    requires InRange(env, ix)
  {
    CertAt(env, leaf, ix, |ix|)
  }

  /**
   How a path may end: at a self-issued certificate that shares its subject with an anchor, or below the
   first anchor named as issuer, which must itself pass every issuer check.
   */
  predicate EndsAtAnchor(env: Env, leaf: Certificate, ix: seq<nat>)
    requires InRange(env, ix)
  {
    var (last, policy) := (Last(env, leaf, ix), PolicyAt(env, leaf, ix, |ix|));
    if SelfIssued(last) then Position(env.anchors, last.subject).Some?
    else
      var a := Position(env.anchors, last.issuer);
      && a.Some?
      && var anchor := env.anchors[a.value];
      var crossed := Crossed(policy, anchor);
      ValidAt(env, anchor, false) && PolicyHolds(crossed, anchor) && MappingAllowed(crossed, last) && Issues(env, anchor, last, |ix|)
  }

  /** Certificate j has a next one rather than an anchor. */
  predicate Continues(env: Env, cert: Certificate) {
    !SelfIssued(cert) && Position(env.anchors, cert.issuer) == None
  }

  /** The step from certificate j to its issuer, certificate j + 1. */
  predicate Link(env: Env, leaf: Certificate, ix: seq<nat>, j: nat)
    requires j < |ix| && InRange(env, ix)
  {
    var (cert, issuer) := (CertAt(env, leaf, ix, j), CertAt(env, leaf, ix, j + 1));
    var crossed := Crossed(PolicyAt(env, leaf, ix, j), issuer);
    && Continues(env, cert)
    && ValidAt(env, issuer, false) && PolicyHolds(crossed, issuer) && MappingAllowed(crossed, cert)
    && Issues(env, issuer, cert, j)
  }

  /** The checks on certificate j alone. */
  predicate Node(env: Env, leaf: Certificate, ix: seq<nat>, j: nat)
    requires j <= |ix| && InRange(env, ix)
  {
    ValidAt(env, CertAt(env, leaf, ix, j), j == 0) && PolicyHolds(PolicyAt(env, leaf, ix, j), CertAt(env, leaf, ix, j))
  }

  predicate SerialsDiffer(env: Env, leaf: Certificate, ix: seq<nat>, i: nat, j: nat)
    requires i <= |ix| && j <= |ix| && InRange(env, ix)
  {
    CertAt(env, leaf, ix, i).serial != CertAt(env, leaf, ix, j).serial
  }

  /** The list up to certificate n: at most sixteen intermediates, every node and link in order, no serial twice. */
  predicate Walks(env: Env, leaf: Certificate, ix: seq<nat>, n: nat)
    requires n <= |ix| && InRange(env, ix)
  {
    WalksFrom(env, leaf, ix, 0, n)
  }

  /** The same for the certificates from j to n, the earlier ones being given. */
  predicate WalksFrom(env: Env, leaf: Certificate, ix: seq<nat>, j: nat, n: nat)
    requires j <= n <= |ix| && InRange(env, ix)
  {
    && n <= 16
    && (forall k: nat :: j <= k <= n ==> Node(env, leaf, ix, k))
    && (forall k: nat :: j <= k < n ==> Link(env, leaf, ix, k))
    && (forall i: nat, k: nat :: i < k && j <= k <= n ==> SerialsDiffer(env, leaf, ix, i, k))
  }

  /** A certification path: a walk with an anchor at its end. */
  predicate IsPath(env: Env, leaf: Certificate, ix: seq<nat>)
    ensures IsPath(env, leaf, ix) ==> InRange(env, ix) && EndsAtAnchor(env, leaf, ix)
  {
    InRange(env, ix) && Walks(env, leaf, ix, |ix|) && EndsAtAnchor(env, leaf, ix)
  }

  /** The walk ends below an anchor whose times cannot be read. */
  predicate AnchorBreaks(env: Env, leaf: Certificate, ix: seq<nat>)
    requires InRange(env, ix)
  {
    var last := Last(env, leaf, ix);
    var a := Position(env.anchors, last.issuer);
    !SelfIssued(last) && a.Some? && TimePanics(env.anchors[a.value])
  }

  /** The last listed certificate is a candidate whose times cannot be read. */
  predicate StepBreaks(env: Env, leaf: Certificate, ix: seq<nat>)
    requires ix != [] && InRange(env, ix)
  {
    var (cert, issuer) := (CertAt(env, leaf, ix, |ix| - 1), CertAt(env, leaf, ix, |ix|));
    Continues(env, cert) && issuer.subject == cert.issuer && TimePanics(issuer)
  }

  /** The panics from certificate j on. */
  predicate BreaksFrom(env: Env, leaf: Certificate, ix: seq<nat>, j: nat)
    requires j <= |ix| && InRange(env, ix)
  {
    || (WalksFrom(env, leaf, ix, j, |ix|) && AnchorBreaks(env, leaf, ix))
    || (j < |ix| && WalksFrom(env, leaf, ix, j, |ix| - 1) && StepBreaks(env, leaf, ix))
  }

  /** Exploring exactly this list panics: at the leaf, at its last certificate, or at the anchor above it. */
  predicate Breaks(env: Env, leaf: Certificate, ix: seq<nat>) {
    InRange(env, ix) && (if TimePanics(leaf) then ix == [] else BreaksFrom(env, leaf, ix, 0))
  }

  /** Length with the anchor when it is not the last certificate itself, the anchor's index, the policies left. */
  function ReportOf(env: Env, leaf: Certificate, ix: seq<nat>): Report
    requires InRange(env, ix) && EndsAtAnchor(env, leaf, ix)
  {
    var (last, policy) := (Last(env, leaf, ix), PolicyAt(env, leaf, ix, |ix|));
    if SelfIssued(last) then Report(|ix| + 1, Position(env.anchors, last.subject).value, Final(policy))
    else
      var a := Position(env.anchors, last.issuer).value;
      Report(|ix| + 2, a, Final(Crossed(policy, env.anchors[a])))
  }

  function SerialsBefore(env: Env, leaf: Certificate, ix: seq<nat>, j: nat): (s: seq<seq<u8>>)
    requires j <= |ix| + 1 && InRange(env, ix)
    ensures |s| == j
  {
    seq(j, i requires 0 <= i < j => CertAt(env, leaf, ix, i).serial)
  }

  function StateBefore(env: Env, leaf: Certificate, ix: seq<nat>, j: nat): State
    requires j <= |ix| && InRange(env, ix)
  {
    State(SerialsBefore(env, leaf, ix, j), PolicyBefore(env, leaf, ix, j))
  }

  function DepthAt(j: nat): Depth {
    Depth(j + 1, j, j)
  }

  /** What entering certificate j takes. */
  lemma EnterIs(env: Env, leaf: Certificate, ix: seq<nat>, j: nat)
    requires j <= |ix| && InRange(env, ix)
    ensures var (cert, e) := (CertAt(env, leaf, ix, j), Enter(env, CertAt(env, leaf, ix, j), StateBefore(env, leaf, ix, j), j == 0));
            && (e.Ok? <==> Node(env, leaf, ix, j) && forall i: nat :: i < j ==> SerialsDiffer(env, leaf, ix, i, j))
            && (e.Ok? ==> e.value == State(SerialsBefore(env, leaf, ix, j + 1), PolicyAt(env, leaf, ix, j)))
            && (e == Err(SliceInsideCharacter) <==> TimePanics(cert))
  {
    hide ValidateTime, TimePanics, ValidatePolicyAndRevocation, Entered, ExplicitSatisfied, MappingAllowed, PolicyBefore;
    TimePanicsIs(CertAt(env, leaf, ix, j), env.now);
    OtherChecksDoNotPanic(env, CertAt(env, leaf, ix, j), CertAt(env, leaf, ix, j), 0, j == 0);
    var visited := SerialsBefore(env, leaf, ix, j);
    var serial := CertAt(env, leaf, ix, j).serial;
    assert SerialsBefore(env, leaf, ix, j + 1) == visited + [serial];
    if serial in visited {
      var i: nat :| i < j && visited[i] == serial;
      assert !SerialsDiffer(env, leaf, ix, i, j);
    } else {
      forall i: nat | i < j ensures SerialsDiffer(env, leaf, ix, i, j) {
        assert visited[i] in visited;
      }
    }
  }

  lemma CrossIs(env: Env, current: Certificate, issuer: Certificate, policy: Policy, hops: nat)
    requires issuer.subject == current.issuer
    ensures var c := Cross(env, current, issuer, policy, hops);
            && (c.Ok? <==> && ValidAt(env, issuer, false) && PolicyHolds(Crossed(policy, issuer), issuer)
                           && MappingAllowed(Crossed(policy, issuer), current) && Issues(env, issuer, current, hops))
            && (c.Ok? ==> c.value == Crossed(policy, issuer))
            && (c == Err(SliceInsideCharacter) <==> TimePanics(issuer))
  {
    TimePanicsIs(issuer, env.now);
    OtherChecksDoNotPanic(env, issuer, current, hops, false);
    hide TimePanics, ValidateTime, ValidatePolicyAndRevocation, Crossed, ExplicitSatisfied, MappingAllowed, ValidateIssuerConstraints,
      ValidateNameConstraints;
  }

  lemma OtherChecksDoNotPanic(env: Env, cert: Certificate, subject: Certificate, hops: nat, isLeaf: bool)
    ensures ValidatePolicyAndRevocation(cert, env.options, isLeaf) != Fail(SliceInsideCharacter)
    ensures ValidateIssuerConstraints(cert, hops) != Fail(SliceInsideCharacter)
    ensures ValidateNameConstraints(cert, subject) != Fail(SliceInsideCharacter)
  {
    hide DnsAllowed, And;
  }

  lemma FinalizedIs(p: Policy)
    requires ExplicitSatisfied(p)
    ensures Finalized(p) == Ok(Final(p))
  {
  }

  /** Certificate j passes its own checks and repeats no earlier serial. */
  predicate Arrives(env: Env, leaf: Certificate, ix: seq<nat>, j: nat)
    requires j <= |ix| && InRange(env, ix)
  {
    Node(env, leaf, ix, j) && forall i: nat :: i < j ==> SerialsDiffer(env, leaf, ix, i, j)
  }

  lemma WalkSplits(env: Env, leaf: Certificate, ix: seq<nat>, j: nat, n: nat)
    requires j <= n <= |ix| && InRange(env, ix)
    ensures j < n ==> (WalksFrom(env, leaf, ix, j, n) <==>
                         Arrives(env, leaf, ix, j) && Link(env, leaf, ix, j) && WalksFrom(env, leaf, ix, j + 1, n))
    ensures j == n ==> (WalksFrom(env, leaf, ix, j, n) <==> n <= 16 && Arrives(env, leaf, ix, j))
  {
    hide Node, Link, SerialsDiffer;
  }

  /** What following the rest of the list from certificate j comes to. */
  ghost function OutcomeFrom(env: Env, leaf: Certificate, ix: seq<nat>, j: nat): Option<Outcome>
    requires j <= |ix| && InRange(env, ix)
  {
    if WalksFrom(env, leaf, ix, j, |ix|) && EndsAtAnchor(env, leaf, ix) then Some(Accepted(ReportOf(env, leaf, ix)))
    else if BreaksFrom(env, leaf, ix, j) then Some(Panicked)
    else None
  }

  /** The end of the list. */
  lemma EndIs(env: Env, leaf: Certificate, ix: seq<nat>)
    requires |ix| <= 16 && InRange(env, ix) && Arrives(env, leaf, ix, |ix|)
    ensures Follow(env, Last(env, leaf, ix), StateBefore(env, leaf, ix, |ix|), DepthAt(|ix|), []) == OutcomeFrom(env, leaf, ix, |ix|)
  {
    hide ValidAt, TimePanics, Entered, Crossed, ExplicitSatisfied, MappingAllowed, PolicyBefore, Enter, Cross, Position, Issues, Finalized,
      Arrives, WalksFrom;
    var n := |ix|;
    var (last, policy) := (Last(env, leaf, ix), PolicyAt(env, leaf, ix, n));
    EnterIs(env, leaf, ix, n);
    ArrivesIs(env, leaf, ix, n);
    WalkSplits(env, leaf, ix, n, n);
    FinalizedIs(policy);
    var a := Position(env.anchors, last.issuer);
    if !SelfIssued(last) && a.Some? {
      AnchorIs(env, leaf, ix, a.value);
    }
  }

  lemma ArrivesIs(env: Env, leaf: Certificate, ix: seq<nat>, j: nat)
    requires j <= |ix| && InRange(env, ix) && Arrives(env, leaf, ix, j)
    ensures Node(env, leaf, ix, j) && forall i: nat :: i < j ==> SerialsDiffer(env, leaf, ix, i, j)
    ensures ExplicitSatisfied(PolicyAt(env, leaf, ix, j))
  {
    hide ValidAt, PolicyAt, ExplicitSatisfied, MappingAllowed;
  }

  /** Below an anchor: accepted on the conditions of a path, a panic exactly when the anchor's times cannot be read. */
  lemma AnchorIs(env: Env, leaf: Certificate, ix: seq<nat>, a: nat)
    requires InRange(env, ix) && !SelfIssued(Last(env, leaf, ix)) && Position(env.anchors, Last(env, leaf, ix).issuer) == Some(a)
    ensures var st := State(SerialsBefore(env, leaf, ix, |ix| + 1), PolicyAt(env, leaf, ix, |ix|));
            Ended(EndAtAnchor(env, Last(env, leaf, ix), st, DepthAt(|ix|), a))
            == if EndsAtAnchor(env, leaf, ix) then Some(Accepted(ReportOf(env, leaf, ix)))
               else if AnchorBreaks(env, leaf, ix) then Some(Panicked) else None
  {
    hide ValidAt, TimePanics, Entered, Crossed, ExplicitSatisfied, MappingAllowed, PolicyAt, Cross, Issues, Finalized;
    var policy := PolicyAt(env, leaf, ix, |ix|);
    CrossIs(env, Last(env, leaf, ix), env.anchors[a], policy, |ix|);
    if Cross(env, Last(env, leaf, ix), env.anchors[a], policy, |ix|).Ok? {
      FinalizedIs(Crossed(policy, env.anchors[a]));
    }
  }

  /** One step along the list. */
  lemma StepIs(env: Env, leaf: Certificate, ix: seq<nat>, j: nat)
    requires j < |ix| && j <= 16 && InRange(env, ix) && Arrives(env, leaf, ix, j)
    ensures Follow(env, CertAt(env, leaf, ix, j), StateBefore(env, leaf, ix, j), DepthAt(j), ix[j..])
         == if Link(env, leaf, ix, j) then
              Follow(env, CertAt(env, leaf, ix, j + 1), StateBefore(env, leaf, ix, j + 1), DepthAt(j + 1), ix[j + 1..])
            else if j + 1 == |ix| && StepBreaks(env, leaf, ix) then Some(Panicked)
            else None
    ensures Link(env, leaf, ix, j) ==> !TimePanics(CertAt(env, leaf, ix, j + 1))
  {
    hide ValidAt, TimePanics, Entered, Crossed, ExplicitSatisfied, MappingAllowed, Enter, Cross, Position, ValidateIssuerConstraints,
      ValidateNameConstraints, EndAtAnchor, EndSelfIssued;
    var (cert, issuer) := (CertAt(env, leaf, ix, j), CertAt(env, leaf, ix, j + 1));
    EnterIs(env, leaf, ix, j);
    if issuer.subject == cert.issuer {
      CrossIs(env, cert, issuer, PolicyAt(env, leaf, ix, j), j);
    }
  }

  /** Following a list from certificate j on comes to exactly what the closed form says. */
  lemma {:induction false} FollowIs(env: Env, leaf: Certificate, ix: seq<nat>, j: nat)
    requires j <= |ix| && InRange(env, ix) && !TimePanics(CertAt(env, leaf, ix, j))
    ensures Follow(env, CertAt(env, leaf, ix, j), StateBefore(env, leaf, ix, j), DepthAt(j), ix[j..]) == OutcomeFrom(env, leaf, ix, j)
    decreases |ix| - j
  {
    hide Follow, Enter, Arrives, Link, EndsAtAnchor, ReportOf, StateBefore, AnchorBreaks, StepBreaks, WalksFrom, TimePanics;
    WalkSplits(env, leaf, ix, j, |ix|);
    if j < |ix| {
      WalkSplits(env, leaf, ix, j, |ix| - 1);
    }
    if j <= 16 && Arrives(env, leaf, ix, j) {
      if j == |ix| {
        assert ix[j..] == [];
        EndIs(env, leaf, ix);
      } else {
        StepIs(env, leaf, ix, j);
        if Link(env, leaf, ix, j) {
          FollowIs(env, leaf, ix, j + 1);
          LinkIsNoBreak(env, leaf, ix, j);
        }
      }
    } else {
      NotFollowed(env, leaf, ix, j);
      if j > 16 {
        TooFar(env, leaf, ix, j);
      }
    }
  }

  lemma LinkIsNoBreak(env: Env, leaf: Certificate, ix: seq<nat>, j: nat)
    requires j < |ix| && InRange(env, ix) && Link(env, leaf, ix, j) && !TimePanics(CertAt(env, leaf, ix, j + 1))
    ensures j + 1 == |ix| ==> !StepBreaks(env, leaf, ix)
  {
    hide TimePanics, Link;
  }

  lemma TooFar(env: Env, leaf: Certificate, ix: seq<nat>, j: nat)
    requires j <= |ix| && InRange(env, ix) && j > 16
    ensures !WalksFrom(env, leaf, ix, j, |ix|) && (j < |ix| ==> !WalksFrom(env, leaf, ix, j, |ix| - 1))
  {
    hide Node, Link, SerialsDiffer;
  }

  lemma NotFollowed(env: Env, leaf: Certificate, ix: seq<nat>, j: nat)
    requires j <= |ix| && InRange(env, ix) && !TimePanics(CertAt(env, leaf, ix, j)) && (j > 16 || !Arrives(env, leaf, ix, j))
    ensures Follow(env, CertAt(env, leaf, ix, j), StateBefore(env, leaf, ix, j), DepthAt(j), ix[j..]) == None
  {
    hide Enter, Node, StateBefore, FollowVia, EndSelfIssued, EndAtAnchor, TimePanics;
    EnterIs(env, leaf, ix, j);
  }

  /** Only lists of existing intermediates can be followed. */
  lemma {:induction false} FollowedInRange(env: Env, cert: Certificate, st: State, d: Depth, ix: seq<nat>)
    requires Follow(env, cert, st, d, ix).Some?
    ensures InRange(env, ix)
    decreases |ix|
  {
    hide Enter, Cross, EndSelfIssued, EndAtAnchor, Position;
    if ix != [] {
      var entered := Enter(env, cert, st, d.chainLen == 1).value;
      var issuer := env.intermediates[ix[0]];
      var crossed := Cross(env, cert, issuer, entered.policy, d.caHops);
      if crossed.Ok? {
        FollowedInRange(env, issuer, State(entered.visited, Descended(crossed.value, cert)), Deeper(d), ix[1..]);
      }
      assert ix == [ix[0]] + ix[1..];
    }
  }

  /** From the leaf, a list is accepted exactly when it is a path, with that path's report, and panics exactly when it breaks. */
  lemma FollowIsPath(env: Env, leaf: Certificate, ix: seq<nat>)
    ensures Follow(env, leaf, State([], Initial(env.options)), Start(), ix)
         == if IsPath(env, leaf, ix) then Some(Accepted(ReportOf(env, leaf, ix)))
            else if Breaks(env, leaf, ix) then Some(Panicked) else None
  {
    hide Follow, Node, Link, EndsAtAnchor, SerialsDiffer, TimePanics, AnchorBreaks, StepBreaks;
    var st := State([], Initial(env.options));
    if Follow(env, leaf, st, Start(), ix).Some? {
      FollowedInRange(env, leaf, st, Start(), ix);
    }
    if InRange(env, ix) {
      assert SerialsBefore(env, leaf, ix, 0) == [];
      assert ix[0..] == ix;
      if TimePanics(leaf) {
        LeafPanics(env, leaf, ix);
      } else {
        FollowIs(env, leaf, ix, 0);
      }
    }
  }

  lemma LeafPanics(env: Env, leaf: Certificate, ix: seq<nat>)
    requires InRange(env, ix) && TimePanics(leaf)
    ensures Follow(env, leaf, State([], Initial(env.options)), Start(), ix) == if ix == [] then Some(Panicked) else None
    ensures !Node(env, leaf, ix, 0)
  {
    hide Enter, TimePanics, PolicyAt, FollowVia, EndSelfIssued, EndAtAnchor, ValidateTime;
    TimePanicsIs(leaf, env.now);
    EnterIs(env, leaf, ix, 0);
    assert SerialsBefore(env, leaf, ix, 0) == [];
  }

  /** A list that decides the search, and the first such list. */
  predicate Decisive(env: Env, leaf: Certificate, ix: seq<nat>) {
    IsPath(env, leaf, ix) || Breaks(env, leaf, ix)
  }

  ghost predicate IsFirst(env: Env, leaf: Certificate, ix: seq<nat>) {
    && Decisive(env, leaf, ix)
    && forall iy: seq<nat> :: Decisive(env, leaf, iy) && iy != ix ==> Precedes(ix, iy)
  }

  lemma FirstIsUnique(env: Env, leaf: Certificate, ix: seq<nat>, iy: seq<nat>)
    requires IsFirst(env, leaf, ix) && IsFirst(env, leaf, iy)
    ensures ix == iy
  {
    hide Decisive, Precedes;
    if ix != iy {
      PrecedesOneWay(ix, iy);
    }
  }

  /** No list is both. */
  lemma PathsDoNotBreak(env: Env, leaf: Certificate, ix: seq<nat>)
    ensures !(IsPath(env, leaf, ix) && Breaks(env, leaf, ix))
  {
    hide Follow, ValidateTime, ValidatePolicyAndRevocation, PolicyAt, Crossed, SlicesInside, CanonicalTime, TimePanics;
    if IsPath(env, leaf, ix) {
      assert Node(env, leaf, ix, 0);
      TimePanicsIs(leaf, env.now);
      if ix != [] {
        assert Link(env, leaf, ix, |ix| - 1);
        TimePanicsIs(CertAt(env, leaf, ix, |ix|), env.now);
      }
      var a := Position(env.anchors, Last(env, leaf, ix).issuer);
      if a.Some? {
        TimePanicsIs(env.anchors[a.value], env.now);
      }
    }
  }

  /**
   The search reports a path exactly when the first decisive list is a path, namely that one, panics exactly
   when it is a list that breaks, and fails exactly when there is none.
   */
  lemma SearchIsFirstPath(env: Env, leaf: Certificate)
    ensures var r := Search(env, leaf, State([], Initial(env.options)), Start());
            && (r.Ok? <==> exists ix: seq<nat> :: IsFirst(env, leaf, ix) && IsPath(env, leaf, ix))
            && (r.Ok? ==> exists ix: seq<nat> :: IsFirst(env, leaf, ix) && IsPath(env, leaf, ix) && r.value == ReportOf(env, leaf, ix))
            && (r == Err(SliceInsideCharacter) <==> exists ix: seq<nat> :: IsFirst(env, leaf, ix) && Breaks(env, leaf, ix))
            && (r.Err? && r != Err(SliceInsideCharacter) <==> forall ix: seq<nat> :: !Decisive(env, leaf, ix))
  {
    hide Search, Follow, IsPath, Breaks, ReportOf, Precedes;
    var st := State([], Initial(env.options));
    var r := Search(env, leaf, st, Start());
    var ix := SearchFindsFirst(env, leaf, st, Start());
    forall iy: seq<nat>
      ensures Follow(env, leaf, st, Start(), iy).Some? <==> Decisive(env, leaf, iy)
      ensures !(IsPath(env, leaf, iy) && Breaks(env, leaf, iy))
    {
      FollowIsPath(env, leaf, iy);
      PathsDoNotBreak(env, leaf, iy);
    }
    if Ended(r).Some? {
      FollowIsPath(env, leaf, ix);
      assert IsFirst(env, leaf, ix);
      forall iy: seq<nat> | IsFirst(env, leaf, iy) ensures iy == ix {
        FirstIsUnique(env, leaf, ix, iy);
      }
    }
  }

  /** No certificate the search could read has times that panic. */
  ghost predicate ReadableTimes(env: Env, leaf: Certificate) {
    && !TimePanics(leaf)
    && (forall i :: 0 <= i < |env.intermediates| ==> !TimePanics(env.intermediates[i]))
    && (forall i :: 0 <= i < |env.anchors| ==> !TimePanics(env.anchors[i]))
  }

  ghost predicate IsFirstPath(env: Env, leaf: Certificate, ix: seq<nat>)
    ensures IsFirstPath(env, leaf, ix) ==> InRange(env, ix) && EndsAtAnchor(env, leaf, ix)
  {
    && IsPath(env, leaf, ix)
    && forall iy: seq<nat> :: IsPath(env, leaf, iy) && iy != ix ==> Precedes(ix, iy)
  }

  /** Then the search is sound and complete for paths. */
  lemma ReadableSearchIsFirstPath(env: Env, leaf: Certificate)
    requires ReadableTimes(env, leaf)
    ensures var r := Search(env, leaf, State([], Initial(env.options)), Start());
            && r != Err(SliceInsideCharacter)
            && (r.Ok? <==> exists ix: seq<nat> :: IsPath(env, leaf, ix))
            && (r.Ok? ==> exists ix: seq<nat> :: IsFirstPath(env, leaf, ix) && r.value == ReportOf(env, leaf, ix))
  {
    hide Search, IsPath, ReportOf, Precedes, TimePanics, WalksFrom;
    forall ix: seq<nat> ensures !Breaks(env, leaf, ix) {
    }
    hide Breaks;
    SearchIsFirstPath(env, leaf);
  }

  /** Validation as callers see it, for every input: refusals before the search, panics, paths. */
  lemma ValidationIff(leaf: Certificate, env: Env, now: Time)
    ensures var r := Validation(leaf, env, now);
            if env.anchors == [] then r == Err(UntrustedRoot)
            else if CanonicalTime(now).Err? then
              r == Err(if SlicesInside(now) then SliceInsideCharacter else InvalidNowTimeFormat)
            else
              var at := env.(now := CanonicalTime(now).value);
              && (r.Ok? <==> exists ix: seq<nat> :: IsFirst(at, leaf, ix) && IsPath(at, leaf, ix))
              && (r.Ok? ==> exists ix: seq<nat> :: IsFirst(at, leaf, ix) && IsPath(at, leaf, ix) && r.value == ReportOf(at, leaf, ix))
              && (r == Err(SliceInsideCharacter) <==> exists ix: seq<nat> :: IsFirst(at, leaf, ix) && Breaks(at, leaf, ix))
  {
    hide Search, IsPath, Breaks, ReportOf, IsFirst;
    if env.anchors != [] && CanonicalTime(now).Ok? {
      SearchIsFirstPath(env.(now := CanonicalTime(now).value), leaf);
    }
  }

  /** No policy is repeated in the state anywhere along a path. */
  lemma {:induction false} PoliciesDistinct(env: Env, leaf: Certificate, ix: seq<nat>, j: nat)
    requires j <= |ix| && InRange(env, ix)
    ensures NoRepeats(PolicyAt(env, leaf, ix, j))
  {
    hide Entered, Crossed, Descended;
    if j > 0 {
      PoliciesDistinct(env, leaf, ix, j - 1);
      StepsKeepDistinct(PolicyAt(env, leaf, ix, j - 1), CertAt(env, leaf, ix, j));
      StepsKeepDistinct(Crossed(PolicyAt(env, leaf, ix, j - 1), CertAt(env, leaf, ix, j)), CertAt(env, leaf, ix, j - 1));
    }
    StepsKeepDistinct(PolicyBefore(env, leaf, ix, j), CertAt(env, leaf, ix, j));
  }

  /** A report counts at most sixteen intermediates, the leaf and the anchor, names an existing anchor and repeats no policy. */
  lemma ReportBounds(env: Env, leaf: Certificate, ix: seq<nat>)
    requires IsPath(env, leaf, ix)
    ensures var r := ReportOf(env, leaf, ix);
            1 <= r.chainLen <= 18 && r.anchor < |env.anchors| && Distinct(r.policies)
  {
    hide Node, Link, SerialsDiffer, PolicyAt, Crossed;
    PoliciesDistinct(env, leaf, ix, |ix|);
    var last := Last(env, leaf, ix);
    if !SelfIssued(last) {
      StepsKeepDistinct(PolicyAt(env, leaf, ix, |ix|), env.anchors[Position(env.anchors, last.issuer).value]);
    }
  }

  /** A self-issued leaf is matched with an anchor by name alone: the signature predicate is never consulted. */
  lemma SelfIssuedLeafUnsigned(env: Env, leaf: Certificate, verify: (Certificate, Certificate) -> Option<nat>, st: State, d: Depth)
    requires SelfIssued(leaf)
    ensures Search(env.(verify := verify), leaf, st, d) == Search(env, leaf, st, d)
  {
    hide Entered, ValidateTime, ValidatePolicyAndRevocation;
  }

  /** Such a leaf is accepted exactly when its own checks pass and some anchor has its name. */
  lemma SelfIssuedLeafIff(env: Env, leaf: Certificate)
    requires SelfIssued(leaf)
    ensures Search(env, leaf, State([], Initial(env.options)), Start()).Ok? <==>
              && ValidAt(env, leaf, true) && PolicyHolds(Entered(Initial(env.options), leaf), leaf)
              && Position(env.anchors, leaf.subject).Some?
  {
    hide Entered, ValidateTime, ValidatePolicyAndRevocation, Position;
  }

  /** One that is: its own anchor by name, under a signature check that fails on every pair. */
  lemma UnsignedLeafAccepted() returns (env: Env, leaf: Certificate)
    ensures SelfIssued(leaf) && env.enforceSignatures && forall a, b :: env.verify(a, b).Some?
    ensures Search(env, leaf, State([], Initial(env.options)), Start()).Ok?
  {
    hide ValidateTime, CanonicalTime, Instant, Search, Position;
    var midnight: Time := seq(14, _ => 0x30) + [ZULU];
    assert midnight[..14] == seq(14, _ => 0x30);
    leaf := Certificate([1], [1], [1], midnight, midnight, None, None, None, [], [], None, None, None, [], [], [], [], [], [], [], [], []);
    env := Env([], [leaf], midnight, true, Options(None, None, false, false, false, false), (a, b) => Some(0));
    CanonicalMidnight(midnight);
    TimeWindow(leaf, midnight);
    SelfIssuedLeafIff(env, leaf);
    assert env.anchors[0].subject == leaf.subject;
  }

  lemma CanonicalMidnight(t: Time)
    requires Canonical(t)
    ensures CanonicalTime(t) == Ok(t)
  {
  }

  /** Every signature but that of a self-issued last certificate has been checked. */
  lemma SignaturesOnPath(env: Env, leaf: Certificate, ix: seq<nat>, j: nat)
    requires IsPath(env, leaf, ix) && env.enforceSignatures && j <= |ix| && (j == |ix| ==> !SelfIssued(Last(env, leaf, ix)))
    ensures var cert := CertAt(env, leaf, ix, j);
            var issuer := if j < |ix| then CertAt(env, leaf, ix, j + 1) else env.anchors[Position(env.anchors, cert.issuer).value];
            issuer.subject == cert.issuer && env.verify(cert, issuer) == None
  {
    hide ValidAt, PolicyHolds, PolicyAt, Crossed;
    if j < |ix| {
      assert Link(env, leaf, ix, j);
    }
  }

  // Which error

  /** When every candidate fails, and none by a panic, the search fails as the last of them did. */
  lemma {:induction false} LastErrorWins(env: Env, cert: Certificate, st: State, d: Depth, candidates: seq<nat>, first: ValidationError)
    requires d.hop <= 16 && candidates != [] && forall k :: 0 <= k < |candidates| ==> candidates[k] < |env.intermediates|
    requires forall k :: 0 <= k < |candidates| ==> Refuses(env, cert, st, d, candidates[k])
    ensures TryAll(env, cert, st, d, candidates, first) == TryOne(env, cert, st, d, env.intermediates[candidates[|candidates| - 1]])
    decreases |candidates|
  {
    hide TryOne;
    assert Refuses(env, cert, st, d, candidates[0]);
    var rest := candidates[1..];
    if rest != [] {
      assert forall k :: 0 <= k < |rest| ==> rest[k] == candidates[k + 1];
      LastErrorWins(env, cert, st, d, rest, TryOne(env, cert, st, d, env.intermediates[candidates[0]]).error);
    }
  }

  predicate Refuses(env: Env, cert: Certificate, st: State, d: Depth, c: nat)
    requires d.hop <= 16 && c < |env.intermediates|
  {
    var r := TryOne(env, cert, st, d, env.intermediates[c]);
    r.Err? && r.error != SliceInsideCharacter
  }

  /** Errors of the search itself: too many steps, a repeated serial, a root that is no anchor, an issuer nobody names. */
  lemma SearchErrors(env: Env, cert: Certificate, st: State, d: Depth)
    ensures d.hop > 16 ==> Search(env, cert, st, d) == Err(MaxChainDepthExceeded)
    ensures d.hop <= 16 && Enter(env, cert, st, d.chainLen == 1).Err? ==>
              Search(env, cert, st, d) == Err(Enter(env, cert, st, d.chainLen == 1).error)
    ensures d.hop <= 16 && Enter(env, cert, st, d.chainLen == 1).Ok? && SelfIssued(cert) && Position(env.anchors, cert.subject) == None ==>
              Search(env, cert, st, d) == Err(UntrustedRoot)
    ensures d.hop <= 16 && Enter(env, cert, st, d.chainLen == 1).Ok? && !SelfIssued(cert) && Position(env.anchors, cert.issuer) == None
            && (forall i: nat :: i < |env.intermediates| ==> env.intermediates[i].subject != cert.issuer) ==>
              Search(env, cert, st, d) == Err(IssuerNotFound)
  {
    hide Enter, EndAtAnchor, TryOne, Position;
    var candidates := Candidates(env.intermediates, cert.issuer);
    if candidates != [] {
      assert env.intermediates[candidates[0]].subject == cert.issuer;
    }
  }

  /** Entering a certificate fails as its first failing check does: times, options, required policy, mappings, a serial seen before. */
  lemma EnterErrors(env: Env, cert: Certificate, st: State, isLeaf: bool)
    ensures var (time, options, p) := (ValidateTime(cert, env.now), ValidatePolicyAndRevocation(cert, env.options, isLeaf), Entered(st.policy, cert));
            var r := Enter(env, cert, st, isLeaf);
            && (time.Fail? ==> r == Err(time.error))
            && (time.Pass? && options.Fail? ==> r == Err(options.error))
            && (time.Pass? && options.Pass? && !ExplicitSatisfied(p) ==> r == Err(ExplicitPolicyRequired))
            && (time.Pass? && options.Pass? && ExplicitSatisfied(p) && !MappingAllowed(p, cert) ==> r == Err(PolicyMappingInhibited))
            && (time.Pass? && options.Pass? && ExplicitSatisfied(p) && MappingAllowed(p, cert) && cert.serial in st.visited ==>
                  r == Err(ChainLoopDetected))
  {
    hide ValidateTime, ValidatePolicyAndRevocation, Entered, ExplicitSatisfied, MappingAllowed;
  }

  /** Crossing to an issuer fails as its first failing check does: times, options, policy, mappings, authority, names, signature. */
  lemma CrossErrors(env: Env, cert: Certificate, issuer: Certificate, policy: Policy, hops: nat)
    ensures var (time, options, p) := (ValidateTime(issuer, env.now), ValidatePolicyAndRevocation(issuer, env.options, false), Crossed(policy, issuer));
            var (authority, names, r) := (ValidateIssuerConstraints(issuer, hops), ValidateNameConstraints(issuer, cert), Cross(env, cert, issuer, policy, hops));
            && (time.Fail? ==> r == Err(time.error))
            && (time.Pass? && options.Fail? ==> r == Err(options.error))
            && (time.Pass? && options.Pass? && !ExplicitSatisfied(p) ==> r == Err(ExplicitPolicyRequired))
            && (time.Pass? && options.Pass? && ExplicitSatisfied(p) ==>
                  var mappings := MappingAllowed(p, cert) && MappingAllowed(p, issuer);
                  && (!mappings ==> r == Err(PolicyMappingInhibited))
                  && (mappings && authority.Fail? ==> r == Err(authority.error))
                  && (mappings && authority.Pass? && names.Fail? ==> r == Err(names.error))
                  && (mappings && authority.Pass? && names.Pass? && env.enforceSignatures && env.verify(cert, issuer).Some? ==>
                        r == Err(SignatureRejected(env.verify(cert, issuer).value))))
  {
    hide ValidateTime, ValidatePolicyAndRevocation, Crossed, ExplicitSatisfied, MappingAllowed, ValidateIssuerConstraints, ValidateNameConstraints;
  }
}
