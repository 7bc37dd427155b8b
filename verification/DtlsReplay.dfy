/** Replay protection of DTLS: the 64-bit sliding window and the two-epoch tracker. */
module DtlsReplay {
  import opened Arith
  import opened Words
  import opened Bits
  import opened Wrappers

  // The reference: full sets of accepted numbers

  /** A number is accepted when it is new and no accepted number is 64 or more ahead of it. */
  ghost predicate Admits(seen: set<nat>, sequence: nat) {
    sequence !in seen && forall m :: m in seen ==> m < sequence + 64
  }

  ghost function Marked(seen: set<nat>, sequence: nat): set<nat> {
    if Admits(seen, sequence) then seen + {sequence} else seen
  }

  datatype Snapshot = Snapshot(latest: u64, bitmap: u64, initialized: bool)

  /** Within the window, a set bit means a number in `seen`, and nothing in `seen` is ahead of the window. */
  ghost predicate Shows(w: Snapshot, seen: set<nat>) {
    if !w.initialized then seen == {}
    else
      && (forall m :: m in seen ==> m <= w.latest)
      && (forall d: nat :: d < 64 && d <= w.latest ==> (BitAt(w.bitmap, d) == 1 <==> w.latest - d in seen))
  }

  /** A window that marked every number itself: its newest number is marked too. */
  ghost predicate Reflects(w: Snapshot, seen: set<nat>) {
    Shows(w, seen) && (w.initialized ==> w.latest in seen)
  }

  /** What the window lets in, whatever its state. */
  ghost predicate AdmitsIn(w: Snapshot, seen: set<nat>, sequence: nat) {
    !w.initialized || sequence > w.latest || (w.latest - sequence < 64 && sequence !in seen)
  }

  /** For a window that marked its numbers itself that is admission by the set of numbers alone. */
  lemma ReflectingWindowAdmits(w: Snapshot, seen: set<nat>, sequence: nat)
    requires Reflects(w, seen)
    ensures AdmitsIn(w, seen, sequence) <==> Admits(seen, sequence)
  {
    hide BitAt;
  }

  /** Admission is a matter of the stored fields: any two sets a window shows admit the same numbers. */
  lemma AdmissionIsState(w: Snapshot, a: set<nat>, b: set<nat>, sequence: nat)
    requires Shows(w, a) && Shows(w, b)
    ensures AdmitsIn(w, a, sequence) <==> AdmitsIn(w, b, sequence)
  {
    hide BitAt;
    if w.initialized && sequence <= w.latest && w.latest - sequence < 64 {
      var d: nat := w.latest as int - sequence;
      assert w.latest - d == sequence;
      assert BitAt(w.bitmap, d) == 1 <==> w.latest - d in a;
    }
  }

  /** The numbers the set bits of any snapshot stand for. */
  ghost function Shown(w: Snapshot): set<nat> {
    if w.initialized then set d: nat | d < 64 && d <= w.latest && BitAt(w.bitmap, d) == 1 :: (w.latest - d) as nat else {}
  }

  lemma ShownIsShown(w: Snapshot)
    ensures Shows(w, Shown(w))
  {
    hide BitAt;
    if w.initialized {
      forall d: nat | d < 64 && d <= w.latest ensures BitAt(w.bitmap, d) == 1 <==> w.latest - d in Shown(w) {
        if w.latest - d in Shown(w) {
          var e: nat :| e < 64 && e <= w.latest && BitAt(w.bitmap, e) == 1 && w.latest - e == w.latest - d;
          assert e == d;
        }
      }
    }
  }

  /** A number within the window below the newest. */
  lemma OldNumber(w: Snapshot, seen: set<nat>, delta: nat, bitmap: u64)
    requires w.initialized && Shows(w, seen) && delta < 64 && delta <= w.latest
    requires bitmap == Or(w.bitmap, Pow2(delta))
    ensures Shows(w.(bitmap := bitmap), seen + {w.latest - delta})
  {
    hide BitAt, Or, Pow2;
    forall d: nat | d < 64 && d <= w.latest ensures BitAt(bitmap, d) == 1 <==> w.latest - d in seen + {w.latest - delta} {
      BitOr(w.bitmap, Pow2(delta), d);
      BitOfPower(delta, d);
    }
  }

  /** A number ahead of the window: the bitmap slides, dropping what falls off. */
  lemma NewNumber(w: Snapshot, seen: set<nat>, sequence: u64, slid: u64, bitmap: u64)
    requires w.initialized && Shows(w, seen) && sequence > w.latest
    requires slid == (var shift := sequence as int - w.latest; if shift >= 64 then 0 else Mod(Shl(w.bitmap, shift), Pow2(64)))
    requires bitmap == Or(slid, 1)
    ensures Reflects(Snapshot(sequence, bitmap, true), seen + {sequence})
  {
    hide BitAt, Or, Pow2, Mod, Shl;
    Pow2Zero();
    forall d: nat | d < 64 && d <= sequence ensures BitAt(bitmap, d) == 1 <==> sequence - d in seen + {sequence} {
      SlidBit(w, seen, sequence, slid, d);
      BitOr(slid, 1, d);
      BitOfPower(0, d);
    }
  }

  /** After sliding, bit d stands for the number d below the new newest one. */
  lemma SlidBit(w: Snapshot, seen: set<nat>, sequence: u64, slid: u64, d: nat)
    requires w.initialized && Shows(w, seen) && sequence > w.latest && d < 64 && d <= sequence
    requires slid == (var shift := sequence as int - w.latest; if shift >= 64 then 0 else Mod(Shl(w.bitmap, shift), Pow2(64)))
    ensures BitAt(slid, d) == 1 <==> sequence - d in seen
  {
    hide BitAt, Pow2, Mod, Shl;
    var shift := sequence as int - w.latest;
    if shift >= 64 {
      NoBits(d);
    } else {
      BitTruncated(Shl(w.bitmap, shift), 64, d);
      BitShl(w.bitmap, shift, d);
      assert d >= shift ==> sequence - d == w.latest - (d - shift);
    }
  }

  lemma FirstNumber(sequence: u64)
    ensures Reflects(Snapshot(sequence, 1, true), {sequence})
  {
    hide BitAt, Pow2;
    Pow2Zero();
    forall d: nat | d < 64 && d <= sequence ensures BitAt(1, d) == 1 <==> sequence - d in {sequence} {
      BitOfPower(0, d);
    }
  }

  /** The sliding window; any values of its three fields are a state it can be in. */
  class DtlsReplayWindow {
    var latest: u64
    var bitmap: u64
    var initialized: bool
    ghost var seen: set<nat>

    function State(): Snapshot
      reads this
    {
      Snapshot(latest, bitmap, initialized)
    }

    ghost predicate Valid()
      reads this
    {
      Shows(State(), seen)
    }

    /** It marked every number itself. */
    ghost predicate Whole()
      reads this
    {
      Reflects(State(), seen)
    }

    constructor ()
      ensures Valid() && Whole() && seen == {}
    {
      latest, bitmap, initialized, seen := 0, 0, false, {};
    }

    method CheckAndMark(sequence: u64) returns (ok: bool)
      requires Valid()
      modifies this
      ensures Valid()
      ensures ok <==> AdmitsIn(old(State()), old(seen), sequence)
      ensures seen == if ok then old(seen) + {sequence} else old(seen)
      ensures latest == if !old(initialized) || sequence > old(latest) then sequence else old(latest)
      ensures old(Whole()) ==> Whole() && (ok <==> Admits(old(seen), sequence)) && seen == Marked(old(seen), sequence)
    {
      hide BitAt, Or, And, Pow2, Shl, Mod;
      ghost var was := State();
      if Reflects(was, seen) {
        ReflectingWindowAdmits(was, seen, sequence);
      }
      hide Admits;
      if !initialized {
        initialized, latest, bitmap, seen := true, sequence, 1, {sequence};
        FirstNumber(sequence);
        return true;
      }
      if sequence > latest {
        var shift := sequence as int - latest;
        Pow2Is64();
        var slid: u64 := if shift >= 64 then 0 else Mod(Shl(bitmap, shift), Pow2(64));
        OneFits(slid);
        bitmap := Or(slid, 1);
        NewNumber(was, seen, sequence, slid, bitmap);
        latest := sequence;
        seen := seen + {sequence as nat};
        return true;
      }
      var delta := latest as int - sequence;
      if delta >= 64 {
        return false;
      }
      var mask := Pow2(delta);
      BitTest(bitmap, delta);
      assert latest - delta == sequence;
      if And(bitmap, mask) != 0 {
        return false;
      }
      MaskFits(bitmap, delta);
      bitmap := Or(bitmap, mask);
      OldNumber(was, seen, delta, bitmap);
      seen := seen + {sequence as nat};
      return true;
    }

    method TakeSnapshot() returns (s: Snapshot)
      requires Valid()
      ensures s == State() && Shows(s, seen)
    {
      s := Snapshot(latest, bitmap, initialized);
    }

    /**
     Any snapshot is taken over as it is. The window then decides as any window in that state does
     (`AdmissionIsState`), the one the snapshot was taken from included.
     */
    method RestoreFromSnapshot(s: Snapshot)
      modifies this
      ensures Valid() && State() == s && seen == Shown(s)
    {
      latest, bitmap, initialized, seen := s.latest, s.bitmap, s.initialized, Shown(s);
      ShownIsShown(s);
    }
  }

  lemma MaskFits(bitmap: u64, delta: nat)
    requires delta < 64
    ensures Or(bitmap, Pow2(delta)) < 0x1_0000_0000_0000_0000
  {
    hide Or, Pow2;
    Pow2Is64();
    Pow2Monotone(delta, 63);
    PowerBelow(63);
    OrBounds(bitmap, Pow2(delta), 64);
  }

  lemma OneFits(bitmap: u64)
    ensures Or(bitmap, 1) < 0x1_0000_0000_0000_0000
  {
    hide Or, Pow2;
    Pow2Zero();
    MaskFits(bitmap, 0);
  }

  lemma PowerBelow(k: nat)
    ensures Pow2(k) < Pow2(k + 1)
  {
  }

  // Two epochs

  /** A record number. */
  datatype Number = Number(epoch: u16, sequence: u64)

  /** The reference tracker: the two live epochs and every number ever accepted. */
  datatype Reference = Reference(current: Option<u16>, previous: Option<u16>, accepted: set<Number>)

  function Fresh(): Reference {
    Reference(None, None, {})
  }

  ghost function Sequences(accepted: set<Number>, epoch: u16): set<nat> {
    set n | n in accepted && n.epoch == epoch :: n.sequence
  }

  ghost predicate Decides(r: Reference, n: Number) {
    || r.current == None
    || ((n.epoch == r.current.value || r.previous == Some(n.epoch)) && Admits(Sequences(r.accepted, n.epoch), n.sequence))
    || n.epoch > r.current.value
  }

  ghost function After(r: Reference, n: Number): Reference {
    var accepted := if Decides(r, n) then r.accepted + {n} else r.accepted;
    if r.current == None then Reference(Some(n.epoch), r.previous, accepted)
    else if n.epoch > r.current.value then Reference(Some(n.epoch), r.current, accepted)
    else r.(accepted := accepted)
  }

  /** Epochs are ordered, and accepted numbers never lie ahead of the current epoch. */
  ghost predicate Ordered(r: Reference) {
    && (r.current == None ==> r.previous == None && r.accepted == {})
    && (r.previous.Some? ==> r.current.Some? && r.previous.value < r.current.value)
    && (r.current.Some? ==> forall n :: n in r.accepted ==> n.epoch <= r.current.value)
  }

  lemma AfterOrdered(r: Reference, n: Number)
    requires Ordered(r)
    ensures Ordered(After(r, n))
  {
  }

  class DtlsEpochReplayTracker {
    var currentEpoch: Option<u16>
    var currentWindow: DtlsReplayWindow
    var previousEpoch: Option<u16>
    var previousWindow: DtlsReplayWindow
    ghost var accepted: set<Number>

    ghost function View(): Reference
      reads this
    {
      Reference(currentEpoch, previousEpoch, accepted)
    }

    ghost predicate Valid()
      reads this, currentWindow, previousWindow
    {
      && currentWindow != previousWindow
      && currentWindow.Valid() && currentWindow.Whole() && previousWindow.Valid() && previousWindow.Whole()
      && Ordered(View())
      && (currentEpoch.Some? ==> currentWindow.seen == Sequences(accepted, currentEpoch.value))
      && (previousEpoch.Some? ==> previousWindow.seen == Sequences(accepted, previousEpoch.value))
    }

    constructor ()
      ensures Valid() && View() == Fresh() && fresh(currentWindow) && fresh(previousWindow)
    {
      currentEpoch, previousEpoch, accepted := None, None, {};
      currentWindow := new DtlsReplayWindow();
      previousWindow := new DtlsReplayWindow();
    }

    method CheckAndMark(epoch: u16, sequence: u64) returns (ok: bool)
      requires Valid()
      modifies this, currentWindow, previousWindow
      ensures Valid() && fresh({currentWindow, previousWindow} - old({currentWindow, previousWindow}))
      ensures ok <==> Decides(old(View()), Number(epoch, sequence))
      ensures View() == After(old(View()), Number(epoch, sequence))
    {
      hide Reflects, Shows, AdmitsIn, Admits;
      ghost var n := Number(epoch, sequence);
      ghost var was := accepted;
      AfterOrdered(View(), n);
      if currentEpoch == None {
        currentEpoch := Some(epoch);
        currentWindow := new DtlsReplayWindow();
        ok := currentWindow.CheckAndMark(sequence);
        AdmitsFirst(sequence);
        accepted := {n};
        return;
      }
      SequencesGrow(accepted, n);
      if epoch == currentEpoch.value {
        ok := currentWindow.CheckAndMark(sequence);
        accepted := if ok then was + {n} else was;
        return;
      }
      if previousEpoch == Some(epoch) {
        ok := previousWindow.CheckAndMark(sequence);
        accepted := if ok then was + {n} else was;
        return;
      }
      if epoch > currentEpoch.value {
        PromoteEpoch(epoch);
        ok := currentWindow.CheckAndMark(sequence);
        AdmitsFirst(sequence);
        assert Sequences(was, epoch) == {};
        accepted := was + {n};
        return;
      }
      return false;
    }

    method PromoteEpoch(newEpoch: u16)
      modifies this
      ensures currentEpoch == Some(newEpoch) && previousEpoch == old(currentEpoch) && accepted == old(accepted)
      ensures previousWindow == old(currentWindow) && fresh(currentWindow)
      ensures currentWindow.Valid() && currentWindow.Whole() && currentWindow.seen == {}
    {
      previousEpoch := currentEpoch;
      previousWindow := currentWindow;
      currentEpoch := Some(newEpoch);
      currentWindow := new DtlsReplayWindow();
    }
  }

  lemma AdmitsFirst(sequence: nat)
    ensures Admits({}, sequence)
  {
  }

  lemma SequencesGrow(accepted: set<Number>, n: Number)
    ensures forall e: u16 :: Sequences(accepted + {n}, e) == if e == n.epoch then Sequences(accepted, e) + {n.sequence as nat} else Sequences(accepted, e)
  {
    forall e: u16 ensures Sequences(accepted + {n}, e) == if e == n.epoch then Sequences(accepted, e) + {n.sequence as nat} else Sequences(accepted, e) {
      if e == n.epoch {
        assert n in accepted + {n};
      }
    }
  }

  // Whole runs

  /** The reference after a list of calls on a fresh tracker. */
  ghost function Run(calls: seq<Number>): Reference {
    if calls == [] then Fresh() else After(Run(calls[..|calls| - 1]), calls[|calls| - 1])
  }

  /** Decision number i of the run. */
  ghost predicate Accepted(calls: seq<Number>, i: nat)
    requires i < |calls|
  {
    Decides(Run(calls[..i]), calls[i])
  }

  lemma {:induction false} RunOrdered(calls: seq<Number>)
    ensures Ordered(Run(calls))
  {
    if calls != [] {
      RunOrdered(calls[..|calls| - 1]);
      AfterOrdered(Run(calls[..|calls| - 1]), calls[|calls| - 1]);
    }
  }

  /** Some call with this number was accepted. */
  ghost predicate AcceptedSomewhere(calls: seq<Number>, n: Number) {
    exists i: nat :: i < |calls| && calls[i] == n && Accepted(calls, i)
  }

  lemma AcceptedStep(calls: seq<Number>, n: Number)
    requires calls != []
    ensures var last := |calls| - 1;
            AcceptedSomewhere(calls, n) <==> AcceptedSomewhere(calls[..last], n) || (calls[last] == n && Accepted(calls, last))
  {
    hide Decides, Run;
    var front := calls[..|calls| - 1];
    forall i: nat | i < |front| ensures Accepted(calls, i) == Accepted(front, i) && calls[i] == front[i] {
      assert calls[..i] == front[..i];
    }
  }

  /** The accepted set is exactly the numbers of the accepting calls. */
  lemma {:induction false} AcceptedSet(calls: seq<Number>, n: Number)
    ensures n in Run(calls).accepted <==> AcceptedSomewhere(calls, n)
  {
    hide Decides, AcceptedSomewhere;
    if calls == [] {
      NoneAccepted(n);
    } else {
      AcceptedSet(calls[..|calls| - 1], n);
      AcceptedStep(calls, n);
    }
  }

  lemma NoneAccepted(n: Number)
    ensures !AcceptedSomewhere([], n)
  {
  }

  /** A number once accepted is refused from then on. */
  lemma AcceptedIsSpent(r: Reference, n: Number)
    requires Ordered(r)
    ensures !Decides(After(r, n), n)
  {
    if Decides(r, n) {
      assert n in After(r, n).accepted;
      assert n.sequence in Sequences(After(r, n).accepted, n.epoch);
    }
  }

  /** A number once refused, as seen, too old or of a dead epoch, is refused from then on. */
  lemma RefusedStaysRefused(r: Reference, n: Number, x: Number)
    requires Ordered(r) && !Decides(r, n)
    ensures !Decides(After(r, x), n)
  {
    hide Admits;
    SequencesGrow(r.accepted, x);
    var (before, after) := (Sequences(r.accepted, n.epoch), Sequences(After(r, x).accepted, n.epoch));
    assert before <= after;
    AdmissionShrinks(before, after, n.sequence);
  }

  lemma AdmissionShrinks(before: set<nat>, after: set<nat>, sequence: nat)
    requires before <= after
    ensures Admits(after, sequence) ==> Admits(before, sequence)
  {
  }

  /** However calls are interleaved across epochs, only the first with a given record number can be accepted. */
  lemma {:induction false} OnlyFirstAccepted(calls: seq<Number>, i: nat, j: nat)
    requires i < j <= |calls|
    ensures !Decides(Run(calls[..j]), calls[i])
    decreases j
  {
    hide Decides, After;
    var before := calls[..j - 1];
    assert calls[..j][..j - 1] == before && calls[..j][j - 1] == calls[j - 1];
    RunOrdered(before);
    if i == j - 1 {
      AcceptedIsSpent(Run(before), calls[i]);
    } else {
      OnlyFirstAccepted(calls, i, j - 1);
      RefusedStaysRefused(Run(before), calls[i], calls[j - 1]);
    }
  }

  /** No record number is ever accepted twice, or after a refusal. */
  lemma NoReplay(calls: seq<Number>, i: nat, j: nat)
    requires i < j < |calls| && calls[i] == calls[j]
    ensures !Accepted(calls, j)
  {
    hide Decides;
    OnlyFirstAccepted(calls, i, j);
  }

  /** Epochs never move back. */
  lemma {:induction false} EpochsAdvance(calls: seq<Number>, i: nat)
    requires i <= |calls| && Run(calls[..i]).current.Some?
    ensures Run(calls).current.Some? && Run(calls[..i]).current.value <= Run(calls).current.value
    decreases |calls| - i
  {
    if i < |calls| {
      assert calls[..i + 1][..i] == calls[..i];
      EpochsAdvance(calls, i + 1);
    } else {
      assert calls[..i] == calls;
    }
  }

  /** A number of the current or previous epoch that was never accepted and lags by less than 64 is always let in. */
  lemma FreshIsAccepted(calls: seq<Number>, n: Number)
    requires var r := Run(calls); r.current == Some(n.epoch) || r.previous == Some(n.epoch)
    requires forall i: nat :: i < |calls| && Accepted(calls, i) ==> calls[i] != n
    requires forall i: nat :: i < |calls| && Accepted(calls, i) && calls[i].epoch == n.epoch ==> calls[i].sequence < n.sequence + 64
    ensures Accepted(calls + [n], |calls|)
  {
    hide Decides;
    assert (calls + [n])[..|calls|] == calls;
    RunOrdered(calls);
    AcceptedSet(calls, n);
    forall m | m in Run(calls).accepted && m.epoch == n.epoch ensures m.sequence < n.sequence + 64 && m != n {
      AcceptedSet(calls, m);
    }
    DecidesFresh(Run(calls), n);
  }

  lemma DecidesFresh(r: Reference, n: Number)
    requires Ordered(r) && (r.current == Some(n.epoch) || r.previous == Some(n.epoch))
    requires forall m :: m in r.accepted && m.epoch == n.epoch ==> m.sequence < n.sequence + 64 && m != n
    ensures Decides(r, n)
  {
  }

  // Decisions from the calls alone

  function HighestEpoch(calls: seq<Number>): nat
    requires calls != []
  {
    var last := calls[|calls| - 1];
    if |calls| == 1 then last.epoch else Max(HighestEpoch(calls[..|calls| - 1]), last.epoch)
  }

  /** Call f is the first of the highest epoch. */
  predicate Promotes(calls: seq<Number>, f: nat) {
    && f < |calls| && calls[f].epoch == HighestEpoch(calls)
    && forall i :: 0 <= i < f ==> calls[i].epoch < HighestEpoch(calls)
  }

  /** The epoch that was highest before the present highest one appeared. */
  predicate IsPrevious(calls: seq<Number>, epoch: u16) {
    exists f: nat :: f < |calls| && 0 < f && Promotes(calls, f) && epoch == HighestEpoch(calls[..f])
  }

  lemma {:induction false} HighestIs(calls: seq<Number>)
    requires calls != []
    ensures forall i :: 0 <= i < |calls| ==> calls[i].epoch <= HighestEpoch(calls)
    ensures exists i :: 0 <= i < |calls| && calls[i].epoch == HighestEpoch(calls)
  {
    var front := calls[..|calls| - 1];
    if front != [] {
      HighestIs(front);
      assert forall i :: 0 <= i < |front| ==> calls[i] == front[i];
    }
    assert calls[|calls| - 1].epoch <= HighestEpoch(calls);
  }

  /** The live epochs: the highest seen, and the one that was highest before it. */
  lemma {:induction false} LiveEpochs(calls: seq<Number>, epoch: u16)
    requires calls != []
    ensures Run(calls).current == Some(HighestEpoch(calls))
    ensures Run(calls).previous == Some(epoch) <==> IsPrevious(calls, epoch)
  {
    hide Decides, HighestEpoch;
    var (front, last) := (calls[..|calls| - 1], calls[|calls| - 1]);
    HighestIs(calls);
    if front == [] {
      FirstEpoch(calls);
    } else {
      LiveEpochs(front, epoch);
      HighestIs(front);
      HighestStep(calls);
      assert forall i :: 0 <= i < |front| ==> calls[i] == front[i];
      if last.epoch > HighestEpoch(front) {
        assert Promotes(calls, |front|);
        forall f: nat | Promotes(calls, f) ensures f == |front| {
        }
      } else {
        forall f: nat | f < |front| ensures Promotes(calls, f) <==> Promotes(front, f) {
        }
        forall f: nat | f <= |front| ensures calls[..f] == front[..f] {
        }
        PromotedInside(calls);
      }
    }
  }

  lemma FirstEpoch(calls: seq<Number>)
    requires |calls| == 1
    ensures HighestEpoch(calls) == calls[0].epoch && Run(calls).current == Some(calls[0].epoch) && Run(calls).previous == None
  {
    assert calls[..0] == [];
  }

  lemma HighestStep(calls: seq<Number>)
    requires |calls| > 1
    ensures HighestEpoch(calls) == Max(HighestEpoch(calls[..|calls| - 1]), calls[|calls| - 1].epoch)
  {
  }

  /** When the last call is not of a new highest epoch, that epoch appeared before it. */
  lemma PromotedInside(calls: seq<Number>)
    requires |calls| > 1 && calls[|calls| - 1].epoch <= HighestEpoch(calls[..|calls| - 1])
    ensures !Promotes(calls, |calls| - 1)
  {
    hide HighestEpoch;
    var front := calls[..|calls| - 1];
    HighestStep(calls);
    HighestIs(front);
    var i :| 0 <= i < |front| && front[i].epoch == HighestEpoch(front);
    assert calls[i] == front[i];
  }

  /** No accepted call of this epoch has this number, or one 64 or more ahead of it. */
  ghost predicate Open(calls: seq<Number>, n: Number) {
    forall i: nat :: i < |calls| && Accepted(calls, i) && calls[i].epoch == n.epoch ==>
                       calls[i].sequence != n.sequence && calls[i].sequence < n.sequence + 64
  }

  /** Every decision of every run: the first call, a new highest epoch, or an open number of a live epoch; nothing else is let in. */
  lemma DecisionIff(calls: seq<Number>, n: Number)
    ensures Accepted(calls + [n], |calls|) <==>
              || calls == []
              || n.epoch > HighestEpoch(calls)
              || ((n.epoch == HighestEpoch(calls) || IsPrevious(calls, n.epoch)) && Open(calls, n))
  {
    hide Admits, HighestEpoch, IsPrevious;
    assert (calls + [n])[..|calls|] == calls;
    if calls != [] {
      LiveEpochs(calls, n.epoch);
      OpenIs(calls, n);
    }
  }

  lemma OpenIs(calls: seq<Number>, n: Number)
    ensures Admits(Sequences(Run(calls).accepted, n.epoch), n.sequence) <==> Open(calls, n)
  {
    hide Run, Accepted;
    var r := Run(calls);
    forall m ensures m in r.accepted <==> AcceptedSomewhere(calls, m) {
      AcceptedSet(calls, m);
    }
    if Open(calls, n) {
      forall s | s in Sequences(r.accepted, n.epoch) ensures s != n.sequence && s < n.sequence + 64 {
        var m :| m in r.accepted && m.epoch == n.epoch && m.sequence == s;
        assert AcceptedSomewhere(calls, m);
      }
    }
    if Admits(Sequences(r.accepted, n.epoch), n.sequence) {
      forall i: nat | i < |calls| && Accepted(calls, i) && calls[i].epoch == n.epoch
        ensures calls[i].sequence != n.sequence && calls[i].sequence < n.sequence + 64
      {
        assert AcceptedSomewhere(calls, calls[i]);
        assert calls[i].sequence in Sequences(r.accepted, n.epoch);
      }
    }
  }
}
