/** When the retransmit tracker does send, keep and drop: exactly, from the history of a key alone. */
module DtlsRetransmitLiveness {
  import opened Words
  import opened Wrappers
  import opened Lists
  import opened DtlsRecords
  import opened DtlsRetransmit

  predicate Listed(records: seq<Record>, key: Key) {
    exists i :: 0 <= i < |records| && records[i].key == key
  }

  /** The earliest time of the next emission: the last one, or the tracking, plus the timeout doubled once for each. */
  function NextDue(h: History): u64 {
    Sat(SentBefore(h, |h.sends|) + Exponential(h.timeout, |h.sends|))
  }

  lemma RecordOf(max: nat, cap: u8, ops: seq<Op>, key: Key) returns (r: Record)
    requires max >= 1 && Listed(Run(max, cap, ops), key)
    ensures r in Run(max, cap, ops) && r.key == key && DistinctKeys(Run(max, cap, ops))
    ensures HistoryAfter(max, cap, ops, key).Some?
    ensures var h := HistoryAfter(max, cap, ops, key).value;
            && r.count == |h.sends| && r.nextAt == NextDue(h) && (r.acknowledged <==> h.acked.Some?)
  {
    hide Run, HistoryAfter, Exponential, Disciplined;
    InvHolds(max, cap, ops, key);
    var records := Run(max, cap, ops);
    var i :| 0 <= i < |records| && records[i].key == key;
    r := records[i];
    var h := HistoryAfter(max, cap, ops, key);
    MirrorsIs(r, h, cap);
  }

  lemma MirrorsIs(r: Record, h: Option<History>, cap: u8)
    requires Mirrors(r, h, cap)
    ensures h.Some? && r.count == |h.value.sends| && (r.acknowledged <==> h.value.acked.Some?) && r.nextAt == NextDue(h.value)
  {
    hide Exponential;
    BackoffIs(h.value.timeout, |h.value.sends|);
  }

  /** In any run, collecting emits a listed key exactly when it is unacknowledged, has attempts left, and is due. */
  lemma EmittedIff(max: nat, cap: u8, ops: seq<Op>, now: u64, key: Key)
    requires max >= 1 && Listed(Run(max, cap, ops), key)
    ensures HistoryAfter(max, cap, ops, key).Some?
    ensures var h := HistoryAfter(max, cap, ops, key).value;
            Emits(Run(max, cap, ops), cap, Collect(now), key) <==> h.acked == None && |h.sends| < cap && now >= NextDue(h)
  {
    hide Run, HistoryAfter, NextDue;
    var r := RecordOf(max, cap, ops, key);
    EmitsIs(Run(max, cap, ops), cap, now, r);
  }

  lemma EmitsIs(records: seq<Record>, cap: u8, now: u64, r: Record)
    requires DistinctKeys(records) && r in records
    ensures Emits(records, cap, Collect(now), r.key) <==> !r.acknowledged && r.count < cap && now >= r.nextAt
  {
  }

  /** Collecting drops exactly the unacknowledged keys that have used up their attempts. */
  lemma CollectKeeps(max: nat, cap: u8, ops: seq<Op>, now: u64, key: Key)
    requires max >= 1
    ensures Listed(Run(max, cap, ops + [Collect(now)]), key) <==>
              && Listed(Run(max, cap, ops), key)
              && var h := HistoryAfter(max, cap, ops, key); h.Some? && (h.value.acked.Some? || |h.value.sends| < cap)
  {
    hide Run, HistoryAfter, NextDue, Resent;
    var records := Run(max, cap, ops);
    RunStep(max, cap, ops, Collect(now));
    var kept := Filter(records, AliveUnder(cap));
    ResentKeys(kept, now, key);
    FilteredListed(records, AliveUnder(cap), key);
    if Listed(records, key) {
      var r := RecordOf(max, cap, ops, key);
      assert forall other :: other in records && other.key == key ==> other == r;
    }
  }

  lemma RunStep(max: nat, cap: u8, ops: seq<Op>, op: Op)
    ensures Run(max, cap, ops + [op]) == Step(Run(max, cap, ops), max, cap, op)
  {
    hide Step;
    assert (ops + [op])[..|ops|] == ops;
  }

  lemma ResentKeys(records: seq<Record>, now: u64, key: Key)
    ensures Listed(ResentAll(records, now), key) <==> Listed(records, key)
  {
    var after := ResentAll(records, now);
    forall i | 0 <= i < |records| ensures after[i].key == records[i].key {
    }
  }

  lemma FilteredListed(records: seq<Record>, keep: Record -> bool, key: Key)
    ensures Listed(Filter(records, keep), key) <==> exists r :: r in records && r.key == key && keep(r)
  {
    var kept := Filter(records, keep);
    forall r ensures r in kept <==> r in records && keep(r) {
      FilterIs(records, keep, r);
    }
  }

  /** Tracking lists the key, and drops another one exactly when the list is full, the key is new, and that other is the oldest. */
  lemma TrackKeeps(max: nat, cap: u8, ops: seq<Op>, k: Key, packet: seq<u8>, now: u64, initial: u64, key: Key)
    requires max >= 1 && k.sequence <= MAX_SEQUENCE
    ensures var (before, after) := (Run(max, cap, ops), Run(max, cap, ops + [Track(k, packet, now, initial)]));
            && Listed(after, k)
            && (key != k ==>
                  (Listed(after, key) <==> Listed(before, key) && !(!Listed(before, k) && |before| == max && before[0].key == key)))
  {
    hide Run;
    RunStep(max, cap, ops, Track(k, packet, now, initial));
    RunKeepsKeysDistinct(max, cap, ops);
    var (before, r) := (Run(max, cap, ops), FreshRecord(k, packet, now, initial));
    match Find(before, k) {
      case Some(i) =>
        var after := before[i := r];
        assert after[i].key == k;
        assert forall j :: 0 <= j < |before| ==> after[j].key == before[j].key;
      case None =>
        var all := before + [r];
        assert all[|before|] == r;
        assert forall j :: 0 <= j < |before| ==> all[j] == before[j];
        if |all| > max {
          assert |before| == max && Newest(all, max) == all[1..];
          assert forall j :: 0 <= j < max ==> all[1..][j] == all[j + 1];
          assert all[1..][max - 1] == r;
        }
    }
  }

  /** Acknowledging keeps every key listed; pruning drops exactly the acknowledged ones. */
  lemma OthersKeep(max: nat, cap: u8, ops: seq<Op>, k: Key, key: Key)
    requires max >= 1
    ensures Listed(Run(max, cap, ops + [Ack(k)]), key) <==> Listed(Run(max, cap, ops), key)
    ensures Listed(Run(max, cap, ops + [Prune]), key) <==>
              Listed(Run(max, cap, ops), key) && var h := HistoryAfter(max, cap, ops, key); h.Some? && h.value.acked == None
  {
    hide Run, HistoryAfter, NextDue;
    RunStep(max, cap, ops, Ack(k));
    RunStep(max, cap, ops, Prune);
    var records := Run(max, cap, ops);
    assert forall i :: 0 <= i < |records| ==> Acked(records, k)[i].key == records[i].key;
    FilteredListed(records, Pending(), key);
    if Listed(records, key) {
      var r := RecordOf(max, cap, ops, key);
      assert forall other :: other in records && other.key == key ==> other == r;
    }
  }

  // Packets

  /** The packet a key was last tracked with. */
  function LastPacket(ops: seq<Op>, key: Key): Option<seq<u8>> {
    if ops == [] then None
    else
      var op := ops[|ops| - 1];
      if op.Track? && op.key == key && key.sequence <= MAX_SEQUENCE then Some(op.packet) else LastPacket(ops[..|ops| - 1], key)
  }

  /** A record carries the packet its key was last tracked with. */
  lemma {:induction false} PacketIs(max: nat, cap: u8, ops: seq<Op>, r: Record)
    requires max >= 1 && r in Run(max, cap, ops)
    ensures LastPacket(ops, r.key) == Some(r.packet)
  {
    hide Tracked, Acked, Collected, Pruned;
    var (front, op) := (ops[..|ops| - 1], ops[|ops| - 1]);
    var records := Run(max, cap, front);
    RunKeepsKeysDistinct(max, cap, front);
    match op
    case Track(key, packet, now, initial) =>
      if key.sequence <= MAX_SEQUENCE {
        TrackedMembers(records, max, key, packet, now, initial, r);
        if r in records && r.key != key {
          PacketIs(max, cap, front, r);
        }
      } else {
        PacketIs(max, cap, front, r);
      }
    case Ack(key) =>
      AckedMembers(records, key, r);
      if r.key == key {
        var was :| was in records && was.key == key && r == was.(acknowledged := true);
        PacketIs(max, cap, front, was);
      } else {
        PacketIs(max, cap, front, r);
      }
    case Collect(now) =>
      var was := CollectedMember(records, now, cap, r);
      PacketIs(max, cap, front, was);
    case Prune =>
      PrunedMember(records, r);
      PacketIs(max, cap, front, r);
  }

  lemma PrunedMember(records: seq<Record>, r: Record)
    requires r in Pruned(records)
    ensures r in records
  {
    FilterIs(records, Pending(), r);
  }

  /** What collecting hands out. */
  function Returned(records: seq<Record>, now: u64, cap: u8): seq<seq<u8>> {
    Packets(Filter(records, AliveUnder(cap)), DueAt(now))
  }

  lemma {:induction false} PacketsAre(records: seq<Record>, test: Record -> bool, packet: seq<u8>)
    ensures packet in Packets(records, test) <==> exists r :: r in records && test(r) && r.packet == packet
  {
    if records != [] {
      var last := |records| - 1;
      PacketsAre(records[..last], test, packet);
      assert records == records[..last] + [records[last]];
    }
  }

  /** In any run, collecting hands out a packet exactly when some key last tracked with it is emitted. */
  lemma ReturnedIff(max: nat, cap: u8, ops: seq<Op>, now: u64, packet: seq<u8>)
    requires max >= 1
    ensures packet in Returned(Run(max, cap, ops), now, cap) <==>
              exists key :: Emits(Run(max, cap, ops), cap, Collect(now), key) && LastPacket(ops, key) == Some(packet)
  {
    hide Run, Packets, LastPacket;
    var records := Run(max, cap, ops);
    var kept := Filter(records, AliveUnder(cap));
    PacketsAre(kept, DueAt(now), packet);
    forall r ensures r in kept <==> r in records && Alive(r, cap) {
      FilterIs(records, AliveUnder(cap), r);
    }
    forall r | r in records ensures LastPacket(ops, r.key) == Some(r.packet) {
      PacketIs(max, cap, ops, r);
    }
    if packet in Returned(records, now, cap) {
      var r :| r in kept && Due(r, now) && r.packet == packet;
      assert Emits(records, cap, Collect(now), r.key);
    }
    forall key | Emits(records, cap, Collect(now), key) && LastPacket(ops, key) == Some(packet) ensures packet in Returned(records, now, cap) {
      var r :| r in records && r.key == key && Alive(r, cap) && Due(r, now);
      assert r in kept && DueAt(now)(r);
    }
  }
}
