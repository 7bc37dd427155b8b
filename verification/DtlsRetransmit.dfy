/** The DTLS flight retransmit tracker, and what every run of it keeps. */
module DtlsRetransmit {
  import opened Arith
  import opened Words
  import opened Wrappers
  import opened Lists
  import opened DtlsRecords

  const MAX64: nat := 0xFFFF_FFFF_FFFF_FFFF

  datatype Key = Key(epoch: u16, sequence: u64)

  datatype Record = Record(key: Key, packet: seq<u8>, acknowledged: bool, count: u8, lastSent: u64, nextAt: u64, timeout: u64)

  /** Saturating u64 arithmetic. */
  function Sat(x: nat): u64 {
    if x > MAX64 then MAX64 else x
  }

  // The operations on values

  function Find(records: seq<Record>, key: Key): (i: Option<nat>)
    ensures i.Some? ==> i.value < |records| && records[i.value].key == key
    ensures i.None? ==> forall k :: 0 <= k < |records| ==> records[k].key != key
  {
    FindFrom(records, key, 0)
  }

  function FindFrom(records: seq<Record>, key: Key, at: nat): (i: Option<nat>)
    requires at <= |records|
    ensures i.Some? ==> at <= i.value < |records| && records[i.value].key == key
    ensures i.None? ==> forall k :: at <= k < |records| ==> records[k].key != key
    decreases |records| - at
  {
    if at == |records| then None
    else if records[at].key == key then Some(at)
    else FindFrom(records, key, at + 1)
  }

  function FreshRecord(key: Key, packet: seq<u8>, now: u64, initial: u64): Record {
    var timeout := if initial < 1 then 1 else initial;
    Record(key, packet, false, 0, now, Sat(now + timeout), timeout)
  }

  function Tracked(records: seq<Record>, max: nat, key: Key, packet: seq<u8>, now: u64, initial: u64): seq<Record> {
    var r := FreshRecord(key, packet, now, initial);
    match Find(records, key)
    case Some(i) => records[i := r]
    case None => Newest(records + [r], max)
  }

  function Acked(records: seq<Record>, key: Key): seq<Record> {
    match Find(records, key)
    case Some(i) => records[i := records[i].(acknowledged := true)]
    case None => records
  }

  predicate Alive(r: Record, cap: u8) {
    r.acknowledged || r.count < cap
  }

  predicate Due(r: Record, now: u64) {
    !r.acknowledged && now >= r.nextAt
  }

  function AliveUnder(cap: u8): Record -> bool {
    r => Alive(r, cap)
  }

  function DueAt(now: u64): Record -> bool {
    r => Due(r, now)
  }

  function Pending(): Record -> bool {
    (r: Record) => !r.acknowledged
  }

  function Resent(r: Record, now: u64): Record {
    if !Due(r, now) then r
    else
      var timeout := if Sat(2 * r.timeout) < 1 then 1 else Sat(2 * r.timeout);
      Record(r.key, r.packet, false, if r.count == 255 then 255 else r.count + 1, now, Sat(now + timeout), timeout)
  }

  function ResentAll(records: seq<Record>, now: u64): seq<Record> {
    seq(|records|, i requires 0 <= i < |records| => Resent(records[i], now))
  }

  /** Packets of the records that pass a test, in order. */
  function Packets(records: seq<Record>, test: Record -> bool): seq<seq<u8>> {
    if records == [] then []
    else
      var last := |records| - 1;
      Packets(records[..last], test) + if test(records[last]) then [records[last].packet] else []
  }

  function Collected(records: seq<Record>, now: u64, cap: u8): seq<Record> {
    ResentAll(Filter(records, AliveUnder(cap)), now)
  }

  function Pruned(records: seq<Record>): seq<Record> {
    Filter(records, Pending())
  }

  // The tracker

  class DtlsFlightRetransmitTracker {
    var records: seq<Record>
    const maxRecords: nat

    ghost predicate Valid()
      reads this
    {
      maxRecords >= 1 && DistinctKeys(records) && |records| <= maxRecords
    }

    constructor (max: nat)
      ensures Valid() && records == [] && maxRecords == Max(max, 1)
    {
      records := [];
      maxRecords := Max(max, 1);
    }

    method TrackOutbound(key: Key, packet: seq<u8>, now: u64, initial: u64) returns (ok: bool)
      requires Valid()
      modifies this
      ensures Valid()
      ensures ok <==> key.sequence <= MAX_SEQUENCE
      ensures records == if ok then Tracked(old(records), maxRecords, key, packet, now, initial) else old(records)
    {
      if key.sequence > MAX_SEQUENCE {
        return false;
      }
      ghost var was := records;
      TrackedDistinct(records, maxRecords, key, packet, now, initial);
      var timeout: u64 := Max(initial, 1);
      var found := FindRecord(key);
      if found.Some? {
        records := records[found.value :=
          records[found.value].(packet := packet, acknowledged := false, count := 0, lastSent := now, timeout := timeout,
                                nextAt := Sat(now + timeout))];
        return true;
      }
      records := records + [Record(key, packet, false, 0, now, Sat(now + timeout), timeout)];
      ghost var pushed := records;
      while |records| > maxRecords
        invariant |records| <= |pushed| && records == pushed[|pushed| - |records|..]
        invariant |records| >= Min(|pushed|, maxRecords)
      {
        records := records[1..];
      }
      assert pushed == was + [FreshRecord(key, packet, now, initial)];
      assert records == Newest(pushed, maxRecords);
      return true;
    }

    method FindRecord(key: Key) returns (i: Option<nat>)
      ensures i == Find(records, key)
    {
      for k := 0 to |records|
        invariant FindFrom(records, key, k) == Find(records, key)
      {
        if records[k].key == key {
          return Some(k);
        }
      }
      return None;
    }

    method MarkAcked(key: Key) returns (found: bool)
      requires Valid()
      modifies this
      ensures Valid()
      ensures records == Acked(old(records), key)
      ensures found <==> exists r :: r in old(records) && r.key == key
    {
      var i := FindRecord(key);
      AckedDistinct(records, key);
      if i.Some? {
        assert records[i.value] in records;
        records := records[i.value := records[i.value].(acknowledged := true)];
        return true;
      }
      return false;
    }

    method PendingRetransmitPackets() returns (pending: seq<seq<u8>>)
      ensures pending == Packets(records, Pending())
    {
      pending := [];
      for i := 0 to |records|
        invariant pending == Packets(records[..i], Pending())
      {
        assert records[..i + 1][..i] == records[..i];
        if !records[i].acknowledged {
          pending := pending + [records[i].packet];
        }
      }
      assert records[..|records|] == records;
    }

    method Retain(keep: Record -> bool)
      requires Valid()
      modifies this`records
      ensures Valid() && records == Filter(old(records), keep)
    {
      var was := records;
      var kept := [];
      for i := 0 to |was|
        invariant kept == Filter(was[..i], keep)
      {
        assert was[..i + 1][..i] == was[..i];
        if keep(was[i]) {
          kept := kept + [was[i]];
        }
      }
      assert was[..|was|] == was;
      FilterDistinct(was, keep);
      records := kept;
    }

    method CollectDueRetransmitPackets(now: u64, cap: u8) returns (due: seq<seq<u8>>)
      requires Valid()
      modifies this`records
      ensures Valid() && records == Collected(old(records), now, cap)
      ensures due == Packets(Filter(old(records), AliveUnder(cap)), DueAt(now))
    {
      hide Resent, Packets;
      Retain(AliveUnder(cap));
      ghost var was := records;
      due := [];
      NoPackets(DueAt(now));
      for i := 0 to |records|
        invariant |records| == |was|
        invariant forall k :: 0 <= k < i ==> records[k] == Resent(was[k], now)
        invariant forall k :: i <= k < |was| ==> records[k] == was[k]
        invariant due == Packets(was[..i], DueAt(now))
      {
        PacketStep(was, DueAt(now), i);
        var r := records[i];
        ResentIs(r, now);
        if !(r.acknowledged || now < r.nextAt) {
          due := due + [r.packet];
          var timeout := Max(Sat(2 * r.timeout), 1);
          records := records[i := Record(r.key, r.packet, false, Min(r.count as int + 1, 255), now, Sat(now + timeout), timeout)];
        }
      }
      assert was[..|was|] == was;
      assert records == ResentAll(was, now);
      ResentDistinct(was, now);
    }

    method PruneAcked() returns (removed: nat)
      requires Valid()
      modifies this`records
      ensures Valid() && records == Pruned(old(records))
      ensures removed == |old(records)| - |records|
    {
      var before := |records|;
      Retain(Pending());
      removed := before - |records|;
    }
  }

  lemma NoPackets(test: Record -> bool)
    ensures Packets([], test) == []
  {
  }

  lemma PacketStep(records: seq<Record>, test: Record -> bool, i: nat)
    requires i < |records|
    ensures Packets(records[..i + 1], test) == Packets(records[..i], test) + if test(records[i]) then [records[i].packet] else []
  {
    assert records[..i + 1][..i] == records[..i];
  }

  lemma ResentIs(r: Record, now: u64)
    ensures Resent(r, now) ==
      if r.acknowledged || now < r.nextAt then r
      else var timeout := Max(Sat(2 * r.timeout), 1);
           Record(r.key, r.packet, false, Min(r.count as int + 1, 255), now, Sat(now + timeout), timeout)
  {
  }

  // Keys stay distinct

  predicate DistinctKeys(records: seq<Record>) {
    forall i, j :: 0 <= i < j < |records| ==> records[i].key != records[j].key
  }

  lemma TrackedDistinct(records: seq<Record>, max: nat, key: Key, packet: seq<u8>, now: u64, initial: u64)
    requires DistinctKeys(records) && |records| <= max
    ensures var s := Tracked(records, max, key, packet, now, initial);
            DistinctKeys(s) && |s| <= max
  {
  }

  lemma AckedDistinct(records: seq<Record>, key: Key)
    requires DistinctKeys(records)
    ensures DistinctKeys(Acked(records, key))
  {
  }

  lemma {:induction false} FilterDistinct(records: seq<Record>, keep: Record -> bool)
    requires DistinctKeys(records)
    ensures DistinctKeys(Filter(records, keep))
  {
    if records != [] {
      var last := |records| - 1;
      FilterDistinct(records[..last], keep);
      forall r | r in Filter(records[..last], keep) ensures r.key != records[last].key {
        FilterIs(records[..last], keep, r);
      }
    }
  }

  lemma ResentDistinct(records: seq<Record>, now: u64)
    requires DistinctKeys(records)
    ensures DistinctKeys(ResentAll(records, now))
  {
  }

  // Whole runs with one attempt cap

  datatype Op =
    | Track(key: Key, packet: seq<u8>, now: u64, initial: u64)
    | Ack(key: Key)
    | Collect(now: u64)
    | Prune

  function Step(records: seq<Record>, max: nat, cap: u8, op: Op): seq<Record> {
    match op
    case Track(key, packet, now, initial) =>
      if key.sequence > MAX_SEQUENCE then records else Tracked(records, max, key, packet, now, initial)
    case Ack(key) => Acked(records, key)
    case Collect(now) => Collected(records, now, cap)
    case Prune => Pruned(records)
  }

  function Run(max: nat, cap: u8, ops: seq<Op>): seq<Record> {
    if ops == [] then [] else Step(Run(max, cap, ops[..|ops| - 1]), max, cap, ops[|ops| - 1])
  }

  /** This operation hands out the packet of `key`. */
  ghost predicate Emits(records: seq<Record>, cap: u8, op: Op, key: Key) {
    op.Collect? && exists r :: r in records && r.key == key && Alive(r, cap) && Due(r, op.now)
  }

  /** What has happened to a key since it was last tracked: when, with what timeout, each emission, and how many before an acknowledgement. */
  datatype History = History(start: u64, timeout: u64, sends: seq<u64>, acked: Option<nat>)

  ghost function HistoryAfter(max: nat, cap: u8, ops: seq<Op>, key: Key): Option<History> {
    if ops == [] then None
    else
      var (front, op) := (ops[..|ops| - 1], ops[|ops| - 1]);
      Noted(HistoryAfter(max, cap, front, key), Run(max, cap, front), cap, op, key)
  }

  ghost function Noted(h: Option<History>, records: seq<Record>, cap: u8, op: Op, key: Key): Option<History> {
    match op
    case Track(k, _, now, initial) =>
      if k == key && k.sequence <= MAX_SEQUENCE then Some(History(now, if initial < 1 then 1 else initial, [], None)) else h
    case Ack(k) =>
      if k == key && h.Some? && h.value.acked == None then Some(h.value.(acked := Some(|h.value.sends|))) else h
    case Collect(now) =>
      if h.Some? && Emits(records, cap, op, key) then Some(h.value.(sends := h.value.sends + [now])) else h
    case Prune => h
  }

  /** initial * 2^k, saturating at 2^64 - 1. */
  function Backoff(initial: u64, k: nat): u64 {
    if k == 0 then initial else Sat(2 * Backoff(initial, k - 1))
  }

  function Exponential(initial: u64, k: nat): u64 {
    MulSign(initial, Pow2(k));
    Sat(Mul(initial, Pow2(k)))
  }

  lemma {:induction false} BackoffIs(initial: u64, k: nat)
    ensures Backoff(initial, k) == Exponential(initial, k)
  {
    hide Mul;
    if k == 0 {
      MulUnit(initial);
      Pow2Zero();
    } else {
      BackoffIs(initial, k - 1);
      Distrib(initial, Pow2(k - 1), Pow2(k - 1));
    }
  }

  lemma {:induction false} BackoffPositive(initial: u64, k: nat)
    requires initial >= 1
    ensures Backoff(initial, k) >= 1
  {
    if k > 0 {
      BackoffPositive(initial, k - 1);
    }
  }

  function SentBefore(h: History, k: nat): u64
    requires k <= |h.sends|
  {
    if k == 0 then h.start else h.sends[k - 1]
  }

  /** Emission k comes no earlier than the backed-off timeout after the one before it. */
  ghost predicate Spaced(h: History) {
    forall k: nat :: k < |h.sends| ==> SpacedAt(h, k)
  }

  ghost predicate SpacedAt(h: History, k: nat)
    requires k < |h.sends|
  {
    h.sends[k] >= Sat(SentBefore(h, k) + Backoff(h.timeout, k))
  }

  /** At most `cap` emissions, spaced, and none after an acknowledgement. */
  ghost predicate Disciplined(h: History, cap: u8) {
    h.timeout >= 1 && |h.sends| <= cap && Spaced(h) && (h.acked.Some? ==> h.acked.value == |h.sends|)
  }

  /** A record in the list mirrors its key's history. */
  ghost predicate Mirrors(r: Record, h: Option<History>, cap: u8) {
    && h.Some?
    && r.count == |h.value.sends|
    && r.lastSent == SentBefore(h.value, |h.value.sends|)
    && r.timeout == Backoff(h.value.timeout, r.count)
    && r.nextAt == Sat(r.lastSent + r.timeout)
    && (r.acknowledged <==> h.value.acked.Some?)
  }

  ghost predicate Inv(records: seq<Record>, h: Option<History>, key: Key, max: nat, cap: u8) {
    && DistinctKeys(records) && |records| <= max
    && (forall r :: r in records && r.key == key ==> Mirrors(r, h, cap))
    && (h.Some? ==> Disciplined(h.value, cap))
  }

  lemma InvTrack(records: seq<Record>, h: Option<History>, key: Key, max: nat, cap: u8, op: Op)
    requires op.Track? && Inv(records, h, key, max, cap)
    ensures Inv(Step(records, max, cap, op), Noted(h, records, cap, op, key), key, max, cap)
  {
    if op.key.sequence <= MAX_SEQUENCE {
      TrackedDistinct(records, max, op.key, op.packet, op.now, op.initial);
      var s := Tracked(records, max, op.key, op.packet, op.now, op.initial);
      var made := FreshRecord(op.key, op.packet, op.now, op.initial);
      forall r | r in s && r.key == key ensures Mirrors(r, Noted(h, records, cap, op, key), cap) {
        TrackedMembers(records, max, op.key, op.packet, op.now, op.initial, r);
      }
    }
  }

  lemma TrackedMembers(records: seq<Record>, max: nat, key: Key, packet: seq<u8>, now: u64, initial: u64, r: Record)
    requires DistinctKeys(records) && r in Tracked(records, max, key, packet, now, initial)
    ensures r == FreshRecord(key, packet, now, initial) || (r in records && r.key != key)
  {
  }

  lemma InvAck(records: seq<Record>, h: Option<History>, key: Key, max: nat, cap: u8, op: Op)
    requires op.Ack? && Inv(records, h, key, max, cap)
    ensures Inv(Step(records, max, cap, op), Noted(h, records, cap, op, key), key, max, cap)
  {
    AckedDistinct(records, op.key);
    var h' := Noted(h, records, cap, op, key);
    if h'.Some? {
      forall k: nat | k < |h'.value.sends| ensures SpacedAt(h'.value, k) {
        assert SpacedAt(h.value, k);
      }
    }
    var s := Acked(records, op.key);
    forall r | r in s && r.key == key ensures Mirrors(r, Noted(h, records, cap, op, key), cap) {
      AckedMembers(records, op.key, r);
    }
  }

  lemma AckedMembers(records: seq<Record>, key: Key, r: Record)
    requires DistinctKeys(records) && r in Acked(records, key)
    ensures if r.key == key then exists was :: was in records && was.key == key && r == was.(acknowledged := true) else r in records
  {
    var i := Find(records, key);
    if i.Some? && r.key == key {
      assert records[i.value] in records;
    }
  }

  lemma InvPrune(records: seq<Record>, h: Option<History>, key: Key, max: nat, cap: u8)
    requires Inv(records, h, key, max, cap)
    ensures Inv(Pruned(records), h, key, max, cap)
  {
    FilterDistinct(records, Pending());
    forall r | r in Pruned(records) ensures r in records {
      FilterIs(records, Pending(), r);
    }
  }

  /** A record of the collected list and the one it came from. */
  lemma CollectedMember(records: seq<Record>, now: u64, cap: u8, r: Record) returns (was: Record)
    requires r in Collected(records, now, cap)
    ensures was in records && Alive(was, cap) && r == Resent(was, now) && r.key == was.key
  {
    var kept := Filter(records, AliveUnder(cap));
    var i :| 0 <= i < |kept| && r == Resent(kept[i], now);
    was := kept[i];
    FilterIs(records, AliveUnder(cap), was);
  }

  lemma SameKeySame(records: seq<Record>, a: Record, b: Record)
    requires DistinctKeys(records) && a in records && b in records && a.key == b.key
    ensures a == b
  {
  }

  /** One more emission of a record that is due and below its cap. */
  lemma OneEmission(was: Record, h: History, now: u64, cap: u8)
    requires Mirrors(was, Some(h), cap) && Disciplined(h, cap) && Alive(was, cap) && Due(was, now)
    ensures var h' := h.(sends := h.sends + [now]);
            Disciplined(h', cap) && Mirrors(Resent(was, now), Some(h'), cap)
  {
    hide Spaced, Backoff;
    StillSpaced(h, now);
    BackoffPositive(h.timeout, |h.sends| + 1);
    BackoffStep(h.timeout, |h.sends|);
  }

  lemma BackoffStep(initial: u64, k: nat)
    ensures Backoff(initial, k + 1) == Sat(2 * Backoff(initial, k))
  {
  }

  lemma StillSpaced(h: History, now: u64)
    requires Spaced(h) && now >= Sat(SentBefore(h, |h.sends|) + Backoff(h.timeout, |h.sends|))
    ensures Spaced(h.(sends := h.sends + [now]))
  {
    hide Backoff;
    var h' := h.(sends := h.sends + [now]);
    forall k: nat | k < |h'.sends| ensures SpacedAt(h', k) {
      assert SentBefore(h', k) == SentBefore(h, k);
      if k < |h.sends| {
        assert SpacedAt(h, k);
      }
    }
  }

  lemma InvCollect(records: seq<Record>, h: Option<History>, key: Key, max: nat, cap: u8, op: Op)
    requires op.Collect? && Inv(records, h, key, max, cap)
    ensures Inv(Collected(records, op.now, cap), Noted(h, records, cap, op, key), key, max, cap)
  {
    hide Mirrors, Disciplined, Resent, Alive;
    FilterDistinct(records, AliveUnder(cap));
    ResentDistinct(Filter(records, AliveUnder(cap)), op.now);
    if Emits(records, cap, op, key) {
      var sent :| sent in records && sent.key == key && Alive(sent, cap) && Due(sent, op.now);
      HasHistory(sent, h, cap);
      OneEmission(sent, h.value, op.now, cap);
    }
    forall r | r in Collected(records, op.now, cap) && r.key == key ensures Mirrors(r, Noted(h, records, cap, op, key), cap) {
      var was := CollectedMember(records, op.now, cap, r);
      if Emits(records, cap, op, key) {
        var sent :| sent in records && sent.key == key && Alive(sent, cap) && Due(sent, op.now);
        SameKeySame(records, was, sent);
        OneEmission(sent, h.value, op.now, cap);
      } else {
        NotSent(was, op.now);
      }
    }
  }

  lemma HasHistory(r: Record, h: Option<History>, cap: u8)
    requires Mirrors(r, h, cap)
    ensures h.Some?
  {
  }

  lemma NotSent(r: Record, now: u64)
    ensures !Due(r, now) ==> Resent(r, now) == r
  {
  }

  lemma {:induction false} InvHolds(max: nat, cap: u8, ops: seq<Op>, key: Key)
    requires max >= 1
    ensures Inv(Run(max, cap, ops), HistoryAfter(max, cap, ops, key), key, max, cap)
  {
    hide Inv, Noted;
    if ops == [] {
      NothingYet(key, max, cap);
    } else {
      var (front, op) := (ops[..|ops| - 1], ops[|ops| - 1]);
      InvHolds(max, cap, front, key);
      var (records, h) := (Run(max, cap, front), HistoryAfter(max, cap, front, key));
      match op
      case Track(_, _, _, _) => InvTrack(records, h, key, max, cap, op);
      case Ack(_) => InvAck(records, h, key, max, cap, op);
      case Collect(_) => InvCollect(records, h, key, max, cap, op);
      case Prune =>
        InvPrune(records, h, key, max, cap);
        PruneNotes(h, records, cap, key);
    }
  }

  lemma PruneNotes(h: Option<History>, records: seq<Record>, cap: u8, key: Key)
    ensures Noted(h, records, cap, Prune, key) == h
  {
  }

  lemma NothingYet(key: Key, max: nat, cap: u8)
    ensures Inv([], None, key, max, cap)
  {
  }

  /** In every run keys stay distinct and the list never outgrows its limit. */
  lemma RunKeepsKeysDistinct(max: nat, cap: u8, ops: seq<Op>)
    requires max >= 1
    ensures DistinctKeys(Run(max, cap, ops)) && |Run(max, cap, ops)| <= max
  {
    InvHolds(max, cap, ops, Key(0, 0));
  }

  /**
   In every run, since a key was last tracked it was emitted at most `cap` times, never after being
   acknowledged, and each emission waited out the doubled timeout.
   */
  lemma RetransmissionDiscipline(max: nat, cap: u8, ops: seq<Op>, key: Key)
    requires max >= 1 && HistoryAfter(max, cap, ops, key).Some?
    ensures var h := HistoryAfter(max, cap, ops, key).value;
            && |h.sends| <= cap
            && (h.acked.Some? ==> |h.sends| == h.acked.value)
            && forall k: nat :: k < |h.sends| ==> h.sends[k] >= Sat(SentBefore(h, k) + Exponential(h.timeout, k))
  {
    hide Mul, Pow2, Backoff, Noted, Run, HistoryAfter, SentBefore;
    InvHolds(max, cap, ops, key);
    var h := HistoryAfter(max, cap, ops, key).value;
    forall k: nat | k < |h.sends| ensures h.sends[k] >= Sat(SentBefore(h, k) + Exponential(h.timeout, k)) {
      BackoffIs(h.timeout, k);
      assert SpacedAt(h, k);
    }
  }

  /** Only tracked keys are ever emitted. */
  lemma OnlyTrackedIsEmitted(max: nat, cap: u8, ops: seq<Op>, op: Op, key: Key)
    requires max >= 1 && Emits(Run(max, cap, ops), cap, op, key)
    ensures HistoryAfter(max, cap, ops, key).Some? && HistoryAfter(max, cap, ops, key).value.acked == None
  {
    InvHolds(max, cap, ops, key);
  }

  /** Packets are handed out record by record, in order. */
  lemma {:induction false} PacketsParts(a: seq<Record>, b: seq<Record>, r: Record, test: Record -> bool)
    ensures Packets(a + b, test) == Packets(a, test) + Packets(b, test)
    ensures Packets([r], test) == if test(r) then [r.packet] else []
  {
    assert [r][..0] == [];
    if b == [] {
      assert a + b == a && Packets(a, test) + [] == Packets(a, test);
    } else {
      var last := |b| - 1;
      PacketsParts(a, b[..last], r, test);
      assert (a + b)[..|a + b| - 1] == a + b[..last];
    }
  }
}
