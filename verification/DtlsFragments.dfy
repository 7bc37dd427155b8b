/** DTLS handshake fragments: encoding, parsing, and reassembly in any order. */
module DtlsFragments {
  import opened Words
  import opened Wrappers
  import opened Bytes
  import opened DtlsRecords

  const FRAGMENT_HEADER: nat := 12
  const MAX24: nat := 0xFF_FFFF

  datatype Fragment = Fragment(handshakeType: u8, messageLen: nat, messageSeq: u16, offset: nat, body: seq<u8>)

  /** A fragment lies inside its message, and the message has a 24-bit length. */
  predicate Fitting(f: Fragment) {
    f.messageLen <= MAX24 && f.offset + |f.body| <= f.messageLen
  }

  function EncodeFragment(f: Fragment): Result<seq<u8>, DtlsError> {
    if f.messageLen > MAX24 || f.offset > MAX24 || |f.body| > MAX24 then Err(InvalidLength)
    else if f.offset + |f.body| > f.messageLen then Err(InvalidLength)
    else Ok([f.handshakeType] + ToBe(f.messageLen, 3) + ToBe(f.messageSeq, 2) + ToBe(f.offset, 3) + ToBe(|f.body|, 3) + f.body)
  }

  function ParseFragment(input: seq<u8>): Result<Fragment, DtlsError> {
    if |input| < FRAGMENT_HEADER then Err(ParseFailure)
    else
      Below(input[4..6], input[1..4]);
      var (messageLen, offset, fragmentLen) := (OfBe(input[1..4]), OfBe(input[6..9]), OfBe(input[9..12]));
      if |input| - FRAGMENT_HEADER != fragmentLen then Err(ParseFailure)
      else if offset > messageLen then Err(ParseFailure)
      else if offset + fragmentLen > messageLen then Err(ParseFailure)
      else Ok(Fragment(input[0], messageLen, OfBe(input[4..6]), offset, input[12..]))
  }

  lemma Below(a: seq<u8>, b: seq<u8>)
    requires |a| == 2 && |b| == 3
    ensures OfBe(a) < 0x1_0000 && OfBe(b) <= MAX24
  {
    BeCanonical(a);
    BeCanonical(b);
    Powers256();
  }

  lemma FragmentFields(t: u8, total: seq<u8>, number: seq<u8>, offset: seq<u8>, len: seq<u8>, body: seq<u8>)
    requires |total| == 3 && |number| == 2 && |offset| == 3 && |len| == 3
    ensures var input := [t] + total + number + offset + len + body;
            && |input| == FRAGMENT_HEADER + |body| && input[0] == t && input[1..4] == total && input[4..6] == number
            && input[6..9] == offset && input[9..12] == len && input[12..] == body
  {
  }

  /** Encoding succeeds exactly on fitting fragments, and parses back. */
  lemma FragmentRoundTrip(f: Fragment)
    ensures EncodeFragment(f).Ok? <==> Fitting(f)
    ensures Fitting(f) ==> ParseFragment(EncodeFragment(f).value) == Ok(f)
  {
    hide ToBe, OfBe;
    if Fitting(f) {
      Powers256();
      BeRoundTrip(f.messageLen, 3);
      BeRoundTrip(f.messageSeq, 2);
      BeRoundTrip(f.offset, 3);
      BeRoundTrip(|f.body|, 3);
      FragmentFields(f.handshakeType, ToBe(f.messageLen, 3), ToBe(f.messageSeq, 2), ToBe(f.offset, 3), ToBe(|f.body|, 3), f.body);
    }
  }

  /** Only encodings parse, each to the fragment it encodes. */
  lemma FragmentCanonical(input: seq<u8>)
    requires ParseFragment(input).Ok?
    ensures Fitting(ParseFragment(input).value) && EncodeFragment(ParseFragment(input).value) == Ok(input)
  {
    hide ToBe, OfBe;
    Below(input[4..6], input[1..4]);
    Below(input[4..6], input[6..9]);
    Below(input[4..6], input[9..12]);
    BeCanonical(input[1..4]);
    BeCanonical(input[4..6]);
    BeCanonical(input[6..9]);
    BeCanonical(input[9..12]);
    assert input == [input[0]] + input[1..4] + input[4..6] + input[6..9] + input[9..12] + input[12..];
  }

  // Splitting a message

  /** A whole message. */
  datatype Message = Message(handshakeType: u8, messageSeq: u16, body: seq<u8>)

  /** The part of a message from `start` to `end`. */
  function Part(m: Message, start: nat, end: nat): Fragment
    requires start <= end <= |m.body|
  {
    Fragment(m.handshakeType, |m.body|, m.messageSeq, start, m.body[start..end])
  }

  function Parts(m: Message, max: nat, offset: nat): seq<Fragment>
    requires 0 < max && offset <= |m.body|
    decreases |m.body| - offset
  {
    if offset == |m.body| then []
    else
      var end := Min(offset + max, |m.body|);
      [Part(m, offset, end)] + Parts(m, max, end)
  }

  /** The fragments a message is sent as. */
  function Split(m: Message, max: nat): seq<Fragment>
    requires 0 < max
  {
    if m.body == [] then [Part(m, 0, 0)] else Parts(m, max, 0)
  }

  function Encoded(f: Fragment): seq<u8>
    requires Fitting(f)
  {
    FragmentRoundTrip(f);
    EncodeFragment(f).value
  }

  predicate AllFit(fs: seq<Fragment>) {
    forall i :: 0 <= i < |fs| ==> Fitting(fs[i])
  }

  function EncodedAll(fs: seq<Fragment>): (r: seq<seq<u8>>)
    requires AllFit(fs)
    ensures |r| == |fs|
  {
    seq(|fs|, i requires 0 <= i < |fs| => Encoded(fs[i]))
  }

  lemma {:induction false} PartsFit(m: Message, max: nat, offset: nat)
    requires 0 < max && offset <= |m.body| <= MAX24
    ensures AllFit(Parts(m, max, offset))
    decreases |m.body| - offset
  {
    if offset < |m.body| {
      PartsFit(m, max, Min(offset + max, |m.body|));
    }
  }

  lemma SplitFits(m: Message, max: nat)
    requires 0 < max && |m.body| <= MAX24
    ensures AllFit(Split(m, max))
  {
    PartsFit(m, max, 0);
  }

  method EncodeFragments(m: Message, max: nat) returns (r: Result<seq<seq<u8>>, DtlsError>)
    ensures r.Ok? <==> 0 < max && |m.body| <= MAX24
    ensures r.Ok? ==> AllFit(Split(m, max)) && r.value == EncodedAll(Split(m, max))
    ensures r.Err? ==> r.error == InvalidLength
  {
    hide EncodeFragment;
    if max == 0 || |m.body| > MAX24 {
      return Err(InvalidLength);
    }
    SplitFits(m, max);
    if m.body == [] {
      return Ok([Encoded(Part(m, 0, 0))]);
    }
    var out := [];
    var offset := 0;
    while offset < |m.body|
      invariant offset <= |m.body| && |out| <= |Split(m, max)|
      invariant Split(m, max)[|out|..] == Parts(m, max, offset)
      invariant out == EncodedAll(Split(m, max))[..|out|]
    {
      var end := Min(offset + max, |m.body|);
      assert Split(m, max)[|out|] == Split(m, max)[|out|..][0] == Part(m, offset, end);
      assert Split(m, max)[|out| + 1..] == Split(m, max)[|out|..][1..];
      out := out + [Encoded(Part(m, offset, end))];
      offset := end;
    }
    return Ok(out);
  }

  // Reassembly

  /** Bytes received so far. */
  type Holes = seq<Option<u8>>

  function Write(buffer: Holes, f: Fragment): (r: Holes)
    requires f.offset + |f.body| <= |buffer|
    ensures |r| == |buffer|
  {
    seq(|buffer|, i requires 0 <= i < |buffer| =>
      if f.offset <= i < f.offset + |f.body| then Some(f.body[i - f.offset]) else buffer[i])
  }

  predicate SameMessage(f: Fragment, g: Fragment) {
    f.handshakeType == g.handshakeType && f.messageSeq == g.messageSeq && f.messageLen == g.messageLen
  }

  /** The buffer after the first n inputs, each parsed, compared with the first and written. */
  function Received(inputs: seq<seq<u8>>, first: Fragment, n: nat): (r: Result<Holes, DtlsError>)
    requires n <= |inputs|
    ensures r.Ok? ==> |r.value| == first.messageLen
  {
    if n == 0 then Ok(seq(first.messageLen, _ => None))
    else
      var buffer :- Received(inputs, first, n - 1);
      var f :- ParseFragment(inputs[n - 1]);
      if !SameMessage(f, first) then Err(ParseFailure) else Ok(Write(buffer, f))
  }

  predicate Complete(buffer: Holes) {
    forall i :: 0 <= i < |buffer| ==> buffer[i].Some?
  }

  function Filled(buffer: Holes): (s: seq<u8>)
    requires Complete(buffer)
    ensures |s| == |buffer|
  {
    seq(|buffer|, i requires 0 <= i < |buffer| => buffer[i].value)
  }

  /** What `reassemble_dtls12_handshake_fragments` returns. */
  function Reassembled(inputs: seq<seq<u8>>, limit: nat): Result<Message, DtlsError> {
    if inputs == [] then Err(InvalidLength)
    else
      var first :- ParseFragment(inputs[0]);
      if first.messageLen > limit then Err(InvalidLength)
      else
        var buffer :- Received(inputs, first, |inputs|);
        if Complete(buffer) then Ok(Message(first.handshakeType, first.messageSeq, Filled(buffer))) else Err(ParseFailure)
  }

  /** The output and the map of filled positions agree with a buffer. */
  ghost predicate Shows(out: seq<u8>, filled: seq<bool>, buffer: Holes) {
    && |out| == |filled| == |buffer|
    && forall i :: 0 <= i < |buffer| ==> buffer[i] == if filled[i] then Some(out[i]) else None
  }

  method CopyIn(out: array<u8>, filled: array<bool>, f: Fragment, ghost buffer: Holes)
    requires out != filled as object && Shows(out[..], filled[..], buffer) && f.offset + |f.body| <= |buffer|
    modifies out, filled
    ensures Shows(out[..], filled[..], Write(buffer, f))
  {
    for i := 0 to |f.body|
      invariant forall k :: 0 <= k < |buffer| && !(f.offset <= k < f.offset + i) ==> out[k] == old(out[k]) && filled[k] == old(filled[k])
      invariant forall k :: f.offset <= k < f.offset + i ==> out[k] == f.body[k - f.offset] && filled[k]
    {
      out[f.offset + i] := f.body[i];
      filled[f.offset + i] := true;
    }
    forall k | 0 <= k < |buffer| ensures Write(buffer, f)[k] == if filled[k] then Some(out[k]) else None {
      assert buffer[k] == if old(filled[..])[k] then Some(old(out[..])[k]) else None;
    }
  }

  method Reassemble(inputs: seq<seq<u8>>, limit: nat) returns (r: Result<Message, DtlsError>)
    ensures r == Reassembled(inputs, limit)
  {
    hide ParseFragment, Write;
    if inputs == [] {
      return Err(InvalidLength);
    }
    var first :- ParseFragment(inputs[0]);
    var total := first.messageLen;
    if total > limit {
      return Err(InvalidLength);
    }
    var out := new u8[total](_ => 0);
    var filled := new bool[total](_ => false);
    for n := 0 to |inputs|
      invariant Received(inputs, first, n).Ok? && Shows(out[..], filled[..], Received(inputs, first, n).value)
    {
      ReceivedStops(inputs, first, n + 1);
      var f :- ParseFragment(inputs[n]);
      ParsedFits(inputs[n]);
      if f.handshakeType != first.handshakeType || f.messageSeq != first.messageSeq || f.messageLen != first.messageLen {
        return Err(ParseFailure);
      }
      CopyIn(out, filled, f, Received(inputs, first, n).value);
    }
    var complete := true;
    for i := 0 to total
      invariant complete <==> forall k :: 0 <= k < i ==> filled[k]
    {
      complete := complete && filled[i];
    }
    if !complete {
      return Err(ParseFailure);
    }
    ghost var buffer := Received(inputs, first, |inputs|).value;
    assert forall i :: 0 <= i < total ==> buffer[i] == Some(out[..][i]);
    assert Filled(buffer) == out[..];
    return Ok(Message(first.handshakeType, first.messageSeq, out[..]));
  }

  lemma ParsedFits(input: seq<u8>)
    requires ParseFragment(input).Ok?
    ensures Fitting(ParseFragment(input).value)
  {
    FragmentCanonical(input);
  }

  /** A failure among the first n inputs is the failure of all. */
  lemma {:induction false} ReceivedStops(inputs: seq<seq<u8>>, first: Fragment, n: nat)
    requires n <= |inputs|
    ensures Received(inputs, first, n).Err? ==> Received(inputs, first, |inputs|) == Received(inputs, first, n)
    decreases |inputs| - n
  {
    hide ParseFragment, Write;
    if n < |inputs| {
      ReceivedStops(inputs, first, n + 1);
    }
  }

  // What reassembly gives back

  predicate Covers(f: Fragment, i: nat) {
    f.offset <= i < f.offset + |f.body|
  }

  /** f carries a slice of m. */
  predicate Carries(f: Fragment, m: Message) {
    && Fitting(f) && f.handshakeType == m.handshakeType && f.messageSeq == m.messageSeq && f.messageLen == |m.body|
    && f.body == m.body[f.offset..f.offset + |f.body|]
  }

  predicate Covered(fs: seq<Fragment>, i: nat) {
    exists j :: 0 <= j < |fs| && Covers(fs[j], i)
  }

  /** Slices of one message fill the buffer with that message's bytes, exactly where they lie. */
  lemma {:induction false} SlicesFill(m: Message, fs: seq<Fragment>, n: nat)
    requires forall j :: 0 <= j < |fs| ==> Carries(fs[j], m)
    requires n <= |fs| && fs != []
    ensures AllFit(fs)
    ensures var r := Received(EncodedAll(fs), fs[0], n);
            && r.Ok? && |r.value| == |m.body|
            && forall i :: 0 <= i < |m.body| ==> r.value[i] == if Covered(fs[..n], i) then Some(m.body[i]) else None
  {
    hide ParseFragment, EncodeFragment;
    if n > 0 {
      SlicesFill(m, fs, n - 1);
      FragmentRoundTrip(fs[n - 1]);
      var before, after := Received(EncodedAll(fs), fs[0], n - 1).value, Received(EncodedAll(fs), fs[0], n).value;
      assert fs[..n] == fs[..n - 1] + [fs[n - 1]];
      forall i: nat | i < |m.body| ensures after[i] == if Covered(fs[..n], i) then Some(m.body[i]) else None {
        CoveredStep(fs, n, i);
      }
    }
  }

  lemma CoveredStep(fs: seq<Fragment>, n: nat, i: nat)
    requires 0 < n <= |fs|
    ensures Covered(fs[..n], i) <==> Covered(fs[..n - 1], i) || Covers(fs[n - 1], i)
  {
    if Covered(fs[..n], i) {
      var j :| 0 <= j < n && Covers(fs[..n][j], i);
      assert j < n - 1 ==> Covers(fs[..n - 1][j], i);
    }
    if Covered(fs[..n - 1], i) {
      var j :| 0 <= j < n - 1 && Covers(fs[..n - 1][j], i);
      assert Covers(fs[..n][j], i);
    }
    if Covers(fs[n - 1], i) {
      assert Covers(fs[..n][n - 1], i);
    }
  }

  /** Slices of one message, in any order and with any repeats or overlaps, reassemble to it exactly when they leave no byte out. */
  lemma ReassembleIff(m: Message, fs: seq<Fragment>, limit: nat)
    requires fs != [] && forall j :: 0 <= j < |fs| ==> Carries(fs[j], m)
    ensures AllFit(fs)
    ensures |m.body| > limit ==> Reassembled(EncodedAll(fs), limit) == Err(InvalidLength)
    ensures |m.body| <= limit ==>
              (Reassembled(EncodedAll(fs), limit) == if forall i: nat :: i < |m.body| ==> Covered(fs, i) then Ok(m) else Err(ParseFailure))
  {
    hide ParseFragment, EncodeFragment, Received;
    SlicesFill(m, fs, |fs|);
    FragmentRoundTrip(fs[0]);
    assert fs[..|fs|] == fs;
    var buffer := Received(EncodedAll(fs), fs[0], |fs|).value;
    if forall i: nat :: i < |m.body| ==> Covered(fs, i) {
      assert Complete(buffer) && Filled(buffer) == m.body;
    } else {
      var i: nat :| i < |m.body| && !Covered(fs, i);
      assert buffer[i] == None;
    }
  }

  // The split fragments

  lemma {:induction false} PartsAre(m: Message, max: nat, offset: nat, f: Fragment)
    requires 0 < max && offset <= |m.body| <= MAX24 && f in Parts(m, max, offset)
    ensures Carries(f, m) && f.body != [] && offset <= f.offset
    decreases |m.body| - offset
  {
    if offset < |m.body| && f != Part(m, offset, Min(offset + max, |m.body|)) {
      PartsAre(m, max, Min(offset + max, |m.body|), f);
    }
  }

  /** Every byte lies in one and only one part. */
  lemma {:induction false} PartsPartition(m: Message, max: nat, offset: nat, i: nat)
    requires 0 < max && offset <= i < |m.body| <= MAX24
    ensures exists f :: f in Parts(m, max, offset) && Covers(f, i)
    ensures forall f, g :: f in Parts(m, max, offset) && g in Parts(m, max, offset) && Covers(f, i) && Covers(g, i) ==> f == g
    decreases |m.body| - offset
  {
    var end := Min(offset + max, |m.body|);
    var head := Part(m, offset, end);
    if i < end {
      assert head in Parts(m, max, offset) && Covers(head, i);
      forall f | f in Parts(m, max, end) ensures !Covers(f, i) {
        PartsAre(m, max, end, f);
      }
    } else {
      PartsPartition(m, max, end, i);
    }
  }

  /**
   Any list of a message's fragments, permuted and repeated at will, reassembles to the message exactly
   when no fragment is missing.
   */
  lemma SplitRoundTrip(m: Message, max: nat, fs: seq<Fragment>, limit: nat)
    requires 0 < max && |m.body| <= MAX24 && |m.body| <= limit
    requires fs != [] && forall j :: 0 <= j < |fs| ==> fs[j] in Split(m, max)
    ensures AllFit(fs)
    ensures Reassembled(EncodedAll(fs), limit)
         == if forall f :: f in Split(m, max) ==> f in fs then Ok(m) else Err(ParseFailure)
  {
    hide Reassembled, EncodedAll, Parts;
    forall j | 0 <= j < |fs| ensures Carries(fs[j], m) {
      if m.body != [] {
        PartsAre(m, max, 0, fs[j]);
      }
    }
    ReassembleIff(m, fs, limit);
    if m.body == [] {
      assert fs[0] in fs;
    } else {
      AllPartsCover(m, max, fs);
    }
  }

  lemma AllPartsCover(m: Message, max: nat, fs: seq<Fragment>)
    requires 0 < max && 0 < |m.body| <= MAX24
    requires forall j :: 0 <= j < |fs| ==> fs[j] in Parts(m, max, 0)
    ensures (forall i: nat :: i < |m.body| ==> Covered(fs, i)) <==> forall f :: f in Parts(m, max, 0) ==> f in fs
  {
    hide Parts;
    if forall f :: f in Parts(m, max, 0) ==> f in fs {
      forall i: nat | i < |m.body| ensures Covered(fs, i) {
        PartsPartition(m, max, 0, i);
        var f :| f in Parts(m, max, 0) && Covers(f, i);
        var j :| 0 <= j < |fs| && fs[j] == f;
      }
    }
    if forall i: nat :: i < |m.body| ==> Covered(fs, i) {
      forall f | f in Parts(m, max, 0) ensures f in fs {
        PartsAre(m, max, 0, f);
        PartsPartition(m, max, 0, f.offset);
        assert Covered(fs, f.offset) && Covers(f, f.offset);
        var j :| 0 <= j < |fs| && Covers(fs[j], f.offset);
      }
    }
  }

  // Arbitrary inputs

  /** Input j supplies byte i of m. */
  ghost predicate Supplies(inputs: seq<seq<u8>>, j: nat, m: Message, i: nat)
    requires j < |inputs| && i < |m.body|
  {
    var f := ParseFragment(inputs[j]);
    f.Ok? && Covers(f.value, i) && f.value.body[i - f.value.offset] == m.body[i]
  }

  /** Whatever was received, every byte of an accepted message was carried at its place by some input of that message. */
  lemma {:induction false} BytesComeFromInputs(inputs: seq<seq<u8>>, first: Fragment, n: nat, i: nat) returns (j: nat)
    requires n <= |inputs| && Received(inputs, first, n).Ok? && i < first.messageLen
    requires Received(inputs, first, n).value[i].Some?
    ensures j < n && ParseFragment(inputs[j]).Ok?
    ensures var f := ParseFragment(inputs[j]).value;
            SameMessage(f, first) && Covers(f, i) && Some(f.body[i - f.offset]) == Received(inputs, first, n).value[i]
  {
    hide ParseFragment;
    j := n - 1;
    if !Covers(ParseFragment(inputs[n - 1]).value, i) {
      j := BytesComeFromInputs(inputs, first, n - 1, i);
    }
  }

  lemma ReassembledIsSound(inputs: seq<seq<u8>>, limit: nat, i: nat)
    requires Reassembled(inputs, limit).Ok? && i < |Reassembled(inputs, limit).value.body|
    ensures var m := Reassembled(inputs, limit).value;
            && |m.body| <= limit
            && exists j: nat :: j < |inputs| && Supplies(inputs, j, m, i)
  {
    hide ParseFragment, Received;
    var first := ParseFragment(inputs[0]).value;
    var j := BytesComeFromInputs(inputs, first, |inputs|, i);
    assert Supplies(inputs, j, Reassembled(inputs, limit).value, i);
  }

  // Positions

  /** Where each field of an encoded fragment stands, most significant byte first. */
  lemma FragmentLayout(f: Fragment)
    requires Fitting(f)
    ensures EncodeFragment(f).Ok?
    ensures var e := EncodeFragment(f).value;
            && |e| == 12 + |f.body| && e[0] == f.handshakeType && OfBe(e[1..4]) == f.messageLen && OfBe(e[4..6]) == f.messageSeq
            && OfBe(e[6..9]) == f.offset && OfBe(e[9..12]) == |f.body| && e[12..] == f.body
  {
    hide ToBe, OfBe, Power256;
    Powers256();
    Power3();
    BeRoundTrip(f.messageLen, 3);
    BeRoundTrip(f.messageSeq, 2);
    BeRoundTrip(f.offset, 3);
    BeRoundTrip(|f.body|, 3);
    var e := EncodeFragment(f).value;
    assert e[1..4] == ToBe(f.messageLen, 3) && e[4..6] == ToBe(f.messageSeq, 2);
    assert e[6..9] == ToBe(f.offset, 3) && e[9..12] == ToBe(|f.body|, 3);
  }

  lemma Power3()
    ensures Power256(3) == 0x100_0000
  {
    Powers256();
  }

  /** Fragment k carries the bytes from k * max on, max of them except for the last. */
  lemma {:induction false} PartAt(m: Message, max: nat, offset: nat, k: nat)
    requires 0 < max && offset <= |m.body| && k < |Parts(m, max, offset)|
    ensures var start := offset + k * max;
            0 <= start < |m.body| && Parts(m, max, offset)[k] == Part(m, start, Min(start + max, |m.body|))
    ensures k == |Parts(m, max, offset)| - 1 <==> offset + k * max + max >= |m.body|
    decreases k
  {
    var end := Min(offset + max, |m.body|);
    if k == 0 {
      assert end == |m.body| <==> Parts(m, max, end) == [];
    } else {
      PartAt(m, max, end, k - 1);
      assert (k - 1) * max == k * max - max;
    }
  }

  // Exactly what is accepted

  /** Input j parses as a fragment of a message of this type, sequence number and length. */
  predicate Belongs(input: seq<u8>, m: Message) {
    var f := ParseFragment(input);
    f.Ok? && f.value.handshakeType == m.handshakeType && f.value.messageSeq == m.messageSeq && f.value.messageLen == |m.body|
  }

  /** Of the first n inputs, the last that covers byte i is input j. */
  predicate LastCovers(inputs: seq<seq<u8>>, n: nat, j: nat, i: nat)
    requires j < n <= |inputs|
  {
    && ParseFragment(inputs[j]).Ok? && Covers(ParseFragment(inputs[j]).value, i)
    && forall l :: j < l < n ==> ParseFragment(inputs[l]).Ok? && !Covers(ParseFragment(inputs[l]).value, i)
  }

  lemma {:induction false} ReceivedIff(inputs: seq<seq<u8>>, first: Fragment, n: nat)
    requires n <= |inputs|
    ensures Received(inputs, first, n).Ok? <==>
              forall j :: 0 <= j < n ==> ParseFragment(inputs[j]).Ok? && SameMessage(ParseFragment(inputs[j]).value, first)
    ensures Received(inputs, first, n).Err? ==> Received(inputs, first, n) == Err(ParseFailure)
  {
    hide Write;
    if n > 0 {
      ReceivedIff(inputs, first, n - 1);
    }
  }

  /** A place of the buffer holds the byte of the last of the first n inputs that covers it, if one does. */
  ghost predicate HoldsLast(inputs: seq<seq<u8>>, n: nat, buffer: Holes, i: nat)
    requires n <= |inputs| && i < |buffer|
  {
    && (buffer[i].Some? ==> exists j: nat :: j < n && LastCovers(inputs, n, j, i))
    && (forall j: nat :: j < n && LastCovers(inputs, n, j, i) ==>
          var f := ParseFragment(inputs[j]).value; buffer[i] == Some(f.body[i - f.offset]))
  }

  lemma {:induction false} LastWins(inputs: seq<seq<u8>>, first: Fragment, n: nat, i: nat)
    requires n <= |inputs| && Received(inputs, first, n).Ok? && i < first.messageLen
    ensures HoldsLast(inputs, n, Received(inputs, first, n).value, i)
  {
    hide ParseFragment;
    if n > 0 {
      LastWins(inputs, first, n - 1, i);
      var (before, after, f) := (Received(inputs, first, n - 1).value, Received(inputs, first, n).value, ParseFragment(inputs[n - 1]).value);
      if Covers(f, i) {
        assert LastCovers(inputs, n, n - 1, i);
        assert after[i] == Some(f.body[i - f.offset]);
        forall j: nat | j < n && LastCovers(inputs, n, j, i) ensures j == n - 1 {
        }
      } else {
        assert after[i] == before[i];
        if before[i].Some? {
          var j: nat :| j < n - 1 && LastCovers(inputs, n - 1, j, i);
          assert LastCovers(inputs, n, j, i);
        }
        forall j: nat | j < n && LastCovers(inputs, n, j, i) ensures j < n - 1 && LastCovers(inputs, n - 1, j, i) {
        }
      }
    }
  }

  /** Byte i is that of the last input covering it. */
  ghost predicate LastSupplies(inputs: seq<seq<u8>>, m: Message, i: nat)
    requires i < |m.body|
  {
    exists j: nat :: j < |inputs| && LastCovers(inputs, |inputs|, j, i) && Supplies(inputs, j, m, i)
  }

  /**
   For any inputs at all: the message returned is the one all of them belong to, within the limit, each byte
   from the last input that covers it.
   */
  lemma ReassembledIff(inputs: seq<seq<u8>>, limit: nat, m: Message)
    ensures Reassembled(inputs, limit) == Ok(m) <==>
              && inputs != [] && |m.body| <= limit
              && (forall j :: 0 <= j < |inputs| ==> Belongs(inputs[j], m))
              && (forall i: nat :: i < |m.body| ==> LastSupplies(inputs, m, i))
  {
    hide ParseFragment, Received, HoldsLast, LastSupplies;
    if inputs != [] && ParseFragment(inputs[0]).Ok? {
      var first := ParseFragment(inputs[0]).value;
      ReceivedIff(inputs, first, |inputs|);
      if Received(inputs, first, |inputs|).Ok? {
        var buffer := Received(inputs, first, |inputs|).value;
        forall i: nat | i < first.messageLen ensures HoldsLast(inputs, |inputs|, buffer, i) {
          LastWins(inputs, first, |inputs|, i);
        }
        BufferIs(inputs, limit, m, first, buffer);
      } else if forall j :: 0 <= j < |inputs| ==> Belongs(inputs[j], m) {
        assert Belongs(inputs[0], m);
      }
    } else if inputs != [] {
      assert !Belongs(inputs[0], m);
    }
  }

  lemma PlaceIs(inputs: seq<seq<u8>>, m: Message, buffer: Holes, i: nat)
    requires i < |m.body| == |buffer| && HoldsLast(inputs, |inputs|, buffer, i)
    ensures buffer[i] == Some(m.body[i]) <==> LastSupplies(inputs, m, i)
  {
    hide ParseFragment;
    if buffer[i] == Some(m.body[i]) {
      var j: nat :| j < |inputs| && LastCovers(inputs, |inputs|, j, i);
      assert Supplies(inputs, j, m, i);
    }
  }

  lemma BufferIs(inputs: seq<seq<u8>>, limit: nat, m: Message, first: Fragment, buffer: Holes)
    requires inputs != [] && ParseFragment(inputs[0]) == Ok(first) && Received(inputs, first, |inputs|) == Ok(buffer)
    requires forall i: nat :: i < first.messageLen ==> HoldsLast(inputs, |inputs|, buffer, i)
    requires forall j :: 0 <= j < |inputs| ==> ParseFragment(inputs[j]).Ok? && SameMessage(ParseFragment(inputs[j]).value, first)
    ensures Reassembled(inputs, limit) == Ok(m) <==>
              && |m.body| <= limit
              && (forall j :: 0 <= j < |inputs| ==> Belongs(inputs[j], m))
              && (forall i: nat :: i < |m.body| ==> LastSupplies(inputs, m, i))
  {
    hide ParseFragment, Received, HoldsLast, LastSupplies;
    if |m.body| == |buffer| {
      forall i: nat | i < |m.body| ensures buffer[i] == Some(m.body[i]) <==> LastSupplies(inputs, m, i) {
        PlaceIs(inputs, m, buffer, i);
      }
      if forall i: nat :: i < |m.body| ==> LastSupplies(inputs, m, i) {
        assert Complete(buffer);
        assert Filled(buffer) == m.body;
      }
    } else {
      assert !Belongs(inputs[0], m);
    }
  }

  /** The two refusals: a length error for no input or a message over the limit, otherwise a parse failure. */
  lemma ReassemblyErrors(inputs: seq<seq<u8>>, limit: nat)
    requires Reassembled(inputs, limit).Err?
    ensures Reassembled(inputs, limit).error == InvalidLength <==>
              inputs == [] || (ParseFragment(inputs[0]).Ok? && ParseFragment(inputs[0]).value.messageLen > limit)
    ensures Reassembled(inputs, limit).error == InvalidLength || Reassembled(inputs, limit).error == ParseFailure
  {
    hide Received;
    if inputs != [] && ParseFragment(inputs[0]).Ok? {
      ReceivedIff(inputs, ParseFragment(inputs[0]).value, |inputs|);
    }
  }
}
