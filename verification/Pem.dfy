/** PEM armour: printing payloads under labels, and scanning a text for the blocks of one label. */
module Pem {
  import opened Words
  import opened Wrappers
  import opened Lists
  import opened Base64

  // Text

  /** Unicode White_Space, as `str::trim` removes it. */
  predicate IsSpace(c: char) {
    var u := c as int;
    || 0x09 <= u <= 0x0D || u == 0x20 || u == 0x85 || u == 0xA0 || u == 0x1680 || 0x2000 <= u <= 0x200A
    || u == 0x2028 || u == 0x2029 || u == 0x202F || u == 0x205F || u == 0x3000
  }

  /** Unicode control characters. */
  predicate IsControl(c: char) {
    var u := c as int;
    u < 0x20 || 0x7F <= u < 0xA0
  }

  function TrimStart(s: string): string {
    if s != "" && IsSpace(s[0]) then TrimStart(s[1..]) else s
  }

  function TrimEnd(s: string): string {
    if s != "" && IsSpace(s[|s| - 1]) then TrimEnd(s[..|s| - 1]) else s
  }

  function Trim(s: string): string {
    TrimEnd(TrimStart(s))
  }

  predicate Trimmed(s: string) {
    s != "" ==> !IsSpace(s[0]) && !IsSpace(s[|s| - 1])
  }

  lemma TrimKeeps(s: string)
    requires Trimmed(s)
    ensures Trim(s) == s
  {
  }

  function IndexOfBreak(s: string): (i: nat)
    ensures i <= |s| && (i < |s| ==> s[i] == '\n') && forall k :: 0 <= k < i ==> s[k] != '\n'
  {
    if s == "" || s[0] == '\n' then 0 else 1 + IndexOfBreak(s[1..])
  }

  /** `str::lines`: split after each line feed, which is dropped with one carriage return before it. */
  function Lines(s: string): seq<string>
    decreases |s|
  {
    var i := IndexOfBreak(s);
    if s == "" then []
    else if i == |s| then [s]
    else [DropReturn(s[..i])] + Lines(s[i + 1..])
  }

  function DropReturn(line: string): string {
    if line != "" && line[|line| - 1] == '\r' then line[..|line| - 1] else line
  }

  predicate StartsWith(s: string, prefix: string) {
    |prefix| <= |s| && s[..|prefix|] == prefix
  }

  // Markers

  const DASHES: string := "-----"

  /**
   The label of a marker line. A line of five to nine dashes opens and closes with the same dashes; slicing
   between them is out of range and panics.
   */
  function Marker(line: string, kind: string): Result<Option<string>, PemError> {
    if !StartsWith(line, DASHES) || !EndsWith(line, DASHES) then Ok(None)
    else if |line| < 10 then Err(SliceOutOfRange)
    else
      var inner := line[5..|line| - 5];
      if !StartsWith(inner, kind) then Ok(None)
      else
        var tag := Trim(inner[|kind|..]);
        Ok(if tag == "" then None else Some(tag))
  }

  /** The marker parser panics on exactly the lines of five to nine dashes. */
  lemma MarkerPanicsIff(line: string, kind: string)
    ensures Marker(line, kind).Err? <==> 5 <= |line| <= 9 && forall i :: 0 <= i < |line| ==> line[i] == '-'
  {
    if 5 <= |line| <= 9 {
      if StartsWith(line, DASHES) && EndsWith(line, DASHES) {
        forall i | 0 <= i < |line| ensures line[i] == '-' {
          if i < 5 {
            assert line[..5][i] == '-';
          } else {
            assert line[|line| - 5..][i - (|line| - 5)] == '-';
          }
        }
      }
      if forall i :: 0 <= i < |line| ==> line[i] == '-' {
        assert line[..5] == DASHES && line[|line| - 5..] == DASHES;
      }
    }
  }

  // Printing

  predicate LabelOk(tag: string) {
    tag != "" && forall i :: 0 <= i < |tag| ==> !IsControl(tag[i])
  }

  function CheckLabel(tag: string): Option<PemError> {
    if tag == "" then Some(InvalidLength)
    else if !LabelOk(tag) then Some(InvalidEncoding)
    else None
  }

  /** Pieces of 64 characters. */
  function Chunks(s: string): seq<string>
    decreases |s|
  {
    if s == "" then [] else if |s| <= 64 then [s] else [s[..64]] + Chunks(s[64..])
  }

  function Unlines(lines: seq<string>): string {
    if lines == [] then "" else lines[0] + "\n" + Unlines(lines[1..])
  }

  function BeginLine(tag: string): string {
    "-----BEGIN " + tag + DASHES
  }

  function EndLine(tag: string): string {
    "-----END " + tag + DASHES
  }

  function PemLines(der: seq<u8>, tag: string): seq<string> {
    [BeginLine(tag)] + Chunks(Encode(der)) + [EndLine(tag)]
  }

  function Print(der: seq<u8>, tag: string): Result<string, PemError> {
    if der == [] then Err(InvalidLength)
    else if CheckLabel(tag).Some? then Err(CheckLabel(tag).value)
    else Ok(Unlines(PemLines(der, tag)))
  }

  lemma {:induction false} UnlinesConcat(a: seq<string>, b: seq<string>)
    ensures Unlines(a + b) == Unlines(a) + Unlines(b)
  {
    if a == [] {
      assert a + b == b;
    } else {
      UnlinesConcat(a[1..], b);
      assert (a + b)[0] == a[0] && (a + b)[1..] == a[1..] + b;
    }
  }

  lemma UnlinesOne(line: string)
    ensures Unlines([line]) == line + "\n"
  {
    assert [line][1..] == [];
  }

  method DerToPem(der: seq<u8>, tag: string) returns (r: Result<string, PemError>)
    ensures r == Print(der, tag)
  {
    hide Encode, Chunks, Unlines;
    if der == [] {
      return Err(InvalidLength);
    }
    if tag == "" {
      return Err(InvalidLength);
    }
    if exists i :: 0 <= i < |tag| && IsControl(tag[i]) {
      return Err(InvalidEncoding);
    }
    var encoded := EncodeBase64(der);
    var pem := BeginLine(tag) + "\n";
    var at := 0;
    UnlinesOne(BeginLine(tag));
    ghost var done := [BeginLine(tag)];
    while at < |encoded|
      invariant at <= |encoded| && pem == Unlines(done)
      invariant done + Chunks(encoded[at..]) == [BeginLine(tag)] + Chunks(encoded)
    {
      var end := Min(at + 64, |encoded|);
      var line := encoded[at..end];
      ChunksStep(encoded[at..]);
      assert encoded[at..][..end - at] == line && encoded[at..][end - at..] == encoded[end..];
      UnlinesConcat(done, [line]);
      UnlinesOne(line);
      pem := pem + line + "\n";
      done := done + [line];
      at := end;
    }
    NoChunks();
    assert encoded[at..] == "" && done + [] == done;
    assert done == [BeginLine(tag)] + Chunks(encoded);
    UnlinesConcat(done, [EndLine(tag)]);
    UnlinesOne(EndLine(tag));
    assert pem + EndLine(tag) + "\n" == pem + (EndLine(tag) + "\n");
    assert done + [EndLine(tag)] == PemLines(der, tag);
    return Ok(pem + EndLine(tag) + "\n");
  }

  lemma NoChunks()
    ensures Chunks("") == []
  {
  }

  lemma ChunksStep(s: string)
    requires s != ""
    ensures Chunks(s) == [s[..Min(64, |s|)]] + Chunks(s[Min(64, |s|)..])
  {
    if |s| <= 64 {
      assert s[..|s|] == s && s[|s|..] == "";
    }
  }

  // Scanning

  /** The label of the open block, its text so far, and the payloads found. */
  datatype Scan = Scan(active: Option<string>, payload: string, out: seq<seq<u8>>)

  function ScanLine(st: Scan, line: string, tag: string): Result<Scan, PemError> {
    var trimmed := Trim(line);
    if trimmed == "" then Ok(st)
    else
      var begin :- Marker(trimmed, "BEGIN ");
      if begin.Some? then
        if st.active.Some? then Err(ParseFailure) else Ok(Scan(begin, "", st.out))
      else
        var end :- Marker(trimmed, "END ");
        if end.Some? then
          if st.active.None? then Err(ParseFailure)
          else if st.active.value != end.value then Err(ParseFailure)
          else if st.active.value == tag then
            if st.payload == "" then Err(InvalidEncoding)
            else
              var der :- Decode(st.payload);
              Ok(Scan(None, "", st.out + [der]))
          else Ok(Scan(None, "", st.out))
        else if st.active.None? then Ok(st)
        else Ok(st.(payload := st.payload + trimmed))
  }

  function ScanAll(st: Scan, lines: seq<string>, tag: string): Result<Scan, PemError>
    decreases |lines|
  {
    if lines == [] then Ok(st)
    else
      var next :- ScanLine(st, lines[0], tag);
      ScanAll(next, lines[1..], tag)
  }

  function Blocks(pem: string, tag: string): Result<seq<seq<u8>>, PemError> {
    if pem == "" then Err(InvalidLength)
    else if CheckLabel(tag).Some? then Err(CheckLabel(tag).value)
    else
      var st :- ScanAll(Scan(None, "", []), Lines(pem), tag);
      if st.active.Some? then Err(ParseFailure)
      else if st.out == [] then Err(ParseFailure)
      else Ok(st.out)
  }

  method PemToDerBlocks(pem: string, tag: string) returns (r: Result<seq<seq<u8>>, PemError>)
    ensures r == Blocks(pem, tag)
  {
    hide Decode, Marker, Lines, Trim;
    if pem == "" {
      return Err(InvalidLength);
    }
    if tag == "" {
      return Err(InvalidLength);
    }
    if exists i :: 0 <= i < |tag| && IsControl(tag[i]) {
      return Err(InvalidEncoding);
    }
    var lines := Lines(pem);
    var active: Option<string> := None;
    var payload := "";
    var out: seq<seq<u8>> := [];
    for i := 0 to |lines|
      invariant ScanAll(Scan(active, payload, out), lines[i..], tag) == ScanAll(Scan(None, "", []), lines, tag)
    {
      ghost var st := Scan(active, payload, out);
      assert lines[i..][0] == lines[i] && lines[i..][1..] == lines[i + 1..];
      var trimmed := Trim(lines[i]);
      if trimmed == "" {
        continue;
      }
      var begin :- Marker(trimmed, "BEGIN ");
      if begin.Some? {
        if active.Some? {
          return Err(ParseFailure);
        }
        active := begin;
        payload := "";
        continue;
      }
      var end :- Marker(trimmed, "END ");
      if end.Some? {
        if active.None? {
          return Err(ParseFailure);
        }
        if active.value != end.value {
          return Err(ParseFailure);
        }
        if active.value == tag {
          if payload == "" {
            return Err(InvalidEncoding);
          }
          var der := DecodeBase64(payload);
          if der.Err? {
            return Err(der.error);
          }
          out := out + [der.value];
        }
        active := None;
        payload := "";
        continue;
      }
      if active.None? {
        continue;
      }
      payload := payload + trimmed;
    }
    if active.Some? {
      return Err(ParseFailure);
    }
    if out == [] {
      return Err(ParseFailure);
    }
    return Ok(out);
  }

  // When scanning panics

  /** After trimming, five to nine dashes and nothing else. */
  predicate DashLine(line: string) {
    var t := Trim(line);
    5 <= |t| <= 9 && forall i :: 0 <= i < |t| ==> t[i] == '-'
  }

  lemma LinePanicsIff(st: Scan, line: string, tag: string)
    ensures ScanLine(st, line, tag) == Err(SliceOutOfRange) <==> DashLine(line)
  {
    hide Trim, Marker, Decode, DashLine;
    DashLineIs(line);
    MarkerErrors(Trim(line), "BEGIN ");
    MarkerErrors(Trim(line), "END ");
    MarkerPanicsIff(Trim(line), "BEGIN ");
    MarkerPanicsIff(Trim(line), "END ");
    DecodeErrors(st.payload);
  }

  lemma DashLineIs(line: string)
    ensures DashLine(line) <==> 5 <= |Trim(line)| <= 9 && forall i :: 0 <= i < |Trim(line)| ==> Trim(line)[i] == '-'
  {
    hide Trim;
  }

  lemma MarkerErrors(line: string, kind: string)
    ensures Marker(line, kind).Err? ==> Marker(line, kind) == Err(SliceOutOfRange)
  {
    hide Trim;
  }

  lemma DecodeErrors(s: string)
    ensures Decode(s).Err? ==> Decode(s) == Err(InvalidEncoding)
  {
    hide Quartet;
    if |s| % 4 == 0 {
      DecodeFromErrors(s);
    }
  }

  lemma {:induction false} DecodeFromErrors(s: string)
    requires |s| % 4 == 0
    ensures DecodeFrom(s).Err? ==> DecodeFrom(s) == Err(InvalidEncoding)
  {
    hide Quartet, Prefixed;
    if s != "" {
      DecodeFromErrors(s[4..]);
      DecodeStep(s);
      if Quartet(s[..4], |s| == 4).Ok? {
        PrefixedErrors(Quartet(s[..4], |s| == 4).value, DecodeFrom(s[4..]));
      }
    }
  }

  lemma PrefixedErrors(out: seq<u8>, r: Result<seq<u8>, PemError>)
    ensures Prefixed(out, r).Err? <==> r.Err?
    ensures r.Err? ==> Prefixed(out, r) == r
  {
  }

  /** The scan gets past the first n lines and line n is a dash line. */
  ghost predicate ReachesDashes(st: Scan, lines: seq<string>, tag: string, n: nat) {
    n < |lines| && ScanAll(st, lines[..n], tag).Ok? && DashLine(lines[n])
  }

  /** The first line the scan cannot get past is a dash line. */
  ghost predicate Stuck(st: Scan, lines: seq<string>, tag: string) {
    exists n: nat :: ReachesDashes(st, lines, tag, n)
  }

  lemma {:induction false} ScanPanicsIff(st: Scan, lines: seq<string>, tag: string)
    ensures ScanAll(st, lines, tag) == Err(SliceOutOfRange) <==> Stuck(st, lines, tag)
    decreases |lines|
  {
    hide ScanLine, DashLine;
    if lines != [] {
      LinePanicsIff(st, lines[0], tag);
      var next := ScanLine(st, lines[0], tag);
      assert lines[..0] == [];
      if DashLine(lines[0]) {
        assert ReachesDashes(st, lines, tag, 0);
      }
      if next.Ok? {
        ScanPanicsIff(next.value, lines[1..], tag);
      }
      forall n: nat | n < |lines| - 1 ensures next.Ok? ==> (ReachesDashes(st, lines, tag, n + 1) <==> ReachesDashes(next.value, lines[1..], tag, n)) {
        assert lines[..n + 1][0] == lines[0] && lines[..n + 1][1..] == lines[1..][..n];
      }
      forall n: nat | ReachesDashes(st, lines, tag, n) && n > 0 ensures next.Ok? && ReachesDashes(next.value, lines[1..], tag, n - 1) {
        assert lines[..n][0] == lines[0] && lines[..n][1..] == lines[1..][..n - 1];
      }
    }
  }

  /**
   `pem_to_der_blocks` panics exactly when its arguments pass and the first line it cannot get past is five to
   nine dashes.
   */
  lemma BlocksPanicIff(pem: string, tag: string)
    ensures Blocks(pem, tag) == Err(SliceOutOfRange) <==>
              pem != "" && LabelOk(tag) && Stuck(Scan(None, "", []), Lines(pem), tag)
  {
    hide ScanAll, Lines, Stuck, IsControl;
    ScanPanicsIff(Scan(None, "", []), Lines(pem), tag);
  }

  // Printed text scans back

  /** A line that prints and reads back as itself. */
  predicate PlainLine(line: string) {
    && (forall i :: 0 <= i < |line| ==> line[i] != '\n')
    && (line != "" ==> line[|line| - 1] != '\r')
  }

  predicate PlainLines(lines: seq<string>) {
    forall i :: 0 <= i < |lines| ==> PlainLine(lines[i])
  }

  lemma {:induction false} BreakAfter(line: string, rest: string)
    requires forall i :: 0 <= i < |line| ==> line[i] != '\n'
    ensures IndexOfBreak(line + "\n" + rest) == |line|
  {
    var s := line + "\n" + rest;
    assert s[|line|] == '\n';
  }

  lemma {:induction false} LinesBack(lines: seq<string>)
    requires PlainLines(lines)
    ensures Lines(Unlines(lines)) == lines
  {
    if lines != [] {
      var line, rest := lines[0], Unlines(lines[1..]);
      LinesBack(lines[1..]);
      BreakAfter(line, rest);
      var s := line + "\n" + rest;
      assert s[..|line|] == line && s[|line| + 1..] == rest;
      assert lines == [line] + lines[1..];
    }
  }

  lemma {:induction false} ScanConcat(st: Scan, a: seq<string>, b: seq<string>, tag: string)
    ensures ScanAll(st, a + b, tag) ==
              if ScanAll(st, a, tag).Err? then ScanAll(st, a, tag) else ScanAll(ScanAll(st, a, tag).value, b, tag)
    decreases |a|
  {
    hide ScanLine;
    if a == [] {
      assert a + b == b;
    } else {
      assert (a + b)[0] == a[0] && (a + b)[1..] == a[1..] + b;
      if ScanLine(st, a[0], tag).Ok? {
        ScanConcat(ScanLine(st, a[0], tag).value, a[1..], b, tag);
      }
    }
  }

  /** Characters of base64 text: no spaces, no dashes. */
  predicate Base64Text(s: string) {
    forall i :: 0 <= i < |s| ==> ' ' < s[i] <= 'z' && s[i] != '-'
  }

  lemma {:induction false} EncodedIsText(b: seq<u8>)
    ensures Base64Text(Encode(b))
  {
    hide Group;
    if b != [] {
      if |b| <= 3 {
        GroupIsText(b);
      } else {
        GroupIsText(b[..3]);
        EncodedIsText(b[3..]);
      }
    }
  }

  lemma GroupIsText(b: seq<u8>)
    requires 1 <= |b| <= 3
    ensures Base64Text(Group(b))
  {
    hide Letter, Sextet, Pack, Sextet0, Sextet1, Sextet2, Sextet3;
    var n := Pack(b);
    SextetBounds(n);
    SextetRoundTrip(Sextet0(n), 'A');
    SextetRoundTrip(Sextet1(n), 'A');
    SextetRoundTrip(Sextet2(n), 'A');
    SextetRoundTrip(Sextet3(n), 'A');
  }

  lemma OtherStart(s: string, prefix: string)
    requires s != "" && prefix != "" && s[0] != prefix[0]
    ensures !StartsWith(s, prefix)
  {
    assert |prefix| <= |s| ==> s[..|prefix|][0] == s[0];
  }

  lemma PayloadLine(st: Scan, line: string, tag: string)
    requires st.active.Some? && line != "" && Base64Text(line)
    ensures PlainLine(line) && ScanLine(st, line, tag) == Ok(st.(payload := st.payload + line))
  {
    TrimKeeps(line);
    assert line[..1] == [line[0]];
    OtherStart(line, DASHES);
  }

  lemma {:induction false} PayloadLines(st: Scan, s: string, tag: string)
    requires st.active.Some? && Base64Text(s)
    ensures PlainLines(Chunks(s)) && ScanAll(st, Chunks(s), tag) == Ok(st.(payload := st.payload + s))
    decreases |s|
  {
    hide ScanLine;
    if s == "" {
      assert st.payload + s == st.payload;
    } else {
      var n := Min(64, |s|);
      var (head, rest) := (s[..n], s[n..]);
      ChunksStep(s);
      PayloadLine(st, head, tag);
      var next := st.(payload := st.payload + head);
      PayloadLines(next, rest, tag);
      assert s == head + rest;
      assert next.payload + rest == st.payload + s;
      assert ([head] + Chunks(rest))[1..] == Chunks(rest);
    }
  }

  /** A label that prints and reads back. */
  predicate PrintableLabel(tag: string) {
    LabelOk(tag) && Trimmed(tag)
  }

  lemma ControlFree(tag: string)
    requires LabelOk(tag)
    ensures forall i :: 0 <= i < |tag| ==> tag[i] != '\n'
  {
  }

  lemma MarkerLines(tag: string)
    requires PrintableLabel(tag)
    ensures PlainLine(BeginLine(tag)) && Trim(BeginLine(tag)) == BeginLine(tag) && BeginLine(tag) != ""
    ensures Marker(BeginLine(tag), "BEGIN ") == Ok(Some(tag))
    ensures PlainLine(EndLine(tag)) && Trim(EndLine(tag)) == EndLine(tag) && EndLine(tag) != ""
    ensures Marker(EndLine(tag), "BEGIN ") == Ok(None) && Marker(EndLine(tag), "END ") == Ok(Some(tag))
  {
    BeginMarker(tag);
    EndMarker(tag);
  }

  lemma BeginMarker(tag: string)
    requires PrintableLabel(tag)
    ensures PlainLine(BeginLine(tag)) && Trim(BeginLine(tag)) == BeginLine(tag) && BeginLine(tag) != ""
    ensures Marker(BeginLine(tag), "BEGIN ") == Ok(Some(tag))
  {
    hide Trim;
    ControlFree(tag);
    var line := BeginLine(tag);
    TrimKeeps(tag);
    TrimKeeps(line);
    assert line[..5] == DASHES && line[|line| - 5..] == DASHES;
    var inner := line[5..|line| - 5];
    assert inner == "BEGIN " + tag;
    assert inner[..6] == "BEGIN " && inner[6..] == tag;
  }

  lemma EndMarker(tag: string)
    requires PrintableLabel(tag)
    ensures PlainLine(EndLine(tag)) && Trim(EndLine(tag)) == EndLine(tag) && EndLine(tag) != ""
    ensures Marker(EndLine(tag), "BEGIN ") == Ok(None) && Marker(EndLine(tag), "END ") == Ok(Some(tag))
  {
    hide Trim;
    ControlFree(tag);
    var line := EndLine(tag);
    TrimKeeps(tag);
    TrimKeeps(line);
    assert line[..5] == DASHES && line[|line| - 5..] == DASHES;
    var inner := line[5..|line| - 5];
    assert inner == "END " + tag;
    assert inner[0] == 'E' && "BEGIN "[0] == 'B';
    OtherStart(inner, "BEGIN ");
    assert inner[..4] == "END " && inner[4..] == tag;
  }

  /** One printed block, scanned from between blocks: its payload joins the output when the label is the one sought. */
  lemma BlockScans(st: Scan, der: seq<u8>, printed: string, tag: string)
    requires st.active.None? && st.payload == "" && der != [] && PrintableLabel(printed)
    ensures PlainLines(PemLines(der, printed))
    ensures ScanAll(st, PemLines(der, printed), tag) == Ok(st.(out := st.out + if printed == tag then [der] else []))
  {
    hide Marker, Trim, Encode, Decode, Chunks;
    MarkerLines(printed);
    EncodedIsText(der);
    EncodeLength(der);
    Base64RoundTrip(der);
    var text := Encode(der);
    var begun := Scan(Some(printed), "", st.out);
    var filled := Scan(Some(printed), text, st.out);
    ScanOne(st, BeginLine(printed), begun, tag);
    PayloadLines(begun, text, tag);
    assert "" + text == text;
    ScanOne(filled, EndLine(printed), st.(out := st.out + if printed == tag then [der] else []), tag) by {
      assert st.out + [] == st.out;
    }
    ScanConcat(st, [BeginLine(printed)], Chunks(text), tag);
    ScanConcat(st, [BeginLine(printed)] + Chunks(text), [EndLine(printed)], tag);
  }

  lemma ScanOne(st: Scan, line: string, next: Scan, tag: string)
    requires ScanLine(st, line, tag) == Ok(next)
    ensures ScanAll(st, [line], tag) == Ok(next)
  {
    hide ScanLine;
    assert [line][1..] == [];
  }

  /** A payload and the label it is printed under. */
  datatype Block = Block(der: seq<u8>, tag: string)

  ghost predicate Printable(blocks: seq<Block>) {
    forall i :: 0 <= i < |blocks| ==> blocks[i].der != [] && PrintableLabel(blocks[i].tag)
  }

  function AllLines(blocks: seq<Block>): seq<string> {
    if blocks == [] then [] else PemLines(blocks[0].der, blocks[0].tag) + AllLines(blocks[1..])
  }

  /** The concatenated texts. */
  function PrintAll(blocks: seq<Block>): string
    requires forall i :: 0 <= i < |blocks| ==> Print(blocks[i].der, blocks[i].tag).Ok?
  {
    if blocks == [] then ""
    else Print(blocks[0].der, blocks[0].tag).value + PrintAll(blocks[1..])
  }

  /** Payloads under one label, in order. */
  function Under(blocks: seq<Block>, tag: string): seq<seq<u8>> {
    if blocks == [] then []
    else (if blocks[0].tag == tag then [blocks[0].der] else []) + Under(blocks[1..], tag)
  }

  lemma {:induction false} TextIsLines(blocks: seq<Block>)
    requires Printable(blocks)
    ensures forall i :: 0 <= i < |blocks| ==> Print(blocks[i].der, blocks[i].tag).Ok?
    ensures PrintAll(blocks) == Unlines(AllLines(blocks))
    ensures PlainLines(AllLines(blocks))
  {
    hide PemLines, Unlines, PlainLine;
    if blocks == [] {
      NoLines();
    } else {
      TextIsLines(blocks[1..]);
      BlockScans(Scan(None, "", []), blocks[0].der, blocks[0].tag, "");
      UnlinesConcat(PemLines(blocks[0].der, blocks[0].tag), AllLines(blocks[1..]));
    }
  }

  lemma NoLines()
    ensures Unlines([]) == ""
  {
  }

  lemma {:induction false} AllScan(st: Scan, blocks: seq<Block>, tag: string)
    requires st.active.None? && st.payload == "" && Printable(blocks)
    ensures ScanAll(st, AllLines(blocks), tag) == Ok(st.(out := st.out + Under(blocks, tag)))
    decreases |blocks|
  {
    hide PemLines, ScanLine;
    if blocks == [] {
      assert st.out + [] == st.out;
    } else {
      var (b, rest) := (blocks[0], blocks[1..]);
      var found := if b.tag == tag then [b.der] else [];
      BlockScans(st, b.der, b.tag, tag);
      var next := st.(out := st.out + found);
      AllScan(next, rest, tag);
      ScanConcat(st, PemLines(b.der, b.tag), AllLines(rest), tag);
      assert next.out + Under(rest, tag) == st.out + (found + Under(rest, tag));
    }
  }

  /**
   Scanning the concatenation of printed blocks returns, in order, exactly the payloads printed under the
   label sought, and fails when there are none.
   */
  lemma PemRoundTrip(blocks: seq<Block>, tag: string)
    requires Printable(blocks) && blocks != [] && LabelOk(tag)
    ensures forall i :: 0 <= i < |blocks| ==> Print(blocks[i].der, blocks[i].tag).Ok?
    ensures Blocks(PrintAll(blocks), tag) == if Under(blocks, tag) == [] then Err(ParseFailure) else Ok(Under(blocks, tag))
  {
    hide ScanAll, Lines, AllLines, Under;
    TextIsLines(blocks);
    LinesBack(AllLines(blocks));
    AllScan(Scan(None, "", []), blocks, tag);
    assert [] + Under(blocks, tag) == Under(blocks, tag);
    NotBlank(blocks);
  }

  lemma NotBlank(blocks: seq<Block>)
    requires blocks != [] && Printable(blocks)
    requires forall i :: 0 <= i < |blocks| ==> Print(blocks[i].der, blocks[i].tag).Ok?
    ensures PrintAll(blocks) != ""
  {
    hide Encode, Chunks;
    var lines := PemLines(blocks[0].der, blocks[0].tag);
    assert Unlines(lines) == lines[0] + "\n" + Unlines(lines[1..]);
  }
}
