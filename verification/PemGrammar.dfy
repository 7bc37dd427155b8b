/** The grammar PEM texts are scanned by: which are accepted, and what is found in them. */
module PemGrammar {
  import opened Words
  import opened Wrappers
  import opened Lists
  import opened Base64
  import opened Pem

  // Lines

  predicate Blank(s: string) {
    forall i :: 0 <= i < |s| ==> IsSpace(s[i])
  }

  lemma {:induction false} StartTrims(s: string)
    ensures |TrimStart(s)| <= |s| && s[|s| - |TrimStart(s)|..] == TrimStart(s) && Blank(s[..|s| - |TrimStart(s)|])
    ensures TrimStart(s) != "" ==> !IsSpace(TrimStart(s)[0])
  {
    hide IsSpace;
    if s != "" && IsSpace(s[0]) {
      StartTrims(s[1..]);
      var n := |s| - |TrimStart(s)|;
      assert s[..n] == [s[0]] + s[1..][..n - 1];
    }
  }

  lemma {:induction false} EndTrims(s: string)
    ensures |TrimEnd(s)| <= |s| && s[..|TrimEnd(s)|] == TrimEnd(s) && Blank(s[|TrimEnd(s)|..])
    ensures TrimEnd(s) != "" ==> !IsSpace(TrimEnd(s)[|TrimEnd(s)| - 1])
  {
    hide IsSpace;
    if s != "" && IsSpace(s[|s| - 1]) {
      var front := s[..|s| - 1];
      EndTrims(front);
      var n := |TrimEnd(s)|;
      assert s[n..] == front[n..] + [s[|s| - 1]];
    } else {
      assert s[|s|..] == "";
    }
  }

  /** Trimming drops white space from both ends and nothing else. */
  lemma TrimIs(s: string) returns (before: string, after: string)
    ensures s == before + Trim(s) + after && Blank(before) && Blank(after) && Trimmed(Trim(s))
  {
    hide TrimStart, TrimEnd, Blank, IsSpace;
    var t := TrimStart(s);
    StartTrims(s);
    EndTrims(t);
    before, after := s[..|s| - |t|], t[|TrimEnd(t)|..];
    if Trim(s) != "" {
      assert Trim(s)[0] == t[0];
    }
  }

  /** What is left is determined by that. */
  lemma TrimUnique(before: string, text: string, after: string)
    requires Blank(before) && Blank(after) && Trimmed(text)
    ensures Trim(before + text + after) == text
  {
    hide TrimStart, TrimEnd, IsSpace;
    var s := before + text + after;
    StartTrims(s);
    var t := TrimStart(s);
    EndTrims(t);
    var (a, b) := (|s| - |t|, |TrimEnd(t)|);
    var middle := Trim(s);
    assert middle == s[a..a + b];
    assert forall i :: 0 <= i < a ==> s[i] == s[..a][i];
    assert forall i :: a + b <= i < |s| ==> s[i] == t[b..][i - a - b];
    if text == "" {
      assert forall i :: 0 <= i < |s| ==> IsSpace(s[i]);
      assert t == "";
    } else {
      assert s[|before|] == text[0] && s[|before| + |text| - 1] == text[|text| - 1];
      assert a <= |before|;
      assert t != "" && t[0] == s[a];
      assert a == |before|;
      assert a + b >= |before| + |text|;
      assert middle != "" && middle[b - 1] == s[a + b - 1];
      assert a + b == |before| + |text|;
      assert middle == text;
    }
  }

  /** A marker line for a label: five dashes, the kind, the label between spaces, five dashes. */
  ghost predicate IsMarker(line: string, kind: string, tag: string) {
    && tag != "" && Trimmed(tag)
    && exists a: string, b: string :: Blank(a) && Blank(b) && line == "-----" + kind + a + tag + b + "-----"
  }

  lemma MarkerIff(line: string, kind: string, tag: string)
    ensures Marker(line, kind) == Ok(Some(tag)) <==> IsMarker(line, kind, tag)
  {
    hide Marker, Trimmed, Blank;
    if Marker(line, kind) == Ok(Some(tag)) {
      MarkerParts(line, kind, tag);
    }
    forall a: string, b: string | tag != "" && Trimmed(tag) && Blank(a) && Blank(b) && line == "-----" + kind + a + tag + b + "-----"
      ensures Marker(line, kind) == Ok(Some(tag))
    {
      PartsMark(kind, a, tag, b);
    }
  }

  lemma MarkerParts(line: string, kind: string, tag: string)
    requires Marker(line, kind) == Ok(Some(tag))
    ensures IsMarker(line, kind, tag)
  {
    hide Trim, Trimmed, Blank;
    var inner := line[5..|line| - 5];
    var rest := inner[|kind|..];
    var a, b := TrimIs(rest);
    Dashed(line);
    assert inner == kind + rest;
    Joined(kind, a, tag, b);
    assert line == "-----" + kind + a + tag + b + "-----";
  }

  lemma Dashed(line: string)
    requires |line| >= 10 && StartsWith(line, DASHES) && EndsWith(line, DASHES)
    ensures line == DASHES + line[5..|line| - 5] + DASHES
  {
    var (first, inner, last) := (line[..5], line[5..|line| - 5], line[|line| - 5..]);
    assert line == first + inner + last;
  }

  lemma Joined(kind: string, a: string, tag: string, b: string)
    ensures DASHES + (kind + (a + tag + b)) + DASHES == DASHES + kind + a + tag + b + DASHES
  {
  }

  lemma PartsMark(kind: string, a: string, tag: string, b: string)
    requires tag != "" && Trimmed(tag) && Blank(a) && Blank(b)
    ensures Marker("-----" + kind + a + tag + b + "-----", kind) == Ok(Some(tag))
  {
    hide Trim, Trimmed, Blank;
    TrimUnique(a, tag, b);
    var rest := a + tag + b;
    var inner := kind + rest;
    Joined(kind, a, tag, b);
    Undashed(inner);
    assert inner[..|kind|] == kind && inner[|kind|..] == rest;
  }

  lemma Undashed(inner: string)
    ensures var line := DASHES + inner + DASHES;
            |line| >= 10 && StartsWith(line, DASHES) && EndsWith(line, DASHES) && line[5..|line| - 5] == inner
  {
    var line := DASHES + inner + DASHES;
    assert line[..5] == DASHES && line[|line| - 5..] == DASHES;
  }

  predicate Begins(line: string, tag: string) {
    Marker(Trim(line), "BEGIN ") == Ok(Some(tag))
  }

  predicate Ends(line: string, tag: string) {
    Marker(Trim(line), "BEGIN ") == Ok(None) && Marker(Trim(line), "END ") == Ok(Some(tag))
  }

  /** No marker, and not a run of dashes that stops the scan. */
  predicate Plain(line: string) {
    Marker(Trim(line), "BEGIN ") == Ok(None) && Marker(Trim(line), "END ") == Ok(None)
  }

  lemma BlankIsPlain()
    ensures forall kind :: Marker("", kind) == Ok(None)
  {
  }

  // Texts

  /** A line outside blocks, or a block: its marker lines, the lines between, and its label. */
  datatype Item = Other(line: string) | Armour(begin: string, body: seq<string>, end: string, tag: string)

  function ItemLines(item: Item): seq<string> {
    match item
    case Other(line) => [line]
    case Armour(begin, body, end, _) => [begin] + body + [end]
  }

  function TextLines(items: seq<Item>): seq<string> {
    if items == [] then [] else ItemLines(items[0]) + TextLines(items[1..])
  }

  /** The payload of a block: its lines, trimmed and joined. */
  function Payload(body: seq<string>): string {
    if body == [] then "" else Payload(body[..|body| - 1]) + Trim(body[|body| - 1])
  }

  predicate AllPlain(lines: seq<string>) {
    forall i :: 0 <= i < |lines| ==> Plain(lines[i])
  }

  /** A block under the label sought must hold text, and that text must be base64. */
  predicate WellFormed(item: Item, tag: string) {
    match item
    case Other(line) => Plain(line)
    case Armour(begin, body, end, name) =>
      && Begins(begin, name) && AllPlain(body) && Ends(end, name)
      && (name == tag ==> Payload(body) != "" && Decode(Payload(body)).Ok?)
  }

  predicate AllWellFormed(items: seq<Item>, tag: string) {
    forall i :: 0 <= i < |items| ==> WellFormed(items[i], tag)
  }

  /** The payloads under one label, decoded, in order. */
  function Found(items: seq<Item>, tag: string): seq<seq<u8>>
    requires AllWellFormed(items, tag)
  {
    if items == [] then []
    else
      var item := items[0];
      (if item.Armour? && item.tag == tag then [Decode(Payload(item.body)).value] else []) + Found(items[1..], tag)
  }

  // What scanning a line does

  lemma PlainScans(st: Scan, line: string, tag: string)
    requires Plain(line) && (st.active.None? ==> st.payload == "")
    ensures ScanLine(st, line, tag) == Ok(if st.active.None? then st else st.(payload := st.payload + Trim(line)))
  {
    hide Marker, Trim, Decode;
    if Trim(line) == "" {
      assert st.payload + "" == st.payload;
    }
  }

  lemma NotBlankMarker(line: string, tag: string)
    ensures Begins(line, tag) || Ends(line, tag) ==> Trim(line) != ""
  {
    hide Trim;
    BlankIsPlain();
  }

  lemma BeginScans(st: Scan, line: string, begun: string, tag: string)
    requires Begins(line, begun)
    ensures ScanLine(st, line, tag) == if st.active.Some? then Err(ParseFailure) else Ok(Scan(Some(begun), "", st.out))
  {
    hide Marker, Trim, Decode;
    NotBlankMarker(line, begun);
  }

  lemma EndScans(st: Scan, line: string, ended: string, tag: string)
    requires Ends(line, ended)
    ensures var r := ScanLine(st, line, tag);
            && (r.Ok? <==> st.active == Some(ended) && (ended == tag ==> st.payload != "" && Decode(st.payload).Ok?))
            && (r.Ok? ==> r.value == Scan(None, "", st.out + if ended == tag then [Decode(st.payload).value] else []))
  {
    hide Marker, Trim, Decode;
    NotBlankMarker(line, ended);
    assert st.out + [] == st.out;
  }

  /** A scanned line is one of the three. */
  lemma LineKinds(st: Scan, line: string, tag: string)
    requires ScanLine(st, line, tag).Ok?
    ensures Plain(line) || (exists l :: Begins(line, l)) || (exists l :: Ends(line, l))
  {
    hide Marker, Trim, Decode;
    BlankIsPlain();
    if Trim(line) != "" {
      var begin := Marker(Trim(line), "BEGIN ").value;
      if begin.Some? {
        assert Begins(line, begin.value);
      } else {
        var end := Marker(Trim(line), "END ").value;
        if end.Some? {
          assert Ends(line, end.value);
        }
      }
    }
  }

  // Well-formed texts scan

  lemma {:induction false} BodyScans(st: Scan, body: seq<string>, tag: string)
    requires st.active.Some? && AllPlain(body)
    ensures ScanAll(st, body, tag) == Ok(st.(payload := st.payload + Payload(body)))
    decreases |body|
  {
    hide ScanLine, Plain, Trim;
    if body == [] {
      assert st.payload + "" == st.payload;
    } else {
      var (front, last) := (body[..|body| - 1], body[|body| - 1]);
      BodyScans(st, front, tag);
      var mid := st.(payload := st.payload + Payload(front));
      PlainScans(mid, last, tag);
      ScanOne(mid, last, mid.(payload := mid.payload + Trim(last)), tag);
      ScanConcat(st, front, [last], tag);
      assert body == front + [last];
      assert mid.payload + Trim(last) == st.payload + Payload(body);
    }
  }

  lemma ItemScans(out: seq<seq<u8>>, item: Item, tag: string)
    requires WellFormed(item, tag)
    ensures ScanAll(Scan(None, "", out), ItemLines(item), tag)
         == Ok(Scan(None, "", out + if item.Armour? && item.tag == tag then [Decode(Payload(item.body)).value] else []))
  {
    hide ScanLine, Plain, Begins, Ends, Decode, Payload, AllPlain, ScanAll;
    var st := Scan(None, "", out);
    match item
    case Other(line) =>
      PlainScans(st, line, tag);
      ScanOne(st, line, st, tag);
      assert out + [] == out;
    case Armour(begin, body, end, l) =>
      var begun := Scan(Some(l), "", out);
      BeginScans(st, begin, l, tag);
      ScanOne(st, begin, begun, tag);
      BodyScans(begun, body, tag);
      assert "" + Payload(body) == Payload(body);
      var filled := Scan(Some(l), Payload(body), out);
      EndScans(filled, end, l, tag);
      ScanOne(filled, end, ScanLine(filled, end, tag).value, tag);
      ScanConcat(st, [begin], body, tag);
      ScanConcat(st, [begin] + body, [end], tag);
  }

  lemma {:induction false} TextScans(out: seq<seq<u8>>, items: seq<Item>, tag: string)
    requires AllWellFormed(items, tag)
    ensures ScanAll(Scan(None, "", out), TextLines(items), tag) == Ok(Scan(None, "", out + Found(items, tag)))
    decreases |items|
  {
    hide ScanLine, Plain, Begins, Ends, AllPlain, Decode, Payload, ItemLines;
    if items == [] {
      assert out + [] == out;
    } else {
      var found := if items[0].Armour? && items[0].tag == tag then [Decode(Payload(items[0].body)).value] else [];
      ItemScans(out, items[0], tag);
      TextScans(out + found, items[1..], tag);
      ScanConcat(Scan(None, "", out), ItemLines(items[0]), TextLines(items[1..]), tag);
      assert out + found + Found(items[1..], tag) == out + Found(items, tag);
    }
  }

  // Scanned texts are well-formed

  /** Lines that end inside a block: a body that is scanned, the end marker, and what follows it. */
  lemma {:induction false} OpenSplits(st: Scan, lines: seq<string>, tag: string) returns (body: seq<string>, end: string, rest: seq<string>)
    requires st.active.Some? && ScanAll(st, lines, tag).Ok? && ScanAll(st, lines, tag).value.active.None?
    ensures lines == body + [end] + rest && AllPlain(body) && Ends(end, st.active.value)
    ensures st.active.value == tag ==> st.payload + Payload(body) != "" && Decode(st.payload + Payload(body)).Ok?
    ensures |rest| < |lines|
    decreases |lines|
  {
    hide ScanLine, Plain, Begins, Ends, Decode, Trim;
    assert lines != [];
    var line := lines[0];
    LineKinds(st, line, tag);
    assert lines == [line] + lines[1..];
    if Plain(line) {
      PlainScans(st, line, tag);
      var next := st.(payload := st.payload + Trim(line));
      var tail: seq<string>;
      tail, end, rest := OpenSplits(next, lines[1..], tag);
      body := [line] + tail;
      PayloadFirst(line, tail);
      assert next.payload + Payload(tail) == st.payload + Payload(body);
    } else if exists l :: Begins(line, l) {
      var l :| Begins(line, l);
      BeginScans(st, line, l, tag);
      assert false;
    } else {
      var l :| Ends(line, l);
      EndScans(st, line, l, tag);
      body, end, rest := [], line, lines[1..];
      assert st.payload + Payload([]) == st.payload;
    }
  }

  lemma {:induction false} PayloadFirst(line: string, tail: seq<string>)
    ensures Payload([line] + tail) == Trim(line) + Payload(tail)
  {
    hide Trim;
    var all := [line] + tail;
    if tail == [] {
      assert all[..0] == [] && Payload([]) == "";
      assert "" + Trim(line) == Trim(line) + "";
    } else {
      PayloadFirst(line, tail[..|tail| - 1]);
      assert all[..|all| - 1] == [line] + tail[..|tail| - 1];
    }
  }

  lemma {:induction false} ScannedIs(out: seq<seq<u8>>, lines: seq<string>, tag: string) returns (items: seq<Item>)
    requires ScanAll(Scan(None, "", out), lines, tag).Ok? && ScanAll(Scan(None, "", out), lines, tag).value.active.None?
    ensures AllWellFormed(items, tag) && TextLines(items) == lines
    decreases |lines|
  {
    hide ScanLine, Plain, Begins, Ends, Decode, Trim, Payload, AllPlain;
    items := [];
    if lines != [] {
      var (line, st) := (lines[0], Scan(None, "", out));
      LineKinds(st, line, tag);
      var first: Item, tail: seq<Item>;
      if Plain(line) {
        PlainScans(st, line, tag);
        first := Other(line);
        tail := ScannedIs(out, lines[1..], tag);
      } else if exists l :: Begins(line, l) {
        var l :| Begins(line, l);
        BeginScans(st, line, l, tag);
        var begun := Scan(Some(l), "", out);
        var body, end, rest := OpenSplits(begun, lines[1..], tag);
        assert "" + Payload(body) == Payload(body);
        first := Armour(line, body, end, l);
        assert lines == ItemLines(first) + rest;
        ItemScans(out, first, tag);
        ScanConcat(st, ItemLines(first), rest, tag);
        tail := ScannedIs(out + if l == tag then [Decode(Payload(body)).value] else [], rest, tag);
      } else {
        var l :| Ends(line, l);
        EndScans(st, line, l, tag);
        assert false;
      }
      items := [first] + tail;
      assert items[1..] == tail;
    }
  }

  /** A text is accepted with these payloads exactly when it is made of plain lines and blocks, and they are what the blocks hold. */
  lemma BlocksIff(pem: string, tag: string, out: seq<seq<u8>>)
    ensures Blocks(pem, tag) == Ok(out) <==>
              && pem != "" && LabelOk(tag) && out != []
              && exists items: seq<Item> :: AllWellFormed(items, tag) && TextLines(items) == Lines(pem) && Found(items, tag) == out
  {
    hide ScanAll, Lines, AllWellFormed, Found, TextLines, IsControl;
    if Blocks(pem, tag) == Ok(out) {
      var items := ScannedIs([], Lines(pem), tag);
      TextScans([], items, tag);
      assert [] + Found(items, tag) == Found(items, tag);
    }
    if pem != "" && LabelOk(tag) && out != []
       && exists items: seq<Item> :: AllWellFormed(items, tag) && TextLines(items) == Lines(pem) && Found(items, tag) == out
    {
      var items: seq<Item> :| AllWellFormed(items, tag) && TextLines(items) == Lines(pem) && Found(items, tag) == out;
      TextScans([], items, tag);
      assert [] + out == out;
    }
  }

  // Splitting and printing

  /** Lines are split at line feeds; one carriage return before a line feed goes with it, and a last line without one stays whole. */
  lemma LinesAre(line: string, rest: string)
    requires forall i :: 0 <= i < |line| ==> line[i] != '\n'
    ensures Lines(line + "\n" + rest) == [if line != "" && line[|line| - 1] == '\r' then line[..|line| - 1] else line] + Lines(rest)
    ensures Lines(line) == if line == "" then [] else [line]
  {
    BreakAfter(line, rest);
    var s := line + "\n" + rest;
    assert s[..|line|] == line && s[|line| + 1..] == rest;
    if line != "" {
      assert IndexOfBreak(line) == |line|;
    }
  }

  /** The pieces of a payload: 64 characters each but the last, which has at least one, and together the payload. */
  lemma {:induction false} ChunksAre(s: string, k: nat)
    requires k < |Chunks(s)|
    ensures 64 * k < |s| && Chunks(s)[k] == s[64 * k..if 64 * k + 64 < |s| then 64 * k + 64 else |s|]
    ensures k == |Chunks(s)| - 1 <==> 64 * k + 64 >= |s|
    decreases k
  {
    ChunksStep(s);
    if k > 0 {
      ChunksAre(s[64..], k - 1);
    } else {
      assert s[0..|s|] == s;
    }
  }

  /** A printed block: both marker lines, spelled out, around the pieces of its base64 text. */
  lemma PrintIs(der: seq<u8>, tag: string)
    requires der != [] && LabelOk(tag)
    ensures Print(der, tag) == Ok("-----BEGIN " + tag + "-----" + "\n" + Unlines(Chunks(Encode(der))) + ("-----END " + tag + "-----" + "\n"))
  {
    hide Encode, Chunks, Unlines;
    var (first, middle, last) := (BeginLine(tag), Chunks(Encode(der)), EndLine(tag));
    UnlinesConcat([first], middle);
    UnlinesConcat([first] + middle, [last]);
    UnlinesOne(first);
    UnlinesOne(last);
  }

  // Characters and refusals

  /** The 25 characters Unicode calls White_Space. */
  lemma SpacesAre(c: char)
    ensures var u := c as int;
            IsSpace(c) <==> u in {9, 10, 11, 12, 13, 32, 133, 160, 5760, 8192, 8193, 8194, 8195, 8196, 8197, 8198, 8199, 8200, 8201, 8202}
                            || u in {8232, 8233, 8239, 8287, 12288}
  {
  }

  /** The control characters: the first 32 codes, the 32 from 128 on, and delete. */
  lemma ControlsAre(c: char)
    ensures IsControl(c) <==> c as int / 32 == 0 || c as int / 32 == 4 || c as int == 127
  {
  }

  predicate HasControl(tag: string) {
    exists i :: 0 <= i < |tag| && IsControl(tag[i])
  }

  /** Printing refuses an empty payload or label by length, a label with a control character by encoding, and nothing else. */
  lemma PrintErrors(der: seq<u8>, tag: string)
    ensures Print(der, tag) == Err(InvalidLength) <==> der == [] || tag == ""
    ensures Print(der, tag) == Err(InvalidEncoding) <==> der != [] && HasControl(tag)
    ensures Print(der, tag).Ok? <==> der != [] && tag != "" && !HasControl(tag)
  {
    hide IsControl, Unlines, PemLines;
    if HasControl(tag) {
      assert tag != "";
    }
  }

  /** Scanning refuses an empty text or label by length, and a label with a control character by encoding, before it looks at a line. */
  lemma ScanArguments(pem: string, tag: string)
    ensures pem == "" || tag == "" ==> Blocks(pem, tag) == Err(InvalidLength)
    ensures pem != "" && HasControl(tag) ==> Blocks(pem, tag) == Err(InvalidEncoding)
  {
    hide IsControl, ScanAll, Lines;
  }
}
