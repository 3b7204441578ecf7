/** When the line index can be trusted: exactly when it calls itself complete, and exactly when a
    complete one has the records of the exhaustive scan. */
module IndexLimits {
  import opened Bytes
  import opened BookId
  import opened Wrappers
  import opened IndexingWriter
  import opened Json
  import opened JsonStream
  import opened BuildIndex

  // --- Completeness ----------------------------------------------------------------------------

  /** The line gives an entry: it ends with `}`, holds no `}{` and shows an id in its head. */
  predicate Taken(text: bytes) {
    LastNonWs(text) == Some(RBRACE) && !Contains(text, ADJACENT) && ReadIdField(Head(text)).Some?
  }

  /** The line index calls itself complete exactly when every line is blank or gives an entry. */
  lemma {:induction false} CompleteExactlyWhen(lines: seq<Line>)
    ensures IndexLines(lines).complete
       <==> forall i :: 0 <= i < |lines| ==> LastNonWs(lines[i].text).None? || Taken(lines[i].text)
  {
    if lines != [] {
      var front := lines[..|lines| - 1];
      CompleteExactlyWhen(front);
      assert forall i :: 0 <= i < |front| ==> front[i] == lines[i];
    }
  }

  // --- What the scan finds is JSON ----------------------------------------------------------

  lemma {:induction false} ValueIsAccepted(st: Scan, w: bytes)
    requires ValueLength(st, w).Some?
    ensures Accepting(Run(st, w[..ValueLength(st, w).value]))
    decreases |w|
  {
    var n := ValueLength(st, w).value;
    if n > 0 {
      ValueIsAccepted(Step(st, w[0]), w[1..]);
      assert w[..n][1..] == w[1..][..n - 1];
    }
  }

  /** `r` covers a JSON text that shows `id`. */
  ghost predicate NamesJson(b: bytes, r: Range, id: nat) {
    r.start <= r.end <= |b| && IsJson(b[r.start..r.end]) && ReadIdField(b[r.start..r.end]) == Some(id)
  }

  ghost predicate AllJsonRecords(b: bytes, m: map<nat, Range>) {
    forall id :: id in m ==> NamesJson(b, m[id], id)
  }

  /** White space and a value are a JSON text. */
  lemma RecordIsJson(b: bytes, pos: nat, n: nat)
    requires pos <= |b| && ValueLength(INIT, TrimLeft(b[pos..])) == Some(n)
    ensures var end := |b| - |TrimLeft(b[pos..])| + n; pos <= end <= |b| && IsJson(b[pos..end])
  {
    var w := TrimLeftSplits(b[pos..]);
    var rest := TrimLeft(b[pos..]);
    ValueIsAccepted(INIT, rest);
    RunWs(INIT, w);
    RunConcat(INIT, w, rest[..n]);
    assert b[pos..|b| - |rest| + n] == b[pos..][..|w| + n] == w + rest[..n];
  }

  lemma IndexedIsJson(b: bytes, pos: nat, end: nat, m: map<nat, Range>)
    requires pos <= end <= |b| && IsJson(b[pos..end]) && AllJsonRecords(b, m)
    ensures AllJsonRecords(b, IndexRecord(b, pos, end, m))
  {
  }

  lemma {:induction false} ScanFindsJson(b: bytes, pos: nat, m: map<nat, Range>)
    requires pos <= |b| && AllJsonRecords(b, m) && ScanFrom(b, pos, m).Ok?
    ensures AllJsonRecords(b, ScanFrom(b, pos, m).value)
    decreases |b| - pos
  {
    if TrimLeft(b[pos..]) != [] {
      var end := NextRecord(b, pos, m);
      IndexedIsJson(b, pos, end, m);
      ScanFindsJson(b, end, IndexRecord(b, pos, end, m));
    }
  }

  /** Where the scan goes on. */
  lemma NextRecord(b: bytes, pos: nat, m: map<nat, Range>) returns (end: nat)
    requires pos <= |b| && ScanFrom(b, pos, m).Ok? && TrimLeft(b[pos..]) != []
    ensures pos < end <= |b| && IsJson(b[pos..end])
    ensures ScanFrom(b, pos, m) == ScanFrom(b, end, IndexRecord(b, pos, end, m))
  {
    var n := ValueLength(INIT, TrimLeft(b[pos..])).value;
    end := |b| - |TrimLeft(b[pos..])| + n;
    RecordIsJson(b, pos, n);
  }

  // --- The same record is one object -----------------------------------------------------------

  lemma BraceCloses(st: Scan)
    ensures var next := Step(st, RBRACE); next == FAILED || next.mode.After? || next.mode.Str?
  {
  }

  /** In a string, or after an error, white space completes nothing. */
  lemma {:induction false} WsCompletesNothing(st: Scan, w: bytes)
    requires AllWs(w) && (st == FAILED || st.mode.Str?)
    ensures !Accepting(Run(st, w))
    decreases |w|
  {
    if w != [] {
      assert IsWs(w[0]);
      WsCompletesNothing(Step(st, w[0]), w[1..]);
    }
  }

  /** A text that ends with `}` is whole before the white space after it. */
  lemma WholeBeforeWs(c: bytes, z: bytes)
    requires c != [] && c[|c| - 1] == RBRACE && AllWs(z) && IsJson(c + z)
    ensures Run(INIT, c) == Scan(After, [])
  {
    var front := c[..|c| - 1];
    assert c == front + [RBRACE];
    RunSnoc(INIT, front, RBRACE);
    BraceCloses(Run(INIT, front));
    RunConcat(INIT, c, z);
    if Run(INIT, c).mode.After? {
      RunWs(Run(INIT, c), z);
    } else {
      WsCompletesNothing(Run(INIT, c), z);
    }
  }

  /** White space around a record does not matter to whether it is an object. */
  lemma CoreIsObject(a: bytes, c: bytes, z: bytes, a': bytes, z': bytes)
    requires AllWs(a) && AllWs(z) && AllWs(a') && AllWs(z')
    requires c != [] && c[0] == LBRACE && c[|c| - 1] == RBRACE && IsJson(a + c + z)
    ensures ObjectLine(a' + c + z')
  {
    assert a + c + z == a + (c + z) && a' + c + z' == a' + (c + z');
    RunConcat(INIT, a, c + z);
    RunWs(INIT, a);
    WholeBeforeWs(c, z);
    RunConcat(INIT, a', c + z');
    RunWs(INIT, a');
    RunConcat(INIT, c, z');
    RunWs(Scan(After, []), z');
    TrimLeftSkips(a', c + z');
  }

  lemma IdStartsObject(t: bytes)
    requires IsJson(t) && ReadIdField(t).Some?
    ensures ObjectLine(t)
  {
    assert Expect(t, [LBRACE]).Some?;
    assert [LBRACE] <= TrimLeft(t);
  }

  /** A range that names the same record as a JSON text with an id is an object line with that id. */
  lemma SameRecordIsObject(b: bytes, r: Range, s: Range, id: nat)
    requires r.start <= r.end <= |b| && SameRecord(b, r, s) && NamesJson(b, s, id)
    ensures ObjectLine(b[r.start..r.end]) && ReadIdField(b[r.start..r.end]) == Some(id)
  {
    if r == s {
      IdStartsObject(b[r.start..r.end]);
    } else {
      var core :| CoreOf(b, r, core) && CoreOf(b, s, core);
      CoreSplits(b, r, core);
      CoreSplits(b, s, core);
      var c := b[core.start..core.end];
      CoreIsObject(b[s.start..core.start], c, b[core.end..s.end], b[r.start..core.start], b[core.end..r.end]);
      ReadIdOfObject(b[s.start..core.start], c, b[core.end..s.end]);
      ReadIdOfObject(b[r.start..core.start], c, b[core.end..r.end]);
    }
  }

  lemma CoreSplits(b: bytes, r: Range, core: Range)
    requires CoreOf(b, r, core)
    ensures b[r.start..r.end] == b[r.start..core.start] + b[core.start..core.end] + b[core.end..r.end]
    ensures b[core.start..core.end][0] == LBRACE && b[core.start..core.end][core.end - core.start - 1] == RBRACE
  {
  }

  // --- No leading zeros ----------------------------------------------------------------------------

  lemma AfterKey(w: bytes)
    requires AllWs(w)
    ensures Run(Scan(FirstKey, [InObject]), w + ID_KEY) == Scan(Colon, [InObject])
  {
    var st := Scan(FirstKey, [InObject]);
    RunConcat(st, w, ID_KEY);
    RunWs(st, w);
    var s1 := Scan(Str(true), [InObject]);
    assert Step(st, QUOTE) == s1 && Step(s1, 105) == s1 && Step(s1, 100) == s1 &&
      Step(s1, QUOTE) == Scan(Colon, [InObject]);
    var k1, k2, k3 := ID_KEY[1..], ID_KEY[1..][1..], ID_KEY[1..][1..][1..];
    assert k1 == [105, 100, QUOTE] && k2 == [100, QUOTE] && k3 == [QUOTE];
    assert Run(st, ID_KEY) == Run(s1, k1) == Run(s1, k2) == Run(s1, k3);
    assert Run(s1, k3) == Run(Step(s1, QUOTE), k3[1..]);
  }

  /** A scan of an object that starts with its id stands before the digits. */
  lemma BeforeDigits(t: bytes, w: seq<bytes>, a: bytes, b: bytes, c: bytes, f: IdField)
    requires IdShape(t, w, a, b, c, f)
    ensures Run(INIT, t) == Run(Scan(Value, [InObject]), f.digits + f.rest)
  {
    RunConcat(INIT, w[0], [LBRACE] + a);
    RunWs(INIT, w[0]);
    assert ([LBRACE] + a)[1..] == a;
    assert Step(INIT, LBRACE) == Scan(FirstKey, [] + [InObject]);
    assert [] + [InObject] == [InObject];
    assert a == (w[1] + ID_KEY) + b;
    RunConcat(Scan(FirstKey, [InObject]), w[1] + ID_KEY, b);
    AfterKey(w[1]);
    RunConcat(Scan(Colon, [InObject]), w[2], [COLON] + c);
    RunWs(Scan(Colon, [InObject]), w[2]);
    assert ([COLON] + c)[1..] == c;
    RunConcat(Scan(Value, [InObject]), w[3], f.digits + f.rest);
    RunWs(Scan(Value, [InObject]), w[3]);
  }

  /** The id of a JSON text has no leading zero: RFC 8259, section 6. */
  lemma NoLeadingZero(t: bytes)
    requires IsJson(t) && FindId(t).Some?
    ensures |FindId(t).value.digits| == 1 || FindId(t).value.digits[..1] != [ZERO]
  {
    var f := FindId(t).value;
    var w, a, b, c := ShapeOfFindId(t);
    BeforeDigits(t, w, a, b, c, f);
    var st, rest := Scan(Value, [InObject]), f.digits + f.rest;
    if |f.digits| > 1 && f.digits[0] == ZERO {
      assert rest[0] == ZERO && IsDigit(f.digits[1]) && rest[1] == f.digits[1];
      assert Step(st, ZERO) == Scan(Zero, [InObject]);
      assert Step(Scan(Zero, [InObject]), rest[1]) == FAILED;
      assert rest[1..][0] == rest[1];
      RunFailed(rest[1..][1..]);
      assert false;
    }
  }

  /** On a JSON text, the head shows the text's own id exactly when it does not cut it. */
  lemma HeadOfJson(text: bytes)
    requires IsJson(text) && ReadIdField(Head(text)).Some?
    ensures ReadIdField(text) == ReadIdField(Head(text)) <==> !Straddles(text)
  {
    if FindId(text).Some? {
      NoLeadingZero(text);
      if |FindId(text).value.digits| == 1 { OneDigitNotCut(text); }
    }
    if FindId(text).None? || FindId(text).value.digits[..1] != [ZERO] {
      HeadShowsId(text);
    }
  }

  lemma OneDigitNotCut(text: bytes)
    requires ReadIdField(Head(text)).Some? && FindId(text).Some? && |FindId(text).value.digits| == 1
    ensures !Straddles(text) && ReadIdField(text) == ReadIdField(Head(text))
  {
    if |text| > LINE_HEAD_CAP {
      var head, tail := Head(text), text[LINE_HEAD_CAP..];
      assert text == head + tail;
      FindIdAppend(head, tail);
      DigitsOfFound(head);
      assert IsDigit(tail[0]) ==> TakeDigits(tail) != [];
      HeadIsSound(text);
    }
  }

  // --- A scan that succeeds has seen no form feed --------------------------------------------

  lemma FormFeedFails(st: Scan)
    ensures Step(st, FF) == FAILED
  {
  }

  lemma JsonHasNoFormFeed(w: bytes)
    requires IsJson(w)
    ensures FF !in w
  {
    if FF in w {
      var k :| 0 <= k < |w| && w[k] == FF;
      RunSplit(INIT, w, k);
      FormFeedFails(Run(INIT, w[..k]));
      assert w[k..][0] == FF;
      RunFailed(w[k..][1..]);
    }
  }

  lemma {:induction false} ScannedHasNoFormFeed(b: bytes, pos: nat, m: map<nat, Range>)
    requires pos <= |b| && ScanFrom(b, pos, m).Ok?
    ensures FF !in b[pos..]
    decreases |b| - pos
  {
    if TrimLeft(b[pos..]) == [] {
      TrimLeftBlank(b[pos..]);
    } else {
      var end := NextRecord(b, pos, m);
      JsonHasNoFormFeed(b[pos..end]);
      ScannedHasNoFormFeed(b, end, IndexRecord(b, pos, end, m));
      assert b[pos..] == b[pos..end] + b[end..];
    }
  }

  // --- The exact condition ------------------------------------------------------------------------

  function RangeOf(l: Line): Range { Range(l.start, l.start + |l.text|) }

  /** Each line that gives an entry gives the last one of its id. */
  ghost predicate NoneOverwritten(b: bytes) {
    forall l :: l in Lines(b) && Taken(l.text) ==>
      var id := ReadIdField(Head(l.text)).value;
      id in IndexLines(Lines(b)).ranges && IndexLines(Lines(b)).ranges[id] == RangeOf(l)
  }

  /** The line index has the ids and the records of a scan that succeeds. */
  ghost predicate Right(b: bytes, ranges: map<nat, Range>) {
    ScanFrom(b, 0, map[]).Ok? && SameRecords(b, ranges, ScanFrom(b, 0, map[]).value)
  }

  lemma LineOfRecord(b: bytes, l: Line, s: Range, id: nat)
    requires LineOf(b, l) && SameRecord(b, RangeOf(l), s) && NamesJson(b, s, id) &&
      ReadIdField(Head(l.text)) == Some(id)
    ensures ObjectLine(l.text) && !Straddles(l.text)
  {
    assert b[l.start..l.start + |l.text|] == l.text;
    SameRecordIsObject(b, RangeOf(l), s, id);
    HeadOfJson(l.text);
  }

  lemma TakenLineIsStrict(b: bytes, l: Line, ranges: map<nat, Range>, id: nat)
    requires Right(b, ranges) && LineOf(b, l)
    requires ReadIdField(Head(l.text)) == Some(id) && id in ranges && ranges[id] == RangeOf(l)
    ensures ObjectLine(l.text) && !Straddles(l.text)
  {
    var scan := ScanFrom(b, 0, map[]).value;
    ScanFindsJson(b, 0, map[]);
    assert id in scan && SameRecord(b, ranges[id], scan[id]);
    LineOfRecord(b, l, scan[id], id);
  }

  lemma BlankLineIsStrict(b: bytes, l: Line, ranges: map<nat, Range>)
    requires Right(b, ranges) && l in Lines(b) && LastNonWs(l.text).None?
    ensures AllWs(l.text) && !Straddles(l.text)
  {
    LinesInPlace(b);
    assert LineOf(b, l);
    ScannedHasNoFormFeed(b, 0, map[]);
    assert b[0..] == b;
    LastNonWsNone(l.text);
    forall k | 0 <= k < |l.text| ensures IsWs(l.text[k]) {
      assert l.text[k] == b[l.start + k];
    }
    TrimLeftBlank(Head(l.text));
  }

  /** A complete line index is right exactly when the file is strict JSONL whose line heads do not cut
      an id, provided no id comes twice. */
  lemma IndexIsRightExactlyWhen(b: bytes)
    requires IndexLines(Lines(b)).complete && NoneOverwritten(b)
    ensures Right(b, IndexLines(Lines(b)).ranges) <==> StrictJsonl(b) && NoStraddle(b)
  {
    var ranges := IndexLines(Lines(b)).ranges;
    if StrictJsonl(b) && NoStraddle(b) {
      LineIndexAgreesWithScan(b);
    }
    if Right(b, ranges) {
      forall l | l in Lines(b) ensures (AllWs(l.text) || ObjectLine(l.text)) && !Straddles(l.text) {
        CompleteLine(Lines(b), l);
        if Taken(l.text) {
          LinesInPlace(b);
          TakenLineIsStrict(b, l, ranges, ReadIdField(Head(l.text)).value);
        } else {
          BlankLineIsStrict(b, l, ranges);
        }
      }
    }
  }

  lemma CompleteLine(lines: seq<Line>, l: Line)
    requires IndexLines(lines).complete && l in lines
    ensures LastNonWs(l.text).None? || Taken(l.text)
  {
    CompleteExactlyWhen(lines);
  }

  // --- One line ------------------------------------------------------------------------------------

  lemma OneLine(b: bytes)
    requires NL !in b && Taken(b)
    ensures Lines(b) == [Line(0, b)]
    ensures IndexLines(Lines(b)) == LineIndex(map[ReadIdField(Head(b)).value := Range(0, |b|)], true)
  {
    NoNewline(b);
    assert b[0..] == b;
    assert b != [] by { assert LastNonWs([]).None?; }
    OneLineIndex(Line(0, b));
  }

  lemma NoNewline(b: bytes)
    requires NL !in b
    ensures LineStart(b) == 0 && TerminatedLines(b) == []
  {
    LinesExtend([], b);
    assert [] + b == b;
  }

  lemma OneLineIndex(l: Line)
    requires Taken(l.text)
    ensures IndexLines([l]) == LineIndex(map[ReadIdField(Head(l.text)).value := RangeOf(l)], true)
  {
    assert [l][..|[l]| - 1] == [];
  }

  /** A file of one line that gives an entry is indexed right exactly when the line is one object whose
      id its head does not cut. */
  lemma OneLineIsRightExactlyWhen(b: bytes)
    requires NL !in b && Taken(b)
    ensures Right(b, map[ReadIdField(Head(b)).value := Range(0, |b|)]) <==> ObjectLine(b) && !Straddles(b)
  {
    OneLine(b);
    assert Lines(b)[0] == Line(0, b);
    IndexIsRightExactlyWhen(b);
    if ObjectLine(b) && AllWs(b) { TrimLeftBlank(b); }
    LastNonWsNone(b);
  }

  /** Two objects that white space separates on one line: the index takes them as one record, calls
      itself complete, and is wrong. */
  lemma SpacedRecordsAreWrong(r1: bytes, w: bytes, r2: bytes)
    requires ObjectBytes(r1) && ObjectBytes(r2) && IsJson(r1) && w != [] && AllWs(w)
    requires NL !in r1 + w + r2 && ReadIdField(Head(r1 + w + r2)).Some?
    ensures IndexLines(Lines(r1 + w + r2)).complete
    ensures !Right(r1 + w + r2, IndexLines(Lines(r1 + w + r2)).ranges)
  {
    var b := r1 + w + r2;
    SpacedAreNotAdjacent(r1, w, r2);
    assert b[|b| - 1] == r2[|r2| - 1] == RBRACE;
    OneLine(b);
    OneLineIsRightExactlyWhen(b);
    TwoValuesAreNotJson(r1, w, r2);
  }

  lemma TwoValuesAreNotJson(r1: bytes, w: bytes, r2: bytes)
    requires ObjectBytes(r1) && ObjectBytes(r2) && IsJson(r1) && AllWs(w)
    ensures !IsJson(r1 + w + r2)
  {
    assert r1 + [] == r1 && r1 + w + r2 == r1 + (w + r2);
    WholeBeforeWs(r1, []);
    RunConcat(INIT, r1, w + r2);
    RunConcat(Scan(After, []), w, r2);
    RunWs(Scan(After, []), w);
    RunFailed(r2[1..]);
  }
}
