/** When a complete line index is right although ids come twice. */
module IndexRepeats {
  import opened Bytes
  import opened BookId
  import opened Wrappers
  import opened IndexingWriter
  import opened Json
  import opened JsonStream
  import opened BuildIndex
  import opened IndexLimits
  import opened LineScan

  /** Where an id can show in a line: the line index reads the head, the scan the records. */
  datatype Place = InHead | InRecord | Anywhere

  function OwnScan(text: bytes): Result<map<nat, Range>, nat> { ScanFrom(text, 0, map[]) }

  predicate HeadShows(text: bytes, id: nat) { Taken(text) && ReadIdField(Head(text)) == Some(id) }

  predicate RecordShows(text: bytes, id: nat) { OwnScan(text).Ok? && id in OwnScan(text).value }

  predicate Shows(place: Place, text: bytes, id: nat) {
    match place
    case InHead => HeadShows(text, id)
    case InRecord => RecordShows(text, id)
    case Anywhere => HeadShows(text, id) || RecordShows(text, id)
  }

  /** The last line that shows the id there. */
  function LastShown(place: Place, lines: seq<Line>, id: nat): (r: Option<Line>)
    ensures r.Some? ==> r.value in lines && Shows(place, r.value.text, id)
  {
    if lines == [] then None
    else if Shows(place, lines[|lines| - 1].text, id) then Some(lines[|lines| - 1])
    else LastShown(place, lines[..|lines| - 1], id)
  }

  /** One object whose id the head does not cut. */
  predicate Strict(text: bytes) { ObjectLine(text) && !Straddles(text) }

  lemma LastSnoc(place: Place, lines: seq<Line>, l: Line, id: nat)
    ensures LastShown(place, lines + [l], id) == if Shows(place, l.text, id) then Some(l)
      else LastShown(place, lines, id)
  {
    assert (lines + [l])[..|lines|] == lines;
  }

  /** A line last to show the id anywhere is last to show it in each place where it does. */
  lemma {:induction false} LastAnywhere(lines: seq<Line>, id: nat)
    ensures var last := LastShown(Anywhere, lines, id);
      && (last.None? ==> LastShown(InHead, lines, id).None? && LastShown(InRecord, lines, id).None?)
      && (last.Some? && Shows(InHead, last.value.text, id) ==> LastShown(InHead, lines, id) == last)
      && (last.Some? && Shows(InRecord, last.value.text, id) ==> LastShown(InRecord, lines, id) == last)
  {
    if lines != [] && !Shows(Anywhere, lines[|lines| - 1].text, id) {
      LastAnywhere(lines[..|lines| - 1], id);
    }
  }

  // --- The index -----------------------------------------------------------------------------

  /** A complete index has, for each id, the last line whose head shows it. */
  lemma {:induction false} IndexMirrors(lines: seq<Line>, id: nat)
    requires IndexLines(lines).complete
    ensures var last := LastShown(InHead, lines, id);
      if last.Some? then id in IndexLines(lines).ranges && IndexLines(lines).ranges[id] == RangeOf(last.value)
      else id !in IndexLines(lines).ranges
  {
    if lines != [] {
      IndexMirrors(lines[..|lines| - 1], id);
    }
  }

  // --- The scan ------------------------------------------------------------------------------

  /** Each id has a record that ends in the last line to show it in a record; it is that line's object
      when the line is strict. */
  ghost predicate Mirrors(b: bytes, lines: seq<Line>, m: map<nat, Range>) {
    forall id :: MirrorsOne(b, LastShown(InRecord, lines, id), m, id)
  }

  ghost predicate MirrorsOne(b: bytes, last: Option<Line>, m: map<nat, Range>, id: nat) {
    if last.None? then id !in m
    else
      && id in m && Placed(b, last.value, m[id])
      && (Strict(last.value.text) ==> SameRecord(b, RangeOf(last.value), m[id]))
  }

  lemma OverlayEntry(b: bytes, l: Line, id: Option<nat>, r: Range, s: Range, m0: map<nat, Range>, own: map<nat, Range>,
                     m: map<nat, Range>)
    requires Overlay(b, l, m0, own, m) && (id.Some? ==> Placed(b, l, s))
    ensures Overlay(b, l, m0, if id.Some? then own[id.value := r] else own, if id.Some? then m[id.value := s] else m)
  {
  }

  /** `m` is `m0` and, over it, records of the line for the ids of `own`. */
  ghost predicate Overlay(b: bytes, l: Line, m0: map<nat, Range>, own: map<nat, Range>, m: map<nat, Range>) {
    && m.Keys == m0.Keys + own.Keys
    && forall id :: id in m ==> if id in own then Placed(b, l, m[id]) else m[id] == m0[id]
  }

  lemma AlikeWithin(b: bytes, l: Line, rs: seq<Range>, own: seq<Range>)
    requires Alike(b, l, rs, own)
    ensures Within(b, rs) && Within(l.text, own)
  {
    forall i | 0 <= i < |rs| ensures rs[i].start < rs[i].end <= |b| && own[i].start < own[i].end <= |l.text| {
      assert AlikeOne(b, l, rs[i], own[i]);
    }
  }

  lemma {:induction false} EnterOverlay(b: bytes, l: Line, rs: seq<Range>, own: seq<Range>, m0: map<nat, Range>,
                                        t: map<nat, Range>, m: map<nat, Range>)
    requires Within(b, rs) && Within(l.text, own) && Alike(b, l, rs, own) && Overlay(b, l, m0, t, m)
    ensures Overlay(b, l, m0, Enter(l.text, own, t), Enter(b, rs, m))
    decreases |rs|
  {
    if rs != [] {
      var r, o := rs[0], own[0];
      assert AlikeOne(b, l, r, o);
      OverlayEntry(b, l, ReadIdField(l.text[o.start..o.end]), o, r, m0, t, m);
      EnterOverlay(b, l, rs[1..], own[1..], m0, IndexRecord(l.text, o.start, o.end, t),
                   IndexRecord(b, r.start, r.end, m));
    }
  }

  lemma {:induction false} EnterConcat(b: bytes, rs: seq<Range>, more: seq<Range>, m: map<nat, Range>)
    requires Within(b, rs) && Within(b, more)
    ensures Within(b, rs + more) && Enter(b, rs + more, m) == Enter(b, more, Enter(b, rs, m))
    decreases |rs|
  {
    if rs == [] {
      assert rs + more == more;
    } else {
      assert (rs + more)[0] == rs[0] && (rs + more)[1..] == rs[1..] + more;
      EnterConcat(b, rs[1..], more, IndexRecord(b, rs[0].start, rs[0].end, m));
    }
  }

  /** The one record of an object line. */
  lemma ObjectRecord(text: bytes) returns (s: nat, e: nat)
    requires ObjectLine(text)
    ensures s < e <= |text| && AllWs(text[0..s]) && AllWs(text[e..|text|]) && text[s] == LBRACE && text[e - 1] == RBRACE
    ensures Records(text, 0) == Some([Range(0, e)])
  {
    var w, record, z := ObjectLineSplits(text);
    s, e := |w|, |w| + |record|;
    assert text[0..s] == w && text[e..|text|] == text[e..] == z;
    RecordOfObject(text, w, record, z, e);
    TrimLeftBlank(z);
    OneRecordOnly(text, e);
  }

  lemma RecordOfObject(text: bytes, w: bytes, record: bytes, z: bytes, e: nat)
    requires text == w + record + z && AllWs(w) && record != [] && record[0] == LBRACE && Exact(INIT, record)
    requires e == |w| + |record|
    ensures RecordEnd(text, 0) == Some(e)
  {
    assert text[0..] == text == w + (record + z);
    TrimLeftSkips(w, record + z);
    assert ValueLength(INIT, record + z) == Some(|record|);
  }

  lemma OneRecordOnly(text: bytes, e: nat)
    requires RecordEnd(text, 0) == Some(e) && TrimLeft(text[e..]) == []
    ensures Records(text, 0) == Some([Range(0, e)])
  {
    assert Records(text, e) == Some([]);
    assert [Range(0, e)] + [] == [Range(0, e)];
  }

  lemma WsInFile(b: bytes, l: Line, i: nat, j: nat)
    requires MatchesAt(b, l.start, l.text) && i <= j <= |l.text| && AllWs(l.text[i..j])
    ensures AllWs(b[l.start + i..l.start + j])
  {
    LineSlice(b, l, i, j);
  }

  lemma ByteInFile(b: bytes, l: Line, k: nat)
    requires MatchesAt(b, l.start, l.text) && k < |l.text|
    ensures b[l.start + k] == l.text[k]
  {
    assert b[l.start..l.start + |l.text|][k] == b[l.start + k];
  }

  lemma ObjectInFile(b: bytes, l: Line, s: nat, e: nat)
    requires MatchesAt(b, l.start, l.text) && s < e <= |l.text|
    requires AllWs(l.text[0..s]) && AllWs(l.text[e..|l.text|]) && l.text[s] == LBRACE && l.text[e - 1] == RBRACE
    ensures AllWs(b[l.start..l.start + s]) && AllWs(b[l.start + e..End(l)])
    ensures b[l.start + s] == LBRACE && b[l.start + e - 1] == RBRACE
  {
    WsInFile(b, l, 0, s);
    WsInFile(b, l, e, |l.text|);
    ByteInFile(b, l, s);
    ByteInFile(b, l, e - 1);
  }

  lemma LineCore(b: bytes, from: nat, end: nat, r: Range, s: nat)
    requires r.start <= from <= s < r.end <= end <= |b| && AllWs(b[r.start..from]) && AllWs(b[from..s])
    requires AllWs(b[r.end..end]) && b[s] == LBRACE && b[r.end - 1] == RBRACE
    ensures SameRecord(b, Range(from, end), r)
  {
    AllWsConcat(b, r.start, from, s);
    SameCore(b, from, end, r.start, s, r.end);
  }

  lemma FirstStarts(b: bytes, l: Line, r: Range, e: nat)
    requires AlikeOne(b, l, r, Range(0, e))
    ensures r.start <= l.start && r.end == l.start + e <= |b| && AllWs(b[r.start..l.start])
  {
    assert l.start + 0 == l.start;
  }

  /** The record of an object line is the line, white space apart. */
  lemma RecordIsLine(b: bytes, l: Line, r: Range, s: nat, e: nat)
    requires MatchesAt(b, l.start, l.text) && s < e <= |l.text|
    requires AllWs(l.text[0..s]) && AllWs(l.text[e..|l.text|]) && l.text[s] == LBRACE && l.text[e - 1] == RBRACE
    requires r.start <= l.start && r.end == l.start + e && AllWs(b[r.start..l.start])
    ensures SameRecord(b, RangeOf(l), r)
  {
    ObjectInFile(b, l, s, e);
    LineCore(b, l.start, End(l), r, l.start + s);
  }

  lemma EnterOne(b: bytes, r: Range, m: map<nat, Range>)
    requires r.start < r.end <= |b|
    ensures Enter(b, [r], m) == IndexRecord(b, r.start, r.end, m)
  {
    assert [r][1..] == [];
  }

  lemma StrictEntry(b: bytes, l: Line, rs: seq<Range>, m: map<nat, Range>, id: nat)
    requires LineAt(b, l) && ObjectLine(l.text) && Records(l.text, 0).Some? && Alike(b, l, rs, Records(l.text, 0).value)
    requires Within(b, rs) && OwnScan(l.text).Ok? && id in OwnScan(l.text).value
    ensures id in Enter(b, rs, m) && SameRecord(b, RangeOf(l), Enter(b, rs, m)[id])
  {
    var s, e := ObjectRecord(l.text);
    ScanEnters(l.text, 0, map[]);
    EnterOne(l.text, Range(0, e), map[]);
    assert AlikeOne(b, l, rs[0], Range(0, e));
    assert rs == [rs[0]];
    EnterOne(b, rs[0], m);
    FirstStarts(b, l, rs[0], e);
    RecordIsLine(b, l, rs[0], s, e);
  }

  /** One scanned line brings the table of the scan up to the lines with it. */
  lemma LineMirrors(b: bytes, lines: seq<Line>, l: Line, rs: seq<Range>, m: map<nat, Range>)
    requires LineAt(b, l) && Records(l.text, 0).Some? && Alike(b, l, rs, Records(l.text, 0).value) && Within(b, rs)
    requires Mirrors(b, lines, m)
    ensures Mirrors(b, lines + [l], Enter(b, rs, m))
  {
    var own := Records(l.text, 0).value;
    AlikeWithin(b, l, rs, own);
    assert Overlay(b, l, m, map[], m);
    EnterOverlay(b, l, rs, own, m, map[], m);
    ScanEnters(l.text, 0, map[]);
    var m' := Enter(b, rs, m);
    forall id ensures MirrorsOne(b, LastShown(InRecord, lines + [l], id), m', id) {
      LastSnoc(InRecord, lines, l, id);
      assert MirrorsOne(b, LastShown(InRecord, lines, id), m, id);
      if Shows(InRecord, l.text, id) && Strict(l.text) { StrictEntry(b, l, rs, m, id); }
      EntryMirrors(b, lines, l, OwnScan(l.text).value, m, m', id);
    }
  }

  lemma EntryMirrors(b: bytes, lines: seq<Line>, l: Line, own: map<nat, Range>, m: map<nat, Range>, m': map<nat, Range>,
                     id: nat)
    requires OwnScan(l.text) == Ok(own) && Overlay(b, l, m, own, m')
    requires MirrorsOne(b, LastShown(InRecord, lines, id), m, id)
    requires id in own && Strict(l.text) ==> id in m' && SameRecord(b, RangeOf(l), m'[id])
    ensures MirrorsOne(b, if Shows(InRecord, l.text, id) then Some(l) else LastShown(InRecord, lines, id), m', id)
  {
    assert id in m' <==> id in m || id in own;
  }

  // --- From line to line -----------------------------------------------------------------------

  predicate Boundary(b: bytes, from: nat) { from <= |b| && (from == |b| || LineStart(b[..from]) == from) }

  /** The lines before a boundary; at the end, all. */
  function LinesUpTo(b: bytes, from: nat): seq<Line>
    requires from <= |b|
  {
    if from == |b| then Lines(b) else TerminatedLines(b[..from])
  }

  lemma TakeEnded(b: bytes, from: nat, end: nat)
    requires from <= end < |b| && LineStart(b[..from]) == from && NL !in b[from..end] && b[end] == NL
    ensures LineStart(b[..end + 1]) == end + 1 && Line(from, b[from..end]) in Lines(b)
    ensures LinesUpTo(b, end + 1) == TerminatedLines(b[..from]) + [Line(from, b[from..end])]
  {
    TerminatedLineAt(b, from, end);
    LinesAppendLine(b[..from], b[from..end]);
    UpToNewline(b, from, end);
  }

  lemma UpToNewline(b: bytes, from: nat, end: nat)
    requires from <= end < |b| && b[end] == NL
    ensures b[..end + 1] == b[..from] + b[from..end] + [NL] && |b[..from]| == from
    ensures end + 1 == |b| ==> b[..end + 1] == b
  {
  }

  lemma TakeLast(b: bytes, from: nat)
    requires from < |b| && LineStart(b[..from]) == from && NL !in b[from..|b|]
    ensures Line(from, b[from..|b|]) in Lines(b)
    ensures Lines(b) == TerminatedLines(b[..from]) + [Line(from, b[from..|b|])]
  {
    assert b[from..|b|] == b[from..];
    LastLineAt(b, from);
  }

  lemma LineInPlace(b: bytes, from: nat, end: nat)
    requires from <= end <= |b| && (end == |b| || b[end] == NL)
    ensures LineAt(b, Line(from, b[from..end])) && End(Line(from, b[from..end])) == end
  {
  }

  lemma TakeLine(b: bytes, from: nat) returns (l: Line, next: nat)
    requires Boundary(b, from) && from < |b|
    ensures from < next <= |b| && Boundary(b, next) && LinesUpTo(b, next) == LinesUpTo(b, from) + [l]
    ensures l.start == from && LineAt(b, l) && End(l) <= next && AllWs(b[End(l)..next]) && l in Lines(b)
  {
    var end := NewlineFrom(b, from);
    l := Line(from, b[from..end]);
    LineInPlace(b, from, end);
    if end < |b| {
      next := end + 1;
      TakeEnded(b, from, end);
    } else {
      next := |b|;
      TakeLast(b, from);
    }
  }

  lemma {:induction false} NothingVisible(s: bytes, z: bytes)
    requires LastNonWs(s).None? && Opens(z)
    ensures Opens(s + z)
  {
    var k := LastVisible(s);
    assert s[0..] == s;
    OpensAfterBlank(s, z);
  }

  lemma {:induction false} OpensAtBrace(w: bytes, z: bytes)
    requires AllWs(w) && z != [] && z[0] == LBRACE
    ensures Opens(w + z)
  {
    assert AllBlank(w);
    OpensAfterBlank(w, z);
  }

  /** A line with an entry starts with a brace. */
  lemma TakenOpens(text: bytes, z: bytes)
    requires Taken(text)
    ensures Opens(text + z)
  {
    var head := Head(text);
    assert Expect(head, [LBRACE]).Some?;
    var w := TrimLeftSplits(head);
    var rest := TrimLeft(head) + text[|head|..] + z;
    assert TrimLeft(head)[0] == LBRACE;
    assert text + z == w + rest;
    OpensAtBrace(w, rest);
  }

  lemma {:induction false} SuffixOpens(b: bytes, from: nat)
    requires IndexLines(Lines(b)).complete && Boundary(b, from)
    ensures Opens(b[from..])
    decreases |b| - from
  {
    if from < |b| {
      var l, next := TakeLine(b, from);
      SuffixOpens(b, next);
      CompleteLine(Lines(b), l);
      var z := b[End(l)..next] + b[next..];
      OpensAfterBlank(b[End(l)..next], b[next..]);
      SuffixSplits(b, l, next);
      if Taken(l.text) { TakenOpens(l.text, z); } else { NothingVisible(l.text, z); }
    }
  }

  lemma SuffixSplits(b: bytes, l: Line, next: nat)
    requires MatchesAt(b, l.start, l.text) && End(l) <= next <= |b|
    ensures b[End(l)..] == b[End(l)..next] + b[next..]
    ensures b[l.start..] == l.text + (b[End(l)..next] + b[next..])
  {
  }

  lemma LineIsClosed(b: bytes, l: Line, next: nat)
    requires IndexLines(Lines(b)).complete && Boundary(b, next) && l in Lines(b)
    requires LineAt(b, l) && End(l) <= next && AllWs(b[End(l)..next])
    ensures Closed(b, l)
  {
    SuffixOpens(b, next);
    OpensAfterBlank(b[End(l)..next], b[next..]);
    SuffixSplits(b, l, next);
    CompleteLine(Lines(b), l);
  }

  ghost predicate Scannable(lines: seq<Line>) { forall l :: l in lines ==> OwnScan(l.text).Ok? }

  /** The scan waits at `pos` before the boundary `from`, with only white space in between. */
  ghost predicate Waits(b: bytes, from: nat, pos: nat) {
    Boundary(b, from) && pos <= from && AllWs(b[pos..from])
  }

  /** When the scan of the file succeeds, so does that of every line. */
  lemma {:induction false} LinesScan(b: bytes, from: nat, pos: nat)
    requires IndexLines(Lines(b)).complete && Waits(b, from, pos) && Records(b, pos).Some?
    requires Scannable(LinesUpTo(b, from))
    ensures Scannable(Lines(b))
    decreases |b| - from
  {
    if from < |b| {
      var l, next := TakeLine(b, from);
      LineIsClosed(b, l, next);
      LineScansAlone(b, l, 0, pos);
      ScanEnters(l.text, 0, map[]);
      var rs, pos' := ScanLine(b, l, 0, pos, Records(l.text, 0).value);
      AllWsConcat(b, pos', End(l), next);
      LinesScan(b, next, pos');
    }
  }

  /** When every line scans on its own, the scan of the file succeeds, and mirrors the lines. */
  lemma {:induction false} ScanMirrors(b: bytes, from: nat, pos: nat, m: map<nat, Range>)
    requires Scannable(Lines(b)) && Waits(b, from, pos) && Mirrors(b, LinesUpTo(b, from), m)
    ensures Records(b, pos).Some? && Mirrors(b, Lines(b), Enter(b, Records(b, pos).value, m))
    decreases |b| - from
  {
    if from == |b| {
      assert b[pos..] == b[pos..from];
      TrimLeftBlank(b[pos..]);
    } else {
      var l, next := TakeLine(b, from);
      ScanEnters(l.text, 0, map[]);
      var rs, pos' := ScanLine(b, l, 0, pos, Records(l.text, 0).value);
      AlikeWithin(b, l, rs, Records(l.text, 0).value);
      LineMirrors(b, LinesUpTo(b, from), l, rs, m);
      AllWsConcat(b, pos', End(l), next);
      ScanMirrors(b, next, pos', Enter(b, rs, m));
      EnterConcat(b, rs, Records(b, pos').value, m);
    }
  }

  // --- The exact condition -----------------------------------------------------------------------

  lemma {:induction false} TerminatedApart(a: bytes)
    ensures forall l :: l in TerminatedLines(a) ==> End(l) < LineStart(a)
    ensures forall k, l :: k in TerminatedLines(a) && l in TerminatedLines(a) ==>
      k == l || End(k) < l.start || End(l) < k.start
  {
    if a != [] {
      TerminatedApart(a[..|a| - 1]);
    }
  }

  /** Lines lie apart. */
  lemma LinesApart(b: bytes, k: Line, l: Line)
    requires k in Lines(b) && l in Lines(b)
    ensures k == l || End(k) < l.start || End(l) < k.start
  {
    TerminatedApart(b);
  }

  /** A record that ends in one line is not the record of another. */
  lemma SameRecordSameLine(b: bytes, k: Line, l: Line, r: Range)
    requires k in Lines(b) && l in Lines(b) && End(k) <= |b| && SameRecord(b, RangeOf(k), r) && Placed(b, l, r)
    ensures k == l
  {
    LinesApart(b, k, l);
    if RangeOf(k) != r {
      var core :| CoreOf(b, RangeOf(k), core) && CoreOf(b, r, core);
      if core.end < r.end { WsAt(b, core.end, r.end, r.end - 1); }
    }
  }

  /** The last line that shows an id, in its head or in a record, is one uncut object. */
  ghost predicate LastIsStrict(lines: seq<Line>, id: nat) {
    LastShown(Anywhere, lines, id).Some? ==> Strict(LastShown(Anywhere, lines, id).value.text)
  }

  /** A strict line shows the same id in its head and in its record. */
  lemma StrictShowsBoth(text: bytes, id: nat)
    requires Strict(text) && Taken(text) && Shows(Anywhere, text, id)
    ensures Shows(InHead, text, id) && Shows(InRecord, text, id)
  {
    HeadOfJson(text);
    var s, e := ObjectRecord(text);
    ScanEnters(text, 0, map[]);
    EnterOne(text, Range(0, e), map[]);
    SameIdToTheEnd(text, e);
  }

  lemma SameIdToTheEnd(text: bytes, e: nat)
    requires 0 < e <= |text| && text[e - 1] == RBRACE
    ensures ReadIdField(text) == ReadIdField(text[0..e])
  {
    ReadIdOfObject([], text[0..e], text[e..]);
    assert [] + text[0..e] == text[0..e] && text[0..e] + text[e..] == text;
  }

  ghost predicate RightAt(b: bytes, ranges: map<nat, Range>, m: map<nat, Range>, id: nat) {
    (id in ranges <==> id in m) && (id in m ==> SameRecord(b, ranges[id], m[id]))
  }

  lemma RightForId(b: bytes, m: map<nat, Range>, id: nat)
    requires IndexLines(Lines(b)).complete && Mirrors(b, Lines(b), m) && LastIsStrict(Lines(b), id)
    ensures RightAt(b, IndexLines(Lines(b)).ranges, m, id)
  {
    var lines := Lines(b);
    var last := LastShown(Anywhere, lines, id);
    LastAnywhere(lines, id);
    IndexMirrors(lines, id);
    assert MirrorsOne(b, LastShown(InRecord, lines, id), m, id);
    if last.Some? {
      CompleteLine(lines, last.value);
      StrictIsVisible(last.value.text);
      StrictShowsBoth(last.value.text, id);
    }
  }

  lemma StrictIsVisible(text: bytes)
    requires ObjectLine(text)
    ensures LastNonWs(text).Some?
  {
    var s, e := ObjectRecord(text);
    LastNonWsNone(text);
  }

  lemma StrictForId(b: bytes, m: map<nat, Range>, id: nat)
    requires IndexLines(Lines(b)).complete && Mirrors(b, Lines(b), m) && ScanFrom(b, 0, map[]) == Ok(m)
    requires Right(b, IndexLines(Lines(b)).ranges)
    ensures LastIsStrict(Lines(b), id)
  {
    var lines := Lines(b);
    var ranges := IndexLines(lines).ranges;
    var last, head, record := LastShown(Anywhere, lines, id), LastShown(InHead, lines, id),
      LastShown(InRecord, lines, id);
    LastAnywhere(lines, id);
    IndexMirrors(lines, id);
    assert MirrorsOne(b, record, m, id);
    if last.Some? {
      assert id in ranges <==> id in m;
      LinesInPlace(b);
      TakenLineIsStrict(b, head.value, ranges, id);
      SameRecordSameLine(b, head.value, record.value, m[id]);
    }
  }

  lemma AtStart(b: bytes)
    ensures Waits(b, 0, 0) && LinesUpTo(b, 0) == [] && (ScanFrom(b, 0, map[]).Ok? <==> Records(b, 0).Some?)
  {
    ScanEnters(b, 0, map[]);
    assert b[..0] == [] && b[0..0] == [];
  }

  lemma LinesMirrored(b: bytes) returns (m: map<nat, Range>)
    requires Scannable(Lines(b))
    ensures ScanFrom(b, 0, map[]) == Ok(m) && Mirrors(b, Lines(b), m)
  {
    AtStart(b);
    ScanMirrors(b, 0, 0, map[]);
    ScanEnters(b, 0, map[]);
    m := ScanFrom(b, 0, map[]).value;
  }

  lemma RightEverywhere(b: bytes, ranges: map<nat, Range>, m: map<nat, Range>)
    requires ScanFrom(b, 0, map[]) == Ok(m) && forall id :: RightAt(b, ranges, m, id)
    ensures Right(b, ranges)
  {
    forall id ensures id in ranges <==> id in m { assert RightAt(b, ranges, m, id); }
    assert ranges.Keys == m.Keys;
    forall id | id in ranges ensures SameRecord(b, ranges[id], m[id]) { assert RightAt(b, ranges, m, id); }
  }

  /** A complete line index is right exactly when every line scans on its own and, of every id, the last
      line that shows it in its head or in a record is one object whose id its head does not cut. */
  lemma RightExactlyWhen(b: bytes)
    requires IndexLines(Lines(b)).complete
    ensures Right(b, IndexLines(Lines(b)).ranges)
       <==> Scannable(Lines(b)) && forall id :: LastIsStrict(Lines(b), id)
  {
    AtStart(b);
    if Right(b, IndexLines(Lines(b)).ranges) {
      LinesScan(b, 0, 0);
      var m := LinesMirrored(b);
      forall id ensures LastIsStrict(Lines(b), id) { StrictForId(b, m, id); }
    }
    if Scannable(Lines(b)) && forall id :: LastIsStrict(Lines(b), id) {
      var m := LinesMirrored(b);
      forall id ensures RightAt(b, IndexLines(Lines(b)).ranges, m, id) { RightForId(b, m, id); }
      RightEverywhere(b, IndexLines(Lines(b)).ranges, m);
    }
  }
}
