/** Choosing between the line index and the exhaustive scan, and why the choice does not show. */
module BuildIndex {
  import opened Bytes
  import opened BookId
  import opened Wrappers
  import opened IndexingWriter
  import opened Json
  import opened JsonStream

  // --- Strict JSONL ------------------------------------------------------------------

  /** Every line is blank or holds exactly one object. */
  ghost predicate StrictJsonl(b: bytes) {
    forall l :: l in Lines(b) ==> AllWs(l.text) || ObjectLine(l.text)
  }

  /** The 64-byte head of the line ends in the middle of the digits of its id. */
  predicate Straddles(text: bytes) {
    && |text| > 64 && IsDigit(text[64])
    && FindId(text[..64]).Some? && FindId(text[..64]).value.rest == []
  }

  ghost predicate NoStraddle(b: bytes) {
    forall l :: l in Lines(b) ==> !Straddles(l.text)
  }

  // --- The same record -----------------------------------------------------------------

  /** `core` is what `r` covers once the white space around it is dropped. */
  ghost predicate CoreOf(b: bytes, r: Range, core: Range) {
    && r.start <= core.start < core.end <= r.end <= |b|
    && AllWs(b[r.start..core.start]) && AllWs(b[core.end..r.end])
    && b[core.start] == LBRACE && b[core.end - 1] == RBRACE
  }

  ghost predicate SameRecord(b: bytes, r1: Range, r2: Range) {
    r1 == r2 || exists core :: CoreOf(b, r1, core) && CoreOf(b, r2, core)
  }

  /** Same ids, and for each id the same record up to surrounding white space. */
  ghost predicate SameRecords(b: bytes, m1: map<nat, Range>, m2: map<nat, Range>) {
    m1.Keys == m2.Keys && forall id :: id in m1 ==> SameRecord(b, m1[id], m2[id])
  }

  lemma WsAt(b: bytes, i: nat, j: nat, k: nat)
    requires i <= k < j <= |b| && AllWs(b[i..j])
    ensures IsWs(b[k])
  {
    assert b[k] == b[i..j][k - i];
  }

  /** The record both indexes name is unique: dropping white space leaves one range. */
  lemma CoreIsUnique(b: bytes, r: Range, c1: Range, c2: Range)
    requires CoreOf(b, r, c1) && CoreOf(b, r, c2)
    ensures c1 == c2
  {
    if c1.start < c2.start {
      WsAt(b, r.start, c2.start, c1.start);
    } else if c2.start < c1.start {
      WsAt(b, r.start, c1.start, c2.start);
    } else if c1.end < c2.end {
      WsAt(b, c1.end, r.end, c2.end - 1);
    } else if c2.end < c1.end {
      WsAt(b, c2.end, r.end, c1.end - 1);
    }
  }

  // --- The id in the head ----------------------------------------------------------------

  lemma {:induction false} ShorterIsSmaller(ds: bytes, more: bytes)
    requires AllDigits(ds) && AllDigits(more) && ds != [] && ds[0] != ZERO && more != []
    ensures 0 < DecimalValue(ds) < DecimalValue(ds + more)
    decreases |more|
  {
    PositiveValue(ds);
    var t := ds + more;
    var front := more[..|more| - 1];
    assert t[..|t| - 1] == ds + front;
    if front == [] {
      assert ds + front == ds;
    } else {
      ShorterIsSmaller(ds, front);
    }
  }

  lemma {:induction false} PositiveValue(ds: bytes)
    requires AllDigits(ds) && ds != [] && ds[0] != ZERO
    ensures DecimalValue(ds) > 0
  {
    if |ds| == 1 {
      assert ds[..0] == [];
      assert IsDigit(ds[0]) && DigitValue(ds[0]) > 0;
    } else {
      PositiveValue(ds[..|ds| - 1]);
    }
  }

  lemma DigitsOfFound(s: bytes)
    requires FindId(s).Some?
    ensures FindId(s).value.Valid()
  {
    var w, a, b, c := ShapeOfFindId(s);
  }

  /** The head shows the line's own id exactly when it does not cut the digits. JSON numbers
      have no leading zero (RFC 8259, section 6). */
  lemma HeadShowsId(text: bytes)
    requires ReadIdField(Head(text)).Some?
    requires FindId(text).Some? ==> FindId(text).value.digits[..1] != [ZERO]
    ensures ReadIdField(text) == ReadIdField(Head(text)) <==> !Straddles(text)
  {
    if |text| > LINE_HEAD_CAP {
      var head, tail := Head(text), text[LINE_HEAD_CAP..];
      assert text == head + tail;
      var f := FindId(head).value;
      FindIdAppend(head, tail);
      DigitsOfFound(head);
      if Straddles(text) {
        var r := TakeDigitsSplits(tail);
        assert TakeDigits(tail) != [] && FindId(text).value.digits == f.digits + TakeDigits(tail);
        assert FindId(text).value.digits[..1] == f.digits[..1] == [f.digits[0]];
        ShorterIsSmaller(f.digits, TakeDigits(tail));
      } else if f.rest == [] {
        assert TakeDigits(tail) == [];
        assert f.digits + [] == f.digits;
      }
    }
  }

  lemma HeadIsSound(text: bytes)
    requires ReadIdField(Head(text)).Some? && !Straddles(text)
    ensures ReadIdField(text) == ReadIdField(Head(text))
  {
    if |text| > LINE_HEAD_CAP {
      var head, tail := Head(text), text[LINE_HEAD_CAP..];
      assert text == head + tail;
      var f := FindId(head).value;
      FindIdAppend(head, tail);
      if f.rest == [] {
        assert TakeDigits(tail) == [];
        assert f.digits + [] == f.digits;
      }
    }
  }

  // --- One line ----------------------------------------------------------------------------

  lemma {:induction false} LastNonWsNone(s: bytes)
    ensures LastNonWs(s).None? <==> forall k :: 0 <= k < |s| ==> IsAsciiWs(s[k])
  {
    if s != [] {
      LastNonWsNone(s[..|s| - 1]);
    }
  }

  /** An object line leaves the line index incomplete, or adds the id of its object. */
  lemma IndexObjectLine(acc: LineIndex, l: Line, w: bytes, record: bytes, z: bytes) returns (next: LineIndex)
    requires l.text == w + record + z && AllWs(w) && AllWs(z)
    requires |record| >= 2 && record[0] == LBRACE && record[|record| - 1] == RBRACE
    requires !Straddles(l.text)
    ensures next == IndexLine(acc, l)
    ensures next.complete ==>
      && ReadIdField(record).Some? && acc.complete
      && next.ranges == acc.ranges[ReadIdField(record).value := Range(l.start, l.start + |l.text|)]
  {
    next := IndexLine(acc, l);
    LastNonWsNone(l.text);
    assert l.text[|w|] == record[0];
    if ReadIdField(Head(l.text)).Some? {
      HeadIsSound(l.text);
      ReadIdOfObject(w, record, z);
    }
  }

  lemma ReadIdOfObject(w: bytes, record: bytes, z: bytes)
    requires AllWs(w) && record != [] && record[|record| - 1] == RBRACE
    ensures ReadIdField(w + record + z) == ReadIdField(record)
  {
    assert w + record + z == w + (record + z);
    ReadIdSkipsWs(w, record + z);
    ReadIdDecidedBy(record, z, |record| - 1);
  }

  // --- Both scans over the same lines ------------------------------------------------------

  /** The lines ended within a prefix are the first lines of the buffer. */
  lemma {:induction false} LinesOfPrefix(b: bytes, k: nat)
    requires k <= |b|
    ensures TerminatedLines(b[..k]) <= TerminatedLines(b)
    decreases |b|
  {
    if k < |b| {
      assert b[..|b| - 1][..k] == b[..k];
      LinesOfPrefix(b[..|b| - 1], k);
    } else {
      assert b[..k] == b;
    }
  }

  lemma IndexSnoc(lines: seq<Line>, l: Line)
    ensures IndexLines(lines + [l]) == IndexLine(IndexLines(lines), l)
  {
    assert (lines + [l])[..|lines|] == lines;
  }

  /** The line that starts at the boundary `from`, when a newline ends it at `end`. */
  lemma TerminatedLineAt(b: bytes, from: nat, end: nat)
    requires from <= end < |b| && LineStart(b[..from]) == from && NL !in b[from..end] && b[end] == NL
    ensures LineStart(b[..end + 1]) == end + 1
    ensures IndexLines(TerminatedLines(b[..end + 1]))
         == IndexLine(IndexLines(TerminatedLines(b[..from])), Line(from, b[from..end]))
    ensures Line(from, b[from..end]) in Lines(b)
  {
    var lines, l := TerminatedLines(b[..from]), Line(from, b[from..end]);
    assert b[..end + 1] == b[..from] + b[from..end] + [NL];
    LinesAppendLine(b[..from], b[from..end]);
    IndexSnoc(lines, l);
    LinesOfPrefix(b, end + 1);
    assert l == TerminatedLines(b[..end + 1])[|lines|];
    assert l in TerminatedLines(b);
  }

  /** The line that starts at the boundary `from` and runs to the end of the buffer. */
  lemma LastLineAt(b: bytes, from: nat)
    requires from < |b| && LineStart(b[..from]) == from && NL !in b[from..]
    ensures Lines(b) == TerminatedLines(b[..from]) + [Line(from, b[from..])]
    ensures IndexLines(Lines(b)) == IndexLine(IndexLines(TerminatedLines(b[..from])), Line(from, b[from..]))
    ensures Line(from, b[from..]) in Lines(b)
  {
    var lines, l := TerminatedLines(b[..from]), Line(from, b[from..]);
    LinesExtend(b[..from], b[from..]);
    assert b[..from] + b[from..] == b;
    IndexSnoc(lines, l);
    assert (lines + [l])[|lines|] == l;
  }

  lemma NewlineFrom(b: bytes, from: nat) returns (end: nat)
    requires from <= |b|
    ensures from <= end <= |b| && NL !in b[from..end] && (end < |b| ==> b[end] == NL)
  {
    end := from;
    while end < |b| && b[end] != NL
      invariant from <= end <= |b| && NL !in b[from..end]
    {
      end := end + 1;
    }
  }

  lemma AllWsConcat(b: bytes, i: nat, j: nat, k: nat)
    requires i <= j <= k <= |b| && AllWs(b[i..j]) && AllWs(b[j..k])
    ensures AllWs(b[i..k])
  {
    assert b[i..k] == b[i..j] + b[j..k];
  }

  lemma TrimToRecord(b: bytes, pos: nat, s: nat)
    requires pos <= s < |b| && AllWs(b[pos..s]) && !IsWs(b[s])
    ensures TrimLeft(b[pos..]) == b[s..]
  {
    assert b[pos..] == b[pos..s] + b[s..];
    TrimLeftSkips(b[pos..s], b[s..]);
  }

  lemma RecordLength(b: bytes, s: nat, e: nat)
    requires s < e <= |b| && Exact(INIT, b[s..e])
    ensures ValueLength(INIT, b[s..]) == Some(e - s)
  {
    assert b[s..] == b[s..e] + b[e..];
  }

  /** The scan passes a record that white space separates from the position it is at. */
  lemma ScanRecord(b: bytes, pos: nat, s: nat, e: nat, m: map<nat, Range>)
    requires pos <= s < e <= |b| && AllWs(b[pos..s])
    requires b[s] == LBRACE && Exact(INIT, b[s..e])
    ensures ScanFrom(b, pos, m) == ScanFrom(b, e, IndexRecord(b, pos, e, m))
  {
    TrimToRecord(b, pos, s);
    RecordLength(b, s, e);
    assert |b| - |b[s..]| + (e - s) == e;
  }

  lemma IdAfterWs(b: bytes, pos: nat, s: nat, e: nat)
    requires pos <= s < e <= |b| && AllWs(b[pos..s]) && b[e - 1] == RBRACE
    ensures ReadIdField(b[pos..e]) == ReadIdField(b[s..e])
  {
    assert b[pos..e] == b[pos..s] + b[s..e];
    ReadIdSkipsWs(b[pos..s], b[s..e]);
  }

  ghost predicate Agree(b: bytes, index: LineIndex, m: map<nat, Range>) {
    index.complete ==> SameRecords(b, index.ranges, m)
  }

  lemma InsertSame(b: bytes, index: LineIndex, next: LineIndex, m: map<nat, Range>, m': map<nat, Range>,
                   id: Option<nat>, r1: Range, r2: Range)
    requires Agree(b, index, m) && SameRecord(b, r1, r2)
    requires next.complete ==> id.Some? && index.complete && next.ranges == index.ranges[id.value := r1]
    requires m' == if id.Some? then m[id.value := r2] else m
    ensures Agree(b, next, m')
  {
  }

  /** One object line moves both scans to the same table. */
  lemma ObjectLineStep(b: bytes, from: nat, end: nat, pos: nat, index: LineIndex, m: map<nat, Range>)
    returns (pos': nat, m': map<nat, Range>)
    requires pos <= from <= end <= |b| && AllWs(b[pos..from])
    requires ObjectLine(b[from..end]) && !Straddles(b[from..end])
    requires Agree(b, index, m)
    ensures pos' <= end && AllWs(b[pos'..end])
    ensures ScanFrom(b, pos, m) == ScanFrom(b, pos', m')
    ensures Agree(b, IndexLine(index, Line(from, b[from..end])), m')
  {
    var w, record, z := ObjectLineSplits(b[from..end]);
    var s, e := from + |w|, from + |w| + |record|;
    RecordInPlace(b, from, end, w, record, z);
    AllWsConcat(b, pos, from, s);
    ScanRecord(b, pos, s, e, m);
    IdAfterWs(b, pos, s, e);
    pos', m' := e, IndexRecord(b, pos, e, m);
    BothInsert(b, from, end, pos, s, e, index, m);
  }

  lemma BothInsert(b: bytes, from: nat, end: nat, pos: nat, s: nat, e: nat, index: LineIndex, m: map<nat, Range>)
    requires pos <= from <= s < s + 2 <= e <= end <= |b|
    requires AllWs(b[pos..s]) && AllWs(b[from..s]) && AllWs(b[e..end])
    requires b[s] == LBRACE && b[e - 1] == RBRACE && ReadIdField(b[pos..e]) == ReadIdField(b[s..e])
    requires !Straddles(b[from..end])
    requires Agree(b, index, m)
    ensures Agree(b, IndexLine(index, Line(from, b[from..end])), IndexRecord(b, pos, e, m))
  {
    var next := IndexLine(index, Line(from, b[from..end]));
    ObjectAt(b, from, end, s, e, index, next);
    SameCore(b, from, end, pos, s, e);
    InsertSame(b, index, next, m, IndexRecord(b, pos, e, m), ReadIdField(b[s..e]), Range(from, end), Range(pos, e));
  }

  lemma IndexObject(index: LineIndex, l: Line, w: bytes, record: bytes, z: bytes, next: LineIndex)
    requires l.text == w + record + z && AllWs(w) && AllWs(z)
    requires |record| >= 2 && record[0] == LBRACE && record[|record| - 1] == RBRACE
    requires !Straddles(l.text) && next == IndexLine(index, l)
    ensures next.complete ==>
      && ReadIdField(record).Some? && index.complete
      && next.ranges == index.ranges[ReadIdField(record).value := Range(l.start, l.start + |l.text|)]
  {
    var same := IndexObjectLine(index, l, w, record, z);
  }

  lemma EndsOf(b: bytes, s: nat, e: nat)
    requires s + 2 <= e <= |b|
    ensures |b[s..e]| >= 2 && b[s..e][0] == b[s] && b[s..e][|b[s..e]| - 1] == b[e - 1]
  {
  }

  lemma ObjectAt(b: bytes, from: nat, end: nat, s: nat, e: nat, index: LineIndex, next: LineIndex)
    requires from <= s < s + 2 <= e <= end <= |b|
    requires AllWs(b[from..s]) && AllWs(b[e..end]) && b[s] == LBRACE && b[e - 1] == RBRACE
    requires !Straddles(b[from..end]) && next == IndexLine(index, Line(from, b[from..end]))
    ensures next.complete ==>
      && ReadIdField(b[s..e]).Some? && index.complete
      && next.ranges == index.ranges[ReadIdField(b[s..e]).value := Range(from, end)]
  {
    ThreeParts(b, from, s, e, end);
    EndsOf(b, s, e);
    IndexObject(index, Line(from, b[from..end]), b[from..s], b[s..e], b[e..end], next);
  }

  lemma ThreeParts(b: bytes, i: nat, j: nat, k: nat, n: nat)
    requires i <= j <= k <= n <= |b|
    ensures b[i..n] == b[i..j] + b[j..k] + b[k..n]
  {
  }

  lemma SameCore(b: bytes, from: nat, end: nat, pos: nat, s: nat, e: nat)
    requires pos <= from <= s < e <= end <= |b|
    requires AllWs(b[pos..s]) && AllWs(b[from..s]) && AllWs(b[e..end])
    requires b[s] == LBRACE && b[e - 1] == RBRACE
    ensures SameRecord(b, Range(from, end), Range(pos, e))
  {
    assert b[e..e] == [];
    assert CoreOf(b, Range(from, end), Range(s, e)) && CoreOf(b, Range(pos, e), Range(s, e));
  }

  lemma RecordInPlace(b: bytes, from: nat, end: nat, w: bytes, record: bytes, z: bytes)
    requires from <= end <= |b| && b[from..end] == w + record + z && record != []
    ensures var s, e := from + |w|, from + |w| + |record|;
      && e <= end && b[from..s] == w && b[s..e] == record && b[e..end] == z
      && b[s] == record[0] && b[e - 1] == record[|record| - 1]
  {
    var t := b[from..end];
    assert |t| == |w| + |record| + |z|;
    SliceOfSlice(b, from, end, 0, |w|);
    SliceOfSlice(b, from, end, |w|, |w| + |record|);
    SliceOfSlice(b, from, end, |w| + |record|, |t|);
    PartsOf(w, record, z);
    assert record[0] == b[from + |w|..from + |w| + |record|][0];
    assert record[|record| - 1] == b[from + |w|..from + |w| + |record|][|record| - 1];
  }

  lemma SliceOfSlice(b: bytes, from: nat, end: nat, i: nat, j: nat)
    requires from <= end <= |b| && i <= j <= end - from
    ensures b[from..end][i..j] == b[from + i..from + j]
  {
    var t, u := b[from..end][i..j], b[from + i..from + j];
    assert |t| == |u| && forall k :: 0 <= k < |t| ==> t[k] == u[k];
  }

  lemma PartsOf(w: bytes, record: bytes, z: bytes)
    ensures var t := w + record + z;
      t[0..|w|] == w && t[|w|..|w| + |record|] == record && t[|w| + |record|..|t|] == z
  {
  }

  lemma BlankLine(b: bytes, from: nat, end: nat, pos: nat, index: LineIndex)
    requires pos <= from <= end <= |b| && AllWs(b[pos..from]) && AllWs(b[from..end])
    ensures AllWs(b[pos..end]) && IndexLine(index, Line(from, b[from..end])) == index
  {
    AllWsConcat(b, pos, from, end);
    LastNonWsNone(b[from..end]);
  }

  lemma ScanBlankRest(b: bytes, pos: nat, m: map<nat, Range>)
    requires pos <= |b| && AllWs(b[pos..])
    ensures ScanFrom(b, pos, m) == Ok(m)
  {
    TrimLeftBlank(b[pos..]);
  }

  /** One line of either kind. */
  lemma LineStep(b: bytes, from: nat, end: nat, pos: nat, index: LineIndex, m: map<nat, Range>)
    returns (pos': nat, m': map<nat, Range>)
    requires pos <= from <= end <= |b| && AllWs(b[pos..from])
    requires AllWs(b[from..end]) || ObjectLine(b[from..end])
    requires !Straddles(b[from..end])
    requires Agree(b, index, m)
    ensures pos' <= end && AllWs(b[pos'..end])
    ensures ScanFrom(b, pos, m) == ScanFrom(b, pos', m')
    ensures Agree(b, IndexLine(index, Line(from, b[from..end])), m')
  {
    if AllWs(b[from..end]) {
      pos', m' := pos, m;
      BlankLine(b, from, end, pos, index);
    } else {
      pos', m' := ObjectLineStep(b, from, end, pos, index, m);
    }
  }

  /** The scan succeeded, in agreement with the whole line index. */
  ghost predicate Agreed(b: bytes, scan: Result<map<nat, Range>, nat>) {
    scan.Ok? && Agree(b, IndexLines(Lines(b)), scan.value)
  }

  /** The scan of the rest succeeds and ends in agreement with the whole line index. */
  ghost predicate EndsInAgreement(b: bytes, pos: nat, m: map<nat, Range>)
    requires pos <= |b|
  {
    Agreed(b, ScanFrom(b, pos, m))
  }

  lemma StepAtEnd(b: bytes, pos: nat, m: map<nat, Range>)
    requires InStep(b, |b|, pos, m)
    ensures EndsInAgreement(b, pos, m)
  {
    assert b[..|b|] == b;
    assert Lines(b) == TerminatedLines(b);
    AgreeAtEnd(b, pos, m);
  }

  lemma AgreeAtEnd(b: bytes, pos: nat, m: map<nat, Range>)
    requires pos <= |b| && AllWs(b[pos..|b|]) && Agree(b, IndexLines(Lines(b)), m)
    ensures EndsInAgreement(b, pos, m)
  {
    assert b[pos..] == b[pos..|b|];
    ScanBlankRest(b, pos, m);
  }

  /** At the line boundary `from`, the scan waits at `pos` with only white space in between, and
      the two tables agree so far. */
  ghost predicate InStep(b: bytes, from: nat, pos: nat, m: map<nat, Range>) {
    && pos <= from <= |b| && LineStart(b[..from]) == from && AllWs(b[pos..from])
    && Agree(b, IndexLines(TerminatedLines(b[..from])), m)
  }

  lemma StrictLine(b: bytes, l: Line)
    requires StrictJsonl(b) && NoStraddle(b) && l in Lines(b)
    ensures (AllWs(l.text) || ObjectLine(l.text)) && !Straddles(l.text)
  {
  }

  lemma StepLastLine(b: bytes, from: nat, pos: nat, m: map<nat, Range>)
    requires StrictJsonl(b) && NoStraddle(b)
    requires InStep(b, from, pos, m) && from < |b| && NL !in b[from..|b|]
    ensures EndsInAgreement(b, pos, m)
  {
    assert b[from..|b|] == b[from..];
    LastLineAt(b, from);
    StrictLine(b, Line(from, b[from..]));
    var pos', m' := LineStep(b, from, |b|, pos, IndexLines(TerminatedLines(b[..from])), m);
    AgreeAtEnd(b, pos', m');
  }

  lemma StepTerminatedLine(b: bytes, from: nat, end: nat, pos: nat, m: map<nat, Range>)
    returns (pos': nat, m': map<nat, Range>)
    requires StrictJsonl(b) && NoStraddle(b)
    requires InStep(b, from, pos, m)
    requires from <= end < |b| && NL !in b[from..end] && b[end] == NL
    ensures InStep(b, end + 1, pos', m') && ScanFrom(b, pos, m) == ScanFrom(b, pos', m')
  {
    TerminatedLineAt(b, from, end);
    StrictLine(b, Line(from, b[from..end]));
    pos', m' := LineStep(b, from, end, pos, IndexLines(TerminatedLines(b[..from])), m);
    Resume(b, end, pos', m');
  }

  lemma Resume(b: bytes, end: nat, pos: nat, m: map<nat, Range>)
    requires pos <= end < |b| && AllWs(b[pos..end]) && b[end] == NL && LineStart(b[..end + 1]) == end + 1
    requires Agree(b, IndexLines(TerminatedLines(b[..end + 1])), m)
    ensures InStep(b, end + 1, pos, m)
  {
    AllWsConcat(b, pos, end, end + 1);
  }

  /** On to the next line boundary, or to the end with the last line. */
  lemma NextLine(b: bytes, from: nat, pos: nat, m: map<nat, Range>)
    returns (next: Option<nat>, pos': nat, m': map<nat, Range>)
    requires StrictJsonl(b) && NoStraddle(b)
    requires InStep(b, from, pos, m) && from < |b|
    ensures next.None? ==> EndsInAgreement(b, pos, m)
    ensures next.Some? ==>
      from < next.value && InStep(b, next.value, pos', m') && ScanFrom(b, pos, m) == ScanFrom(b, pos', m')
  {
    var end := NewlineFrom(b, from);
    next, pos', m' := None, pos, m;
    if end < |b| {
      pos', m' := StepTerminatedLine(b, from, end, pos, m);
      next := Some(end + 1);
    } else {
      StepLastLine(b, from, pos, m);
    }
  }

  /** From a line boundary on, the exhaustive scan succeeds, and it agrees with the line index
      whenever that one ends complete. */
  lemma {:induction false} AgreeFrom(b: bytes, from: nat, pos: nat, m: map<nat, Range>)
    requires StrictJsonl(b) && NoStraddle(b)
    requires InStep(b, from, pos, m)
    ensures EndsInAgreement(b, pos, m)
    decreases |b| - from
  {
    if from == |b| {
      StepAtEnd(b, pos, m);
    } else {
      var next, pos', m' := NextLine(b, from, pos, m);
      if next.Some? {
        AgreeFrom(b, next.value, pos', m');
      }
    }
  }

  /** On strict JSONL whose ids fit in the line heads, the exhaustive scan never fails, and a
      complete line index has its ids and its records. */
  lemma LineIndexAgreesWithScan(b: bytes)
    requires StrictJsonl(b) && NoStraddle(b)
    ensures ScanFrom(b, 0, map[]).Ok?
    ensures IndexLines(Lines(b)).complete ==>
      SameRecords(b, IndexLines(Lines(b)).ranges, ScanFrom(b, 0, map[]).value)
  {
    assert b[..0] == [];
    AgreeFrom(b, 0, 0, map[]);
  }

  /** Why the lines must hold one object each: two objects that white space separates on one line
      pass as one record under the first id, and the index still calls itself complete. */
  lemma SpacedRecordsPassAsOne(acc: LineIndex, start: nat, r1: bytes, w: bytes, r2: bytes)
    requires ObjectBytes(r1) && ObjectBytes(r2) && w != [] && AllWs(w)
    requires ReadIdField(Head(r1 + w + r2)).Some?
    ensures IndexLine(acc, Line(start, r1 + w + r2))
         == acc.(ranges := acc.ranges[ReadIdField(Head(r1 + w + r2)).value := Range(start, start + |r1 + w + r2|)])
  {
    var text := r1 + w + r2;
    SpacedAreNotAdjacent(r1, w, r2);
    assert text[|text| - 1] == r2[|r2| - 1] == RBRACE;
  }

  lemma WsIsNotAdjacent(w: bytes)
    requires AllWs(w)
    ensures !Contains(w, ADJACENT)
  {
    forall k | 0 <= k <= |w| ensures !MatchesAt(w, k, ADJACENT) {
      if k + 2 <= |w| { assert w[k..k + 2][0] == w[k]; }
    }
  }

  lemma SpacedAreNotAdjacent(r1: bytes, w: bytes, r2: bytes)
    requires ObjectBytes(r1) && ObjectBytes(r2) && w != [] && AllWs(w)
    ensures !Contains(r1 + w + r2, ADJACENT)
  {
    assert IsWs(w[0]) && IsWs(w[|w| - 1]);
    WsIsNotAdjacent(w);
    AdjacentConcat(r1, w);
    assert (r1 + w)[|r1 + w| - 1] == w[|w| - 1];
    AdjacentConcat(r1 + w, r2);
  }

  ghost predicate ObjectBytes(r: bytes) {
    |r| >= 2 && r[0] == LBRACE && r[|r| - 1] == RBRACE && !Contains(r, ADJACENT)
  }

  // --- The table ----------------------------------------------------------------------------

  datatype IdRange = IdRange(id: nat, start: nat, end: nat)

  predicate SortedById(entries: seq<IdRange>) {
    forall i, j :: 0 <= i < j < |entries| ==> entries[i].id < entries[j].id
  }

  /** `entries` lists exactly the pairs of `m`. */
  ghost predicate Lists(entries: seq<IdRange>, m: map<nat, Range>) {
    && (forall i :: 0 <= i < |entries| ==>
          entries[i].id in m && m[entries[i].id] == Range(entries[i].start, entries[i].end))
    && (forall id :: id in m ==> exists i :: 0 <= i < |entries| && entries[i].id == id)
  }

  /** Collects the pairs of a hash map, in whatever order it yields them, and sorts them by id. */
  method SortedEntries(m: map<nat, Range>) returns (entries: seq<IdRange>)
    ensures SortedById(entries) && Lists(entries, m)
  {
    entries := [];
    var left := m;
    while left != map[]
      invariant SortedById(entries)
      invariant forall id :: id in left ==> id in m && left[id] == m[id]
      invariant Lists(entries, m - left.Keys)
      decreases left.Keys
    {
      var id :| id in left;
      var before := m - left.Keys;
      entries := Insert(entries, IdRange(id, m[id].start, m[id].end), before);
      left := left - {id};
      assert m - left.Keys == before[id := m[id]];
    }
    assert m - left.Keys == m;
  }

  method Insert(entries: seq<IdRange>, e: IdRange, ghost m: map<nat, Range>) returns (r: seq<IdRange>)
    requires SortedById(entries) && Lists(entries, m) && e.id !in m
    ensures SortedById(r) && Lists(r, m[e.id := Range(e.start, e.end)])
  {
    var k := 0;
    while k < |entries| && entries[k].id < e.id
      invariant 0 <= k <= |entries|
      invariant forall i :: 0 <= i < k ==> entries[i].id < e.id
    {
      k := k + 1;
    }
    AboveTheRest(entries, e, k, m);
    Inserted(entries, e, k);
    InsertLists(entries, e, k, m, entries[..k] + [e] + entries[k..]);
    r := entries[..k] + [e] + entries[k..];
  }

  lemma Inserted(entries: seq<IdRange>, e: IdRange, k: nat)
    requires k <= |entries| && SortedById(entries)
    requires forall i :: 0 <= i < k ==> entries[i].id < e.id
    requires forall i :: k <= i < |entries| ==> e.id < entries[i].id
    ensures var r := entries[..k] + [e] + entries[k..];
      && |r| == |entries| + 1 && r[k] == e && SortedById(r)
      && (forall i :: 0 <= i < |entries| ==> r[if i < k then i else i + 1] == entries[i])
  {
    var r := entries[..k] + [e] + entries[k..];
    assert forall i :: 0 <= i < k ==> r[i] == entries[i];
    assert forall i :: k < i < |r| ==> r[i] == entries[i - 1];
    InsertedIsSorted(entries, e, k, r);
  }

  lemma InsertedIsSorted(entries: seq<IdRange>, e: IdRange, k: nat, r: seq<IdRange>)
    requires k <= |entries| && SortedById(entries) && |r| == |entries| + 1 && r[k] == e
    requires forall i :: 0 <= i < k ==> r[i] == entries[i] && entries[i].id < e.id
    requires forall i :: k < i < |r| ==> r[i] == entries[i - 1] && e.id < entries[i - 1].id
    ensures SortedById(r)
  {
  }

  lemma AboveTheRest(entries: seq<IdRange>, e: IdRange, k: nat, m: map<nat, Range>)
    requires SortedById(entries) && Lists(entries, m) && e.id !in m && k <= |entries|
    requires k < |entries| ==> e.id <= entries[k].id
    ensures forall i :: k <= i < |entries| ==> e.id < entries[i].id
  {
    forall i | k <= i < |entries| ensures e.id < entries[i].id {
      assert entries[i].id in m && (k < i ==> entries[k].id < entries[i].id);
    }
  }

  lemma InsertLists(entries: seq<IdRange>, e: IdRange, k: nat, m: map<nat, Range>, r: seq<IdRange>)
    requires k <= |entries| && Lists(entries, m) && e.id !in m
    requires |r| == |entries| + 1 && r[k] == e
    requires forall i :: 0 <= i < |entries| ==> r[if i < k then i else i + 1] == entries[i]
    ensures Lists(r, m[e.id := Range(e.start, e.end)])
  {
    forall i | 0 <= i < |r| && i != k
      ensures r[i].id in m && m[r[i].id] == Range(r[i].start, r[i].end)
    {
      var j := if i < k then i else i - 1;
      assert r[if j < k then j else j + 1] == entries[j];
    }
    forall id | id in m
      ensures exists i :: 0 <= i < |r| && r[i].id == id
    {
      var i :| 0 <= i < |entries| && entries[i].id == id;
      assert r[if i < k then i else i + 1].id == id;
    }
  }

  /** The sorted table of a buffer: the line index when it is complete and knows every required
      id, the exhaustive scan otherwise. */
  method Build(buffer: bytes, requiredIds: seq<nat>) returns (r: Result<seq<IdRange>, nat>)
    ensures var index := IndexLines(Lines(buffer));
      var fast := index.complete && forall i :: 0 <= i < |requiredIds| ==> requiredIds[i] in index.ranges;
      var source := if fast then Ok(index.ranges) else ScanFrom(buffer, 0, map[]);
      match source
      case Err(e) => r == Err(e)
      case Ok(m) => r.Ok? && SortedById(r.value) && Lists(r.value, m)
    ensures StrictJsonl(buffer) && NoStraddle(buffer) ==>
      && r.Ok? && ScanFrom(buffer, 0, map[]).Ok? && SortedById(r.value)
      && exists m :: Lists(r.value, m) && SameRecords(buffer, m, ScanFrom(buffer, 0, map[]).value)
  {
    assert [buffer][..0] == [] && Concat([buffer]) == buffer;
    var idToRange, complete := IndexChunks([buffer]);
    if !complete || exists i :: 0 <= i < |requiredIds| && requiredIds[i] !in idToRange {
      var scanned := IndexByJsonStream(buffer);
      if scanned.Err? {
        NeverFails(buffer);
        return Err(scanned.error);
      }
      idToRange := scanned.value;
    }
    EitherAgrees(buffer, idToRange);
    var entries := SortedEntries(idToRange);
    r := Ok(entries);
  }

  lemma NeverFails(buffer: bytes)
    ensures StrictJsonl(buffer) && NoStraddle(buffer) ==> ScanFrom(buffer, 0, map[]).Ok?
  {
    if StrictJsonl(buffer) && NoStraddle(buffer) { LineIndexAgreesWithScan(buffer); }
  }

  lemma EitherAgrees(buffer: bytes, m: map<nat, Range>)
    requires (m == IndexLines(Lines(buffer)).ranges && IndexLines(Lines(buffer)).complete) ||
      ScanFrom(buffer, 0, map[]) == Ok(m)
    ensures StrictJsonl(buffer) && NoStraddle(buffer) ==>
      ScanFrom(buffer, 0, map[]).Ok? && SameRecords(buffer, m, ScanFrom(buffer, 0, map[]).value)
  {
    if StrictJsonl(buffer) && NoStraddle(buffer) { LineIndexAgreesWithScan(buffer); }
  }
}
