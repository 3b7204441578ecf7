/** The exhaustive scan of a file whose lines are blank or end with `}` and start with `{`: it goes line
    by line. */
module LineScan {
  import opened Bytes
  import opened BookId
  import opened Wrappers
  import opened IndexingWriter
  import opened Json
  import opened JsonStream
  import opened BuildIndex
  import opened IndexLimits

  // --- A value within a longer text --------------------------------------------------------

  /** White space after a text does not change the value it starts with. */
  lemma {:induction false} ValueKeeps(st: Scan, w: bytes, z: bytes)
    requires ValueLength(st, w).Some? && (z == [] || IsWs(z[0]))
    ensures ValueLength(st, w + z) == ValueLength(st, w)
    decreases |w|
  {
    if w == [] {
      assert w + z == z;
    } else {
      assert (w + z)[0] == w[0] && (w + z)[1..] == w[1..] + z;
      if ValueLength(st, w) != Some(0) { ValueKeeps(Step(st, w[0]), w[1..], z); }
    }
  }

  /** Nor does the text after it decide a value that ends before. */
  lemma {:induction false} ValueCut(st: Scan, w: bytes, z: bytes)
    requires ValueLength(st, w + z).Some? && ValueLength(st, w + z).value <= |w|
    ensures ValueLength(st, w) == ValueLength(st, w + z)
    decreases |w|
  {
    if w == [] {
      assert w + z == z;
    } else {
      assert (w + z)[0] == w[0] && (w + z)[1..] == w[1..] + z;
      if ValueLength(st, w + z) != Some(0) { ValueCut(Step(st, w[0]), w[1..], z); }
    }
  }

  /** Within a value the scan stands in the state of its first bytes. */
  lemma {:induction false} ValueRest(st: Scan, c: bytes, v: bytes)
    requires ValueLength(st, c + v).Some? && |c| <= ValueLength(st, c + v).value
    ensures ValueLength(Run(st, c), v) == Some(ValueLength(st, c + v).value - |c|)
    decreases |c|
  {
    if c == [] {
      assert c + v == v;
    } else {
      assert (c + v)[0] == c[0] && (c + v)[1..] == c[1..] + v;
      ValueRest(Step(st, c[0]), c[1..], v);
    }
  }

  // --- No value crosses a line end ---------------------------------------------------------

  /** Tabs, newlines, form feeds, carriage returns and spaces. */
  predicate Unseen(c: byte) { c == 9 || c == 10 || c == 12 || c == 13 || c == 32 }

  predicate AllBlank(s: bytes) { forall k :: 0 <= k < |s| ==> Unseen(s[k]) }

  /** The first visible byte, if any, opens an object. */
  predicate Opens(v: bytes) {
    v == [] || if IsAsciiWs(v[0]) then Opens(v[1..]) else v[0] == LBRACE
  }

  lemma {:induction false} OpensAfterBlank(y: bytes, z: bytes)
    requires AllBlank(y) && Opens(z)
    ensures Opens(y + z)
    decreases |y|
  {
    if y == [] {
      assert y + z == z;
    } else {
      assert (y + z)[1..] == y[1..] + z;
      OpensAfterBlank(y[1..], z);
    }
  }

  /** Inside a container, after a value, nothing opens. */
  lemma {:induction false} NothingOpens(st: Scan, v: bytes)
    requires st.mode.After? && st.stack != [] && Opens(v)
    ensures ValueLength(st, v).None?
    decreases |v|
  {
    if v != [] {
      if IsWs(v[0]) {
        assert Step(st, v[0]) == st;
        NothingOpens(st, v[1..]);
      } else {
        assert Step(st, v[0]) == FAILED;
      }
    }
  }

  /** No string goes past the end of its line. */
  lemma {:induction false} StringEnds(st: Scan, y: bytes, z: bytes)
    requires st.mode.Str? && AllBlank(y) && (z == [] || z[0] == NL)
    ensures ValueLength(st, y + z).None?
    decreases |y|
  {
    var v := y + z;
    if y == [] {
      assert v == z;
      if z != [] { assert Step(st, z[0]) == FAILED; }
    } else {
      assert v[0] == y[0] && v[1..] == y[1..] + z && IsAsciiWs(y[0]);
      if y[0] == SPACE {
        assert Step(st, y[0]) == st;
        StringEnds(st, y[1..], z);
      } else {
        assert Step(st, y[0]) == FAILED;
      }
    }
  }

  /** A value that starts before a `}` at the end of a line ends there or before. */
  lemma NoCrossing(c: bytes, y: bytes, z: bytes)
    requires c != [] && c[|c| - 1] == RBRACE && AllBlank(y) && (z == [] || z[0] == NL) && Opens(z)
    requires ValueLength(INIT, c + (y + z)).Some?
    ensures ValueLength(INIT, c + (y + z)).value <= |c|
  {
    if ValueLength(INIT, c + (y + z)).value > |c| {
      ValueRest(INIT, c, y + z);
      var front := c[..|c| - 1];
      assert c == front + [RBRACE];
      RunSnoc(INIT, front, RBRACE);
      BraceCloses(Run(INIT, front));
      var st := Run(INIT, c);
      if st.mode.Str? {
        StringEnds(st, y, z);
      } else if st != FAILED && st.stack != [] {
        OpensAfterBlank(y, z);
        NothingOpens(st, y + z);
      }
    }
  }

  // --- The records of a scan -----------------------------------------------------------------

  /** The ranges the scan passes from `pos` on, if it succeeds. */
  function Records(b: bytes, pos: nat): (r: Option<seq<Range>>)
    requires pos <= |b|
    ensures r.Some? ==> forall i :: 0 <= i < |r.value| ==> pos <= r.value[i].start < r.value[i].end <= |b|
    decreases |b| - pos
  {
    var e := RecordEnd(b, pos);
    if e.Some? then Prepend([Range(pos, e.value)], Records(b, e.value))
    else if TrimLeft(b[pos..]) == [] then Some([]) else None
  }

  /** Where the next record ends, if there is one. */
  function RecordEnd(b: bytes, pos: nat): (r: Option<nat>)
    requires pos <= |b|
    ensures r.Some? ==> pos < r.value <= |b|
  {
    var rest := TrimLeft(b[pos..]);
    EndAt(|b|, rest, ValueLength(INIT, rest))
  }

  /** Where a value of `n` bytes ends that stands at the start of `rest`, the end of a file of `size`. */
  function EndAt(size: nat, rest: bytes, n: Option<nat>): Option<nat>
    requires |rest| <= size
  {
    if rest == [] || n.None? then None else Some(size - |rest| + n.value)
  }

  function Prepend<T>(rs: seq<T>, more: Option<seq<T>>): Option<seq<T>> {
    if more.None? then None else Some(rs + more.value)
  }

  predicate Within(b: bytes, rs: seq<Range>) {
    forall i :: 0 <= i < |rs| ==> rs[i].start < rs[i].end <= |b|
  }

  /** The table with the ids of the records entered in order. */
  function Enter(b: bytes, rs: seq<Range>, m: map<nat, Range>): map<nat, Range>
    requires Within(b, rs)
  {
    if rs == [] then m else Enter(b, rs[1..], IndexRecord(b, rs[0].start, rs[0].end, m))
  }

  lemma EnterFirst(b: bytes, r: Range, rs: seq<Range>, m: map<nat, Range>)
    requires r.start < r.end <= |b| && Within(b, rs)
    ensures Within(b, [r] + rs) && Enter(b, [r] + rs, m) == Enter(b, rs, IndexRecord(b, r.start, r.end, m))
  {
    assert ([r] + rs)[1..] == rs;
  }

  /** The scan passes one record. */
  lemma ScanOne(b: bytes, pos: nat, m: map<nat, Range>) returns (e: nat, m': map<nat, Range>)
    requires pos <= |b| && RecordEnd(b, pos).Some?
    ensures pos < e <= |b| && m' == IndexRecord(b, pos, e, m) && ScanFrom(b, pos, m) == ScanFrom(b, e, m')
    ensures Records(b, pos) == Prepend([Range(pos, e)], Records(b, e))
  {
    e := RecordEnd(b, pos).value;
    m' := IndexRecord(b, pos, e, m);
  }

  lemma ScanEnds(b: bytes, pos: nat, m: map<nat, Range>)
    requires pos <= |b| && RecordEnd(b, pos).None?
    ensures if TrimLeft(b[pos..]) == [] then ScanFrom(b, pos, m) == Ok(m) && Records(b, pos) == Some([])
            else ScanFrom(b, pos, m).Err? && Records(b, pos).None?
  {
  }

  /** The scan succeeds when there are records, and enters them in order. */
  lemma {:induction false} ScanEnters(b: bytes, pos: nat, m: map<nat, Range>)
    requires pos <= |b|
    ensures ScanFrom(b, pos, m).Ok? <==> Records(b, pos).Some?
    ensures Records(b, pos).Some? ==> ScanFrom(b, pos, m) == Ok(Enter(b, Records(b, pos).value, m))
    decreases |b| - pos
  {
    if RecordEnd(b, pos).None? {
      ScanEnds(b, pos, m);
    } else {
      var e, m' := ScanOne(b, pos, m);
      ScanEnters(b, e, m');
      if Records(b, e).Some? { EnterFirst(b, Range(pos, e), Records(b, e).value, m); }
    }
  }

  /** Only an object shows an id, and it ends with its brace. */
  lemma RecordWithIdEnds(b: bytes, pos: nat)
    requires pos <= |b| && RecordEnd(b, pos).Some? && ReadIdField(b[pos..RecordEnd(b, pos).value]).Some?
    ensures b[RecordEnd(b, pos).value - 1] == RBRACE
  {
    var rest := TrimLeft(b[pos..]);
    var n := ValueLength(INIT, rest).value;
    var e := |b| - |rest| + n;
    RecordIsJson(b, pos, n);
    IdStartsObject(b[pos..e]);
    var w, record, z := ObjectLineSplits(b[pos..e]);
    RestOfRecord(b, pos, e, w, record, z);
    assert ValueLength(INIT, record + (z + b[e..])) == Some(|record|);
    assert z == [];
    assert b[pos..e][|b[pos..e]| - 1] == RBRACE;
  }

  lemma RestOfRecord(b: bytes, pos: nat, e: nat, w: bytes, record: bytes, z: bytes)
    requires pos <= e <= |b| && b[pos..e] == w + record + z && AllWs(w) && record != [] && record[0] == LBRACE
    ensures TrimLeft(b[pos..]) == record + (z + b[e..])
  {
    assert b[pos..] == b[pos..e] + b[e..] == w + (record + (z + b[e..]));
    TrimLeftSkips(w, record + (z + b[e..]));
  }

  /** `l` is a whole line of `b`. */
  ghost predicate LineAt(b: bytes, l: Line) {
    MatchesAt(b, l.start, l.text) && (End(l) == |b| || b[End(l)] == NL)
  }

  function End(l: Line): nat { l.start + |l.text| }

  /** Both scans stand before the same bytes of the line: at `p` in the line, at `pos` in the file. */
  ghost predicate Abreast(b: bytes, l: Line, p: nat, pos: nat) {
    LineAt(b, l) && p <= |l.text| && pos <= l.start + p && AllWs(b[pos..l.start + p])
  }

  lemma LineSlice(b: bytes, l: Line, p: nat, pe: nat)
    requires MatchesAt(b, l.start, l.text) && p <= pe <= |l.text|
    ensures l.text[p..pe] == b[l.start + p..l.start + pe]
  {
    SliceOfSlice(b, l.start, End(l), p, pe);
  }

  lemma TailInFile(b: bytes, l: Line, p: nat, pos: nat)
    requires MatchesAt(b, l.start, l.text) && p <= |l.text| && pos <= l.start + p
    ensures l.text[p..] == b[l.start + p..End(l)]
    ensures b[pos..] == b[pos..l.start + p] + (l.text[p..] + b[End(l)..])
  {
    LineSlice(b, l, p, |l.text|);
    assert l.text[p..|l.text|] == l.text[p..];
  }

  lemma TrimmedRest(gap: bytes, tail: bytes, after: bytes)
    requires AllWs(gap) && TrimLeft(tail) != []
    ensures TrimLeft(gap + (tail + after)) == TrimLeft(tail) + after
  {
    TrimLeftSkips(gap, tail + after);
    TrimLeftAppend(tail, after);
  }

  lemma SameRest(b: bytes, l: Line, p: nat, pos: nat)
    requires Abreast(b, l, p, pos)
    ensures var rest := TrimLeft(l.text[p..]);
      if rest == [] then AllWs(b[pos..End(l)]) else TrimLeft(b[pos..]) == rest + b[End(l)..]
  {
    TailInFile(b, l, p, pos);
    if TrimLeft(l.text[p..]) == [] {
      TrimLeftBlank(l.text[p..]);
      AllWsConcat(b, pos, l.start + p, End(l));
    } else {
      TrimmedRest(b[pos..l.start + p], l.text[p..], b[End(l)..]);
    }
  }

  lemma EndOfValue(b: bytes, pos: nat, rest: bytes, n: nat)
    requires pos <= |b| && TrimLeft(b[pos..]) == rest != [] && ValueLength(INIT, rest) == Some(n)
    ensures RecordEnd(b, pos) == Some(|b| - |rest| + n)
  {
    assert RecordEnd(b, pos) == EndAt(|b|, rest, Some(n));
  }

  /** The next record of the line is the next one of the file. */
  lemma SameRecordEnd(b: bytes, l: Line, p: nat, pos: nat)
    requires Abreast(b, l, p, pos) && RecordEnd(l.text, p).Some?
    ensures RecordEnd(b, pos) == Some(l.start + RecordEnd(l.text, p).value)
  {
    var rest, after, pe := TrimLeft(l.text[p..]), b[End(l)..], RecordEnd(l.text, p).value;
    SameRest(b, l, p, pos);
    var n: nat := ValueLength(INIT, rest).value;
    EndOfValue(l.text, p, rest, n);
    ValueKeeps(INIT, rest, after);
    EndOfValue(b, pos, rest + after, n);
  }

  /** And shows the same id. */
  lemma SameId(b: bytes, l: Line, p: nat, pos: nat, pe: nat)
    requires Abreast(b, l, p, pos) && p <= pe <= |l.text|
    ensures ReadIdField(b[pos..l.start + pe]) == ReadIdField(l.text[p..pe])
  {
    LineSlice(b, l, p, pe);
    assert b[pos..l.start + pe] == b[pos..l.start + p] + b[l.start + p..l.start + pe];
    ReadIdSkipsWs(b[pos..l.start + p], b[l.start + p..l.start + pe]);
  }

  /** `r` covers a record that ends in the line. */
  predicate Placed(b: bytes, l: Line, r: Range) {
    r.start < r.end && l.start < r.end <= End(l) <= |b| && b[r.end - 1] == RBRACE
  }

  /** `r` is what `own` is in the line, white space before it apart; if it shows an id, so does `own`, and
      it ends in the line with a brace. */
  ghost predicate AlikeOne(b: bytes, l: Line, r: Range, own: Range) {
    && own.start < own.end <= |l.text| && r.start <= l.start + own.start && r.end == l.start + own.end <= |b|
    && AllWs(b[r.start..l.start + own.start])
    && ReadIdField(b[r.start..r.end]) == ReadIdField(l.text[own.start..own.end])
    && (ReadIdField(l.text[own.start..own.end]).Some? ==> Placed(b, l, r))
  }

  ghost predicate Alike(b: bytes, l: Line, rs: seq<Range>, own: seq<Range>) {
    |rs| == |own| && forall i :: 0 <= i < |rs| ==> AlikeOne(b, l, rs[i], own[i])
  }

  lemma RecordsAlike(b: bytes, l: Line, p: nat, pos: nat, pe: nat, e: nat)
    requires Abreast(b, l, p, pos) && p < pe <= |l.text| && RecordEnd(b, pos) == Some(e) && e == l.start + pe
    ensures AlikeOne(b, l, Range(pos, e), Range(p, pe))
  {
    SameId(b, l, p, pos, pe);
    PlacedWhenShown(b, l, pos, e);
  }

  lemma PlacedWhenShown(b: bytes, l: Line, pos: nat, e: nat)
    requires pos <= |b| && RecordEnd(b, pos) == Some(e) && l.start < e <= End(l) <= |b|
    ensures ReadIdField(b[pos..e]).Some? ==> Placed(b, l, Range(pos, e))
  {
    if ReadIdField(b[pos..e]).Some? { RecordWithIdEnds(b, pos); }
  }

  lemma PrependTwice<T>(a: seq<T>, c: seq<T>, more: Option<seq<T>>)
    ensures Prepend(a, Prepend(c, more)) == Prepend(a + c, more)
  {
    if more.Some? { assert a + (c + more.value) == a + c + more.value; }
  }

  lemma PrependNothing<T>(more: Option<seq<T>>)
    ensures Prepend([], more) == more
  {
    if more.Some? { assert [] + more.value == more.value; }
  }

  lemma AlikeMore(b: bytes, l: Line, r: Range, own: Range, rs: seq<Range>, owns: seq<Range>)
    requires AlikeOne(b, l, r, own) && Alike(b, l, rs, owns)
    ensures Alike(b, l, [r] + rs, [own] + owns)
  {
  }

  lemma FirstRecord(b: bytes, pos: nat, rs: seq<Range>)
    requires pos <= |b| && Records(b, pos) == Some(rs) && rs != []
    ensures RecordEnd(b, pos) == Some(rs[0].end) && rs[0].start == pos && Records(b, rs[0].end) == Some(rs[1..])
  {
    var e := RecordEnd(b, pos).value;
    assert ([Range(pos, e)] + Records(b, e).value)[1..] == Records(b, e).value;
  }

  /** Both scans pass the next record of the line. */
  lemma OneRecord(b: bytes, l: Line, p: nat, pos: nat, own: seq<Range>) returns (e: nat)
    requires Abreast(b, l, p, pos) && Records(l.text, p) == Some(own) && own != []
    ensures p < own[0].end <= |l.text| && Abreast(b, l, own[0].end, e) && e == l.start + own[0].end
    ensures own[0].start == p && Records(l.text, own[0].end) == Some(own[1..])
    ensures RecordEnd(b, pos) == Some(e)
  {
    FirstRecord(l.text, p, own);
    SameRecordEnd(b, l, p, pos);
    e := l.start + own[0].end;
  }

  lemma FileRecord(b: bytes, pos: nat, e: nat)
    requires pos <= |b| && RecordEnd(b, pos) == Some(e)
    ensures Records(b, pos) == Prepend([Range(pos, e)], Records(b, e))
  {
  }

  lemma LineDone(b: bytes, l: Line, p: nat, pos: nat)
    requires Abreast(b, l, p, pos) && Records(l.text, p) == Some([])
    ensures pos <= End(l) && AllWs(b[pos..End(l)])
  {
    SameRest(b, l, p, pos);
  }

  /** A line that scans on its own is scanned in the file, record by record. */
  lemma {:induction false} ScanLine(b: bytes, l: Line, p: nat, pos: nat, own: seq<Range>)
    returns (rs: seq<Range>, pos': nat)
    requires Abreast(b, l, p, pos) && Records(l.text, p) == Some(own)
    ensures pos' <= End(l) && AllWs(b[pos'..End(l)])
    ensures Records(b, pos) == Prepend(rs, Records(b, pos')) && Alike(b, l, rs, own)
    decreases |own|
  {
    if own == [] {
      LineDone(b, l, p, pos);
      PrependNothing(Records(b, pos));
      rs, pos' := [], pos;
    } else {
      var e := OneRecord(b, l, p, pos, own);
      FileRecord(b, pos, e);
      RecordsAlike(b, l, p, pos, own[0].end, e);
      rs, pos' := ScanLine(b, l, own[0].end, e, own[1..]);
      PrependTwice([Range(pos, e)], rs, Records(b, pos'));
      AlikeMore(b, l, Range(pos, e), own[0], rs, own[1..]);
      rs := [Range(pos, e)] + rs;
    }
  }

  // --- And back ------------------------------------------------------------------------------

  /** A line of a complete index, and what follows it: no value crosses its end. */
  ghost predicate Closed(b: bytes, l: Line) {
    LineAt(b, l) && Opens(b[End(l)..]) && (LastNonWs(l.text).None? || LastNonWs(l.text) == Some(RBRACE))
  }

  /** Where the white space at the end of a line starts, just after its last visible byte. */
  lemma {:induction false} LastVisible(s: bytes) returns (k: nat)
    ensures k <= |s| && AllBlank(s[k..])
    ensures LastNonWs(s).None? ==> k == 0
    ensures LastNonWs(s).Some? ==> k > 0 && s[k - 1] == LastNonWs(s).value && !Unseen(s[k - 1])
  {
    k := |s|;
    if s != [] && IsAsciiWs(s[|s| - 1]) {
      var front := s[..|s| - 1];
      k := LastVisible(front);
      assert s[k..] == front[k..] + [s[|s| - 1]];
    }
  }

  lemma Suffix(text: bytes, p: nat) returns (q: nat)
    requires p <= |text|
    ensures p <= q <= |text| && TrimLeft(text[p..]) == text[q..]
  {
    var w := TrimLeftSplits(text[p..]);
    q := p + |w|;
    assert text[q..] == text[p..][|w|..];
  }

  /** What is left of such a line is blank or has the line's last brace. */
  lemma RestOfLine(text: bytes, p: nat) returns (c: bytes, y: bytes)
    requires p <= |text| && (LastNonWs(text).None? || LastNonWs(text) == Some(RBRACE))
    ensures TrimLeft(text[p..]) == c + y && AllBlank(y) && (c != [] ==> c[|c| - 1] == RBRACE)
  {
    var q := Suffix(text, p);
    var k := LastVisible(text);
    if k <= q {
      c, y := [], text[q..];
      assert y == text[k..][q - k..];
    } else {
      c, y := text[q..k], text[k..];
      assert c + y == text[q..] && c[|c| - 1] == text[k - 1];
    }
  }

  lemma RestCloses(c: bytes, y: bytes, z: bytes)
    requires AllBlank(y) && (c != [] ==> c[|c| - 1] == RBRACE) && c + y != [] && !IsWs((c + y)[0])
    requires (z == [] || z[0] == NL) && Opens(z) && ValueLength(INIT, (c + y) + z).Some?
    ensures ValueLength(INIT, c + y).Some?
  {
    if c == [] {
      assert c + y == y;
      FormFeedIsNoValue(y + z);
    } else {
      Associate(c, y, z);
      NoCrossing(c, y, z);
      ValueCut(INIT, c + y, z);
    }
  }

  lemma Associate(c: bytes, y: bytes, z: bytes)
    ensures (c + y) + z == c + (y + z)
  {
  }

  lemma FormFeedIsNoValue(v: bytes)
    requires v != [] && v[0] == FF
    ensures ValueLength(INIT, v).None?
  {
    FormFeedFails(INIT);
    assert ValueLength(FAILED, v[1..]).None?;
  }

  /** When the file's scan reads on from a place in such a line, so does the line's own. */
  lemma RecordOfLine(b: bytes, l: Line, p: nat, pos: nat)
    requires Abreast(b, l, p, pos) && Closed(b, l) && TrimLeft(l.text[p..]) != [] && RecordEnd(b, pos).Some?
    ensures RecordEnd(l.text, p).Some?
  {
    SameRest(b, l, p, pos);
    ValueOfLine(l.text, p, b[End(l)..]);
  }

  lemma ValueOfLine(text: bytes, p: nat, z: bytes)
    requires p <= |text| && (LastNonWs(text).None? || LastNonWs(text) == Some(RBRACE)) && TrimLeft(text[p..]) != []
    requires (z == [] || z[0] == NL) && Opens(z) && ValueLength(INIT, TrimLeft(text[p..]) + z).Some?
    ensures ValueLength(INIT, TrimLeft(text[p..])).Some?
  {
    var c, y := RestOfLine(text, p);
    var w := TrimLeftSplits(text[p..]);
    RestCloses(c, y, z);
  }

  lemma NextOfLine(b: bytes, l: Line, p: nat, pos: nat) returns (pe: nat, e: nat)
    requires Abreast(b, l, p, pos) && RecordEnd(l.text, p).Some? && Records(b, pos).Some?
    ensures p < pe && Abreast(b, l, pe, e) && Records(b, e).Some?
    ensures Records(l.text, pe).Some? ==> Records(l.text, p).Some?
  {
    SameRecordEnd(b, l, p, pos);
    pe := RecordEnd(l.text, p).value;
    e := l.start + pe;
  }

  lemma NotAtTheEnd(b: bytes, l: Line, p: nat, pos: nat)
    requires Abreast(b, l, p, pos) && TrimLeft(l.text[p..]) != [] && Records(b, pos).Some?
    ensures RecordEnd(b, pos).Some?
  {
    SameRest(b, l, p, pos);
  }

  /** So a line scans on its own when the file's scan succeeds from there. */
  lemma {:induction false} LineScansAlone(b: bytes, l: Line, p: nat, pos: nat)
    requires Abreast(b, l, p, pos) && Closed(b, l) && Records(b, pos).Some?
    ensures Records(l.text, p).Some?
    decreases |l.text| - p
  {
    if TrimLeft(l.text[p..]) != [] {
      NotAtTheEnd(b, l, p, pos);
      RecordOfLine(b, l, p, pos);
      var pe, e := NextOfLine(b, l, p, pos);
      LineScansAlone(b, l, pe, e);
    }
  }
}
