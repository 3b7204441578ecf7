/** The scan of a file, by the grammar: which files it accepts, and the records it finds in them. */
module GrammarStream {
  import opened Bytes
  import opened Wrappers
  import opened IndexingWriter
  import opened Json
  import opened JsonStream
  import opened IndexLimits
  import opened LineScan
  import opened Grammar
  import opened GrammarText
  import opened GrammarParse

  function PrintAll(items: seq<Item>): bytes {
    if items == [] then [] else PrintItem(items[0]) + PrintAll(items[1..])
  }

  /** Values one after the other; of two that do not show where the first ends, white space must. */
  ghost predicate ValidStream(items: seq<Item>) {
    && (forall i :: 0 <= i < |items| ==> ValidItem(items[i]))
    && forall i :: 0 <= i < |items| - 1 ==> Apart(items[i], items[i + 1])
  }

  predicate Apart(i: Item, next: Item) {
    Delimited(i.value) || i.after != [] || next.before != [] || Delimited(next.value)
  }

  // --- First and last bytes --------------------------------------------------------------------

  /** What a value starts with: a delimiter exactly when it is delimited. */
  lemma FirstByte(t: Tree)
    requires ValidTree(t)
    ensures PrintTree(t) != [] && !IsWs(PrintTree(t)[0]) && (IsTerminator(PrintTree(t)[0]) <==> Delimited(t))
  {
    if t.Num? {
      if t.n.minus { assert PrintNumber(t.n)[0] == 45; } else { assert PrintNumber(t.n)[0] == t.n.whole[0]; }
    }
  }

  /** It ends with a digit. */
  predicate EndsInDigit(s: bytes) { s != [] && IsDigit(s[|s| - 1]) }

  lemma EndOfBoth(a: bytes, b: bytes)
    ensures EndsInDigit(b) ==> EndsInDigit(a + b)
    ensures b == [] && EndsInDigit(a) ==> EndsInDigit(a + b)
  {
    if b == [] { assert a + b == a; }
  }

  lemma NumberLastByte(n: Number)
    requires ValidNumber(n)
    ensures EndsInDigit(PrintNumber(n))
  {
    var f, e := PrintFraction(n.fraction), PrintExponent(n.exponent);
    if n.exponent.Some? {
      EndOfBoth(n.exponent.value.sign, n.exponent.value.digits);
      EndOfBoth([n.exponent.value.mark], n.exponent.value.sign + n.exponent.value.digits);
    }
    if n.fraction.Some? { EndOfBoth([46], n.fraction.value); }
    EndOfBoth(f, e);
    EndOfBoth(n.whole, f + e);
    EndOfBoth(if n.minus then [45] else [], n.whole + (f + e));
  }

  lemma LastByte(t: Tree)
    requires ValidTree(t)
    ensures PrintTree(t) != [] && !IsWs(PrintTree(t)[|PrintTree(t)| - 1])
  {
    if t.Num? { NumberLastByte(t.n); }
  }

  // --- Where a value ends ------------------------------------------------------------------------

  /** A whole value that nothing prolongs is followed by white space alone. */
  lemma StopsAtWs(st: Scan, u: bytes)
    requires Accepting(st) && u != [] && (st.mode.After? || Prolong(st.mode, u[0]).None?) && Accepting(Run(st, u))
    ensures AllWs(u)
  {
    if !IsWs(u[0]) { RunFailed(u[1..]); }
    assert Step(st, u[0]) == Scan(After, []);
    AfterRunIsBlank(u[1..]);
    assert u == [u[0]] + u[1..];
  }

  /** A text that ends with its value, and shows it or is followed by what shows it, is one value. */
  lemma {:induction false} LengthOf(st: Scan, u: bytes, z: bytes)
    requires Accepting(Run(st, u)) && (u != [] ==> !IsWs(u[|u| - 1]))
    requires Run(st, u).mode.After? || z == [] || IsTerminator(z[0])
    ensures ValueLength(st, u + z) == Some(|u|)
    decreases |u|
  {
    if u == [] {
      assert u + z == z;
    } else {
      if st.mode.Bad? { RunFailed(u[1..]); }
      if Accepting(st) && (st.mode.After? || Prolong(st.mode, u[0]).None?) { StopsAtWs(st, u); }
      LengthOf(Step(st, u[0]), u[1..], z);
      LengthStep(st, u, z);
    }
  }

  lemma LengthStep(st: Scan, u: bytes, z: bytes)
    requires u != [] && !st.mode.Bad? && !(Accepting(st) && (st.mode.After? || Prolong(st.mode, u[0]).None?))
    requires ValueLength(Step(st, u[0]), u[1..] + z) == Some(|u| - 1)
    ensures ValueLength(st, u + z) == Some(|u|)
  {
    assert (u + z)[0] == u[0] && (u + z)[1..] == u[1..] + z;
  }

  /** Where a value ends that does not show its end, the text ends or something shows it. */
  lemma {:induction false} EndShown(st: Scan, w: bytes)
    requires ValueLength(st, w).Some?
    ensures var n := ValueLength(st, w).value;
      Run(st, w[..n]).mode.After? || n == |w| || IsTerminator(w[n])
    decreases |w|
  {
    var n := ValueLength(st, w).value;
    if n > 0 {
      EndShown(Step(st, w[0]), w[1..]);
      assert w[..n][1..] == w[1..][..n - 1];
    }
  }

  // --- The records of a stream -------------------------------------------------------------------

  /** The values' ranges when the first is printed at `at` and its record starts at `pos`: each record
      starts where the value before ends. */
  function Ranges(pos: nat, at: nat, items: seq<Item>): (rs: seq<Range>)
    ensures |rs| == |items|
    decreases |items|
  {
    if items == [] then []
    else
      var end := at + |items[0].before| + |PrintTree(items[0].value)|;
      [Range(pos, end)] + Ranges(end, at + |PrintItem(items[0])|, items[1..])
  }

  /** The scan stands at `pos`, and only white space comes before the items at `at`. */
  ghost predicate StandsBefore(b: bytes, pos: nat, at: nat, items: seq<Item>, blank: bytes) {
    pos <= at <= |b| && AllWs(b[pos..at]) && b[at..] == PrintAll(items) + blank && Blank(blank)
  }

  /** What follows a value and what belongs to it. */
  lemma {:induction false} FirstSplits(items: seq<Item>, blank: bytes) returns (rest: bytes)
    requires items != []
    ensures rest == items[0].after + (PrintAll(items[1..]) + blank)
    ensures PrintAll(items) + blank == items[0].before + (PrintTree(items[0].value) + rest)
  {
    rest := items[0].after + (PrintAll(items[1..]) + blank);
  }

  /** What follows shows where the value ends, if it does not. */
  lemma {:induction false} FollowedBy(items: seq<Item>, blank: bytes, rest: bytes)
    requires ValidStream(items) && items != [] && Blank(blank)
    requires rest == items[0].after + (PrintAll(items[1..]) + blank)
    ensures Delimited(items[0].value) || rest == [] || IsTerminator(rest[0])
  {
    var after, more := items[0].after, items[1..];
    assert ValidItem(items[0]);
    if after != [] {
      assert rest[0] == after[0];
    } else if more != [] {
      assert Apart(items[0], items[1]) && more[0] == items[1] && ValidItem(items[1]);
      var next := FirstSplits(more, blank);
      FirstByte(items[1].value);
      FirstOf(items[1].before, PrintTree(items[1].value), next);
      assert rest == PrintAll(more) + blank;
    } else {
      assert rest == blank;
    }
  }

  lemma FirstOf(before: bytes, value: bytes, next: bytes)
    requires value != []
    ensures var s := before + (value + next); s != [] && s[0] == if before != [] then before[0] else value[0]
  {
  }

  /** The scan passes the first item. */
  lemma {:induction false} FirstRecordEnd(b: bytes, pos: nat, at: nat, items: seq<Item>, blank: bytes)
    requires StandsBefore(b, pos, at, items, blank) && ValidStream(items) && items != []
    ensures RecordEnd(b, pos) == Some(at + |items[0].before| + |PrintTree(items[0].value)|)
  {
    var before, value := items[0].before, PrintTree(items[0].value);
    assert ValidItem(items[0]);
    var rest := FirstSplits(items, blank);
    FollowedBy(items, blank, rest);
    PrintedTree(items[0].value);
    FirstByte(items[0].value);
    LastByte(items[0].value);
    LengthOf(INIT, value, rest);
    BlankIsWs(before);
    TrimTo(b, pos, at, before, value + rest);
    EndOfValue(b, pos, value + rest, |value|);
  }

  lemma TrimTo(b: bytes, pos: nat, at: nat, before: bytes, x: bytes)
    requires pos <= at <= |b| && AllWs(b[pos..at]) && AllWs(before) && b[at..] == before + x
    requires x != [] && !IsWs(x[0])
    ensures TrimLeft(b[pos..]) == x && |b| - |x| == at + |before|
  {
    assert b[pos..] == b[pos..at] + (before + x);
    TrimLeftSkips(b[pos..at], before + x);
    TrimLeftSkips(before, x);
  }

  lemma {:induction false} NextStands(b: bytes, pos: nat, at: nat, items: seq<Item>, blank: bytes)
    returns (end: nat, next: nat)
    requires StandsBefore(b, pos, at, items, blank) && ValidStream(items) && items != []
    ensures end == at + |items[0].before| + |PrintTree(items[0].value)| && next == at + |PrintItem(items[0])|
    ensures StandsBefore(b, end, next, items[1..], blank)
  {
    var i := items[0];
    assert ValidItem(i);
    end, next := at + |i.before| + |PrintTree(i.value)|, at + |PrintItem(i)|;
    var rest := FirstSplits(items, blank);
    BlankIsWs(i.after);
    TailsOf(b, at, i.before + PrintTree(i.value), i.after, PrintAll(items[1..]) + blank);
  }

  lemma {:induction false} TailsOf(b: bytes, at: nat, head: bytes, after: bytes, rest: bytes)
    requires at <= |b| && b[at..] == head + after + rest
    ensures at + |head| + |after| <= |b|
    ensures b[at + |head|..at + |head| + |after|] == after && b[at + |head| + |after|..] == rest
  {
    var t := b[at..];
    assert t[|head|..|head| + |after|] == after && t[|head| + |after|..] == rest;
    assert b[at + |head|..at + |head| + |after|] == t[|head|..|head| + |after|];
    assert b[at + |head| + |after|..] == t[|head| + |after|..];
  }

  lemma StreamTail(items: seq<Item>)
    requires ValidStream(items) && items != []
    ensures ValidStream(items[1..])
  {
    var t := items[1..];
    forall i | 0 <= i < |t| - 1 ensures Apart(t[i], t[i + 1]) { assert Apart(items[i + 1], items[i + 2]); }
  }

  lemma StreamEnds(b: bytes, pos: nat, at: nat, blank: bytes)
    requires StandsBefore(b, pos, at, [], blank)
    ensures Records(b, pos) == Some([])
  {
    BlankIsWs(blank);
    assert b[pos..] == b[pos..at] + b[at..];
    TrimLeftBlank(b[pos..]);
  }

  lemma {:induction false} RangesFirst(pos: nat, at: nat, items: seq<Item>, end: nat, next: nat)
    requires items != [] && end == at + |items[0].before| + |PrintTree(items[0].value)|
    requires next == at + |PrintItem(items[0])|
    ensures Ranges(pos, at, items) == [Range(pos, end)] + Ranges(end, next, items[1..])
  {
  }

  /** The scan passes the first item and stands before the next. */
  lemma {:induction false} PassFirst(b: bytes, pos: nat, at: nat, items: seq<Item>, blank: bytes)
    returns (end: nat, next: nat)
    requires StandsBefore(b, pos, at, items, blank) && ValidStream(items) && items != []
    ensures StandsBefore(b, end, next, items[1..], blank) && RecordEnd(b, pos) == Some(end)
    ensures Ranges(pos, at, items) == [Range(pos, end)] + Ranges(end, next, items[1..])
  {
    FirstRecordEnd(b, pos, at, items, blank);
    end, next := NextStands(b, pos, at, items, blank);
    RangesFirst(pos, at, items, end, next);
  }

  /** The scan of printed values finds them, one range for each. */
  lemma {:induction false} StreamRecords(b: bytes, pos: nat, at: nat, items: seq<Item>, blank: bytes)
    requires StandsBefore(b, pos, at, items, blank) && ValidStream(items)
    ensures Records(b, pos) == Some(Ranges(pos, at, items))
    decreases |items|
  {
    if items == [] {
      StreamEnds(b, pos, at, blank);
    } else {
      var end, next := PassFirst(b, pos, at, items, blank);
      StreamTail(items);
      StreamRecords(b, end, next, items[1..], blank);
      FileRecord(b, pos, end);
    }
  }

  /** The range of a value is white space and its print. */
  lemma {:induction false} RangesCover(b: bytes, pos: nat, at: nat, items: seq<Item>, blank: bytes, k: nat)
    returns (w: bytes)
    requires StandsBefore(b, pos, at, items, blank) && ValidStream(items) && k < |items|
    ensures AllWs(w)
    ensures var r := Ranges(pos, at, items)[k];
      r.start < r.end <= |b| && b[r.start..r.end] == w + PrintTree(items[k].value)
    decreases k
  {
    var end, next := PassFirst(b, pos, at, items, blank);
    if k == 0 {
      var rest := FirstSplits(items, blank);
      w := b[pos..at] + items[0].before;
      assert ValidItem(items[0]);
      BlankIsWs(items[0].before);
      HeadOf(b, pos, at, items[0].before, PrintTree(items[0].value), rest);
    } else {
      StreamTail(items);
      w := RangesCover(b, end, next, items[1..], blank, k - 1);
    }
  }

  lemma HeadOf(b: bytes, pos: nat, at: nat, before: bytes, value: bytes, rest: bytes)
    requires pos <= at <= |b| && b[at..] == before + (value + rest)
    ensures var end := at + |before| + |value|; end <= |b| && b[pos..end] == b[pos..at] + before + value
  {
    var end := at + |before| + |value|;
    assert b[at..end] == b[at..][..|before| + |value|] == before + value;
    assert b[pos..end] == b[pos..at] + b[at..end];
  }

  // --- And back --------------------------------------------------------------------------------

  lemma RunSkipsWs(w: bytes, v: bytes)
    requires AllWs(w)
    ensures Run(INIT, w + v) == Run(INIT, v)
  {
    RunConcat(INIT, w, v);
    RunWs(INIT, w);
  }

  lemma RecordParts(b: bytes, pos: nat, e: nat) returns (w: bytes, rest: bytes, n: nat)
    requires pos <= |b| && RecordEnd(b, pos) == Some(e)
    ensures AllWs(w) && ValueLength(INIT, rest) == Some(n) && n <= |rest| && rest == TrimLeft(b[pos..])
    ensures b[pos..e] == w + rest[..n] && e == |b| - |rest| + n && rest == b[|b| - |rest|..]
  {
    w := TrimLeftSplits(b[pos..]);
    rest := TrimLeft(b[pos..]);
    n := ValueLength(INIT, rest).value;
    assert b[pos..] == w + rest;
    assert b[pos..e] == b[pos..][..|w| + n];
  }

  /** A record is a JSON text, and when it does not show its end, what follows does. */
  lemma RunOfRecord(b: bytes, pos: nat, e: nat)
    requires pos <= |b| && RecordEnd(b, pos) == Some(e)
    ensures IsJson(b[pos..e]) && (Run(INIT, b[pos..e]).mode.After? || e == |b| || IsTerminator(b[e]))
  {
    var w, rest, n := RecordParts(b, pos, e);
    RecordIsJson(b, pos, n);
    EndShown(INIT, rest);
    RunSkipsWs(w, rest[..n]);
    assert n < |rest| ==> rest[n] == b[e];
  }

  /** A record is a printed value, and when it does not show its end, what follows does. */
  lemma RecordIsPrinted(b: bytes, pos: nat, e: nat) returns (i: Item)
    requires pos <= |b| && RecordEnd(b, pos) == Some(e)
    ensures ValidItem(i) && PrintItem(i) == b[pos..e]
    ensures Delimited(i.value) || i.after != [] || e == |b| || IsTerminator(b[e])
  {
    RunOfRecord(b, pos, e);
    i := Parse(b[pos..e]);
    if i.after == [] {
      PrintedTree(i.value);
      BlankIsWs(i.before);
      assert PrintItem(i) == i.before + PrintTree(i.value);
      RunConcat(INIT, i.before, PrintTree(i.value));
      RunWs(INIT, i.before);
    }
  }

  lemma {:induction false} StreamCons(i: Item, items: seq<Item>, blank: bytes)
    requires ValidItem(i) && ValidStream(items) && Blank(blank)
    requires var s := PrintAll(items) + blank; Delimited(i.value) || i.after != [] || s == [] || IsTerminator(s[0])
    ensures ValidStream([i] + items) && PrintAll([i] + items) == PrintItem(i) + PrintAll(items)
  {
    var all := [i] + items;
    assert all[1..] == items;
    if items != [] {
      var next := FirstSplits(items, blank);
      assert ValidItem(items[0]);
      FirstByte(items[0].value);
      FirstOf(items[0].before, PrintTree(items[0].value), next);
      assert Apart(i, items[0]);
    }
    forall k | 0 <= k < |all| - 1 ensures Apart(all[k], all[k + 1]) {
      if k > 0 { assert Apart(items[k - 1], items[k]); }
    }
  }

  lemma RecordsGoOn(b: bytes, pos: nat, e: nat)
    requires pos <= |b| && RecordEnd(b, pos) == Some(e) && Records(b, pos).Some?
    ensures Records(b, e).Some?
  {
  }

  lemma {:induction false} OneMore(b: bytes, pos: nat, e: nat, i: Item, items: seq<Item>, blank: bytes)
    requires pos <= e <= |b| && ValidItem(i) && PrintItem(i) == b[pos..e]
    requires ValidStream(items) && Blank(blank) && b[e..] == PrintAll(items) + blank
    requires Delimited(i.value) || i.after != [] || e == |b| || IsTerminator(b[e])
    ensures ValidStream([i] + items) && b[pos..] == PrintAll([i] + items) + blank
  {
    assert e < |b| ==> b[e..][0] == b[e];
    StreamCons(i, items, blank);
    assert b[pos..] == b[pos..e] + b[e..];
  }

  /** What the scan accepts is printed values. */
  lemma {:induction false} RecordsArePrinted(b: bytes, pos: nat) returns (items: seq<Item>, blank: bytes)
    requires pos <= |b| && Records(b, pos).Some?
    ensures ValidStream(items) && Blank(blank) && b[pos..] == PrintAll(items) + blank
    decreases |b| - pos
  {
    var end := RecordEnd(b, pos);
    if end.None? {
      items, blank := [], b[pos..];
      TrimLeftBlank(blank);
      BlankIsWs(blank);
    } else {
      var e := end.value;
      var i := RecordIsPrinted(b, pos, e);
      RecordsGoOn(b, pos, e);
      items, blank := RecordsArePrinted(b, e);
      OneMore(b, pos, e, i, items, blank);
      items := [i] + items;
    }
  }

  /** The file holds printed values, and white space after the last. */
  ghost predicate IsStream(b: bytes) {
    exists items, blank :: StandsBefore(b, 0, 0, items, blank) && ValidStream(items)
  }

  /** The scan of a file succeeds exactly when the file is a stream of values. */
  lemma ScansExactlyWhen(b: bytes)
    ensures ScanFrom(b, 0, map[]).Ok? <==> IsStream(b)
  {
    ScanEnters(b, 0, map[]);
    assert b[0..] == b && b[0..0] == [];
    if IsStream(b) {
      var items, blank :| StandsBefore(b, 0, 0, items, blank) && ValidStream(items);
      StreamRecords(b, 0, 0, items, blank);
    }
    if Records(b, 0).Some? {
      var items, blank := RecordsArePrinted(b, 0);
      assert StandsBefore(b, 0, 0, items, blank);
    }
  }

  /** Every file of printed objects is scanned, with one range for each object, the last of an id in the
      table. */
  lemma {:induction false} ObjectsAreScanned(objects: seq<Item>)
    requires forall i :: 0 <= i < |objects| ==> ValidItem(objects[i]) && objects[i].value.Object?
    ensures var b, rs := PrintAll(objects), Ranges(0, 0, objects);
      Records(b, 0) == Some(rs) && Within(b, rs) && ScanFrom(b, 0, map[]) == Ok(Enter(b, rs, map[]))
  {
    var b := PrintAll(objects);
    assert ValidStream(objects);
    assert b[0..] == b == b + [] && b[0..0] == [];
    assert StandsBefore(b, 0, 0, objects, []);
    StreamRecords(b, 0, 0, objects, []);
    ScanEnters(b, 0, map[]);
  }

  // --- One record, exactly -----------------------------------------------------------------------

  /** What may follow a number or a literal: white space, a quote, a bracket or a brace, a comma or a colon. */
  predicate MayFollow(c: byte) {
    || c == 32 || c == 9 || c == 10 || c == 13 || c == 34 || c == 91 || c == 93 || c == 123 || c == 125
    || c == 44 || c == 58
  }

  /** White space and a value, up to `e`, which the value or the byte at `e` shows. */
  ghost predicate IsRecord(b: bytes, pos: nat, e: nat, i: Item) {
    && pos < e <= |b| && ValidItem(i) && i.after == [] && PrintItem(i) == b[pos..e]
    && (Delimited(i.value) || e == |b| || MayFollow(b[e]))
  }

  lemma LastStep(st: Scan, c: byte, w: bytes)
    requires ValueLength(st, [c] + w) == Some(1)
    ensures !IsWs(c)
  {
    var v := [c] + w;
    assert v[0] == c && v[1..] == w;
    assert ValueLength(Step(st, c), w) == Some(0);
  }

  /** A value does not end with white space. */
  lemma {:induction false} ValueLastByte(st: Scan, w: bytes)
    requires ValueLength(st, w).Some? && ValueLength(st, w).value > 0
    ensures !IsWs(w[ValueLength(st, w).value - 1])
    decreases |w|
  {
    var n := ValueLength(st, w).value;
    if n == 1 {
      assert w == [w[0]] + w[1..];
      LastStep(st, w[0], w[1..]);
    } else {
      ValueLastByte(Step(st, w[0]), w[1..]);
    }
  }

  lemma RecordLastByte(b: bytes, pos: nat, e: nat)
    requires pos <= |b| && RecordEnd(b, pos) == Some(e)
    ensures pos < e <= |b| && !IsWs(b[e - 1])
  {
    var w, rest, n := RecordParts(b, pos, e);
    ValueLastByte(INIT, rest);
    assert rest[n - 1] == b[e - 1];
  }

  lemma TrailingWs(i: Item)
    requires ValidItem(i) && i.after != []
    ensures var s := PrintItem(i); s != [] && IsWs(s[|s| - 1])
  {
    BlankIsWs(i.after);
    var s := PrintItem(i);
    assert s[|s| - 1] == i.after[|i.after| - 1];
  }

  lemma NothingAfter(i: Item, s: bytes)
    requires ValidItem(i) && PrintItem(i) == s && s != [] && !IsWs(s[|s| - 1])
    ensures i.after == []
  {
    if i.after != [] { TrailingWs(i); }
  }

  lemma RecordIsThere(b: bytes, pos: nat, e: nat, i: Item)
    requires IsRecord(b, pos, e, i)
    ensures RecordEnd(b, pos) == Some(e)
  {
    var value := PrintTree(i.value);
    PrintedTree(i.value);
    FirstByte(i.value);
    LastByte(i.value);
    LengthOf(INIT, value, b[e..]);
    BlankIsWs(i.before);
    assert PrintItem(i) == i.before + value;
    assert b[pos..] == b[pos..e] + b[e..] == i.before + (value + b[e..]);
    TrimLeftSkips(i.before, value + b[e..]);
    EndOfValue(b, pos, value + b[e..], |value|);
  }

  /** The scan passes a record up to `e` exactly when it is one. */
  lemma RecordExactlyWhen(b: bytes, pos: nat, e: nat)
    requires pos <= |b|
    ensures RecordEnd(b, pos) == Some(e) <==> exists i :: IsRecord(b, pos, e, i)
  {
    if RecordEnd(b, pos) == Some(e) {
      var i := RecordIsPrinted(b, pos, e);
      RecordLastByte(b, pos, e);
      NothingAfter(i, b[pos..e]);
      assert IsRecord(b, pos, e, i);
    }
    if i :| IsRecord(b, pos, e, i) { RecordIsThere(b, pos, e, i); }
  }
}
