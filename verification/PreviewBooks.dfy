/** The books of a preview: every line halved, or only the picked lines kept. */
module PreviewBooks {
  import opened Bytes
  import opened BookId
  import opened Wrappers
  import opened IndexingWriter
  import opened Halving

  // --- Rebuilding a file of lines ----------------------------------------------------------

  /** Written lines read back as themselves. */
  lemma {:induction false} LinesOfUnlines(texts: seq<bytes>)
    requires forall i :: 0 <= i < |texts| ==> NL !in texts[i]
    ensures LineStart(Unlines(texts)) == |Unlines(texts)|
    ensures Texts(Lines(Unlines(texts))) == texts
  {
    if texts != [] {
      var front, t := texts[..|texts| - 1], texts[|texts| - 1];
      LinesOfUnlines(front);
      LinesAppendLine(Unlines(front), t);
      assert Lines(Unlines(front)) == TerminatedLines(Unlines(front));
      assert texts == front + [t];
    }
  }

  // --- Halving every line --------------------------------------------------------------------

  /** The halved texts of the non-empty lines. */
  function HalvedTexts(lines: seq<Line>): seq<bytes> {
    if lines == [] then []
    else
      var front, l := HalvedTexts(lines[..|lines| - 1]), lines[|lines| - 1];
      if l.text == [] then front else front + [Halved(l.text)]
  }

  lemma HalvedTextsSnoc(lines: seq<Line>, l: Line)
    ensures HalvedTexts(lines + [l]) == if l.text == [] then HalvedTexts(lines)
      else HalvedTexts(lines) + [Halved(l.text)]
  {
    assert (lines + [l])[..|lines|] == lines;
  }

  /** One line of the output, or nothing for an empty line. */
  method HalveLine(buf: bytes, lineStart: nat, i: nat, out0: bytes, ghost lines: seq<Line>) returns (out: bytes)
    requires lineStart <= i <= |buf| && out0 == Unlines(HalvedTexts(lines))
    ensures out == Unlines(HalvedTexts(lines + [Line(lineStart, buf[lineStart..i])]))
  {
    HalvedTextsSnoc(lines, Line(lineStart, buf[lineStart..i]));
    out := out0;
    if i > lineStart {
      UnlinesSnoc(HalvedTexts(lines), Halved(buf[lineStart..i]));
      out := WriteHalvedLine(buf[lineStart..i], out);
      out := out + [NL];
    }
  }

  /** The line loop of `halve_book_file`: it also visits the end of the buffer, and skips empty lines. */
  method HalveBooks(buf: bytes) returns (out: bytes)
    ensures out == Unlines(HalvedTexts(Lines(buf)))
  {
    out := [];
    var lineStart, i := 0, 0;
    assert buf[..0] == [];
    while i < |buf|
      invariant 0 <= i <= |buf| && lineStart == LineStart(buf[..i])
      invariant out == Unlines(HalvedTexts(TerminatedLines(buf[..i])))
    {
      ByteRead(buf, i);
      if buf[i] == NL {
        out := HalveLine(buf, lineStart, i, out, TerminatedLines(buf[..i]));
        lineStart := i + 1;
      }
      i := i + 1;
    }
    assert buf[..i] == buf;
    assert buf[lineStart..i] == buf[lineStart..];
    if i > lineStart {
      out := HalveLine(buf, lineStart, i, out, TerminatedLines(buf));
    } else {
      assert Lines(buf) == TerminatedLines(buf);
    }
  }

  lemma ByteRead(buf: bytes, i: nat)
    requires i < |buf|
    ensures var a, b := buf[..i], buf[..i + 1];
      if buf[i] == NL
      then LineStart(b) == i + 1
        && TerminatedLines(b) == TerminatedLines(a) + [Line(LineStart(a), buf[LineStart(a)..i])]
      else LineStart(b) == LineStart(a) && TerminatedLines(b) == TerminatedLines(a)
  {
    assert buf[..i + 1] == buf[..i] + [buf[i]];
    if buf[i] == NL {
      LinesTerminate(buf[..i]);
    } else {
      LinesExtend(buf[..i], [buf[i]]);
    }
  }

  /** Everything up to the bracket is kept, whatever the line. */
  lemma HalvedKeepsHead(line: bytes)
    requires EventsArrayOpen(line, 0).Some?
    ensures var p := EventsArrayOpen(line, 0).value;
      |Halved(line)| > p && Halved(line)[..p + 1] == line[..p + 1]
  {
  }

  /** A halved line keeps its id: the id is decided before the bracket. */
  lemma HalvedKeepsId(line: bytes)
    ensures ReadIdField(Halved(line)) == ReadIdField(line)
  {
    var open := EventsArrayOpen(line, 0);
    if open.Some? {
      HalvedKeepsHead(line);
      var p, h := open.value, Halved(line);
      assert line == line[..p + 1] + line[p + 1..] && h == h[..p + 1] + h[p + 1..];
      assert line[..p + 1][p] == LBRACKET;
      ReadIdDecidedBy(line[..p + 1], line[p + 1..], p);
      ReadIdDecidedBy(line[..p + 1], h[p + 1..], p);
    }
  }

  lemma HalvedHasNoNewline(line: bytes)
    requires NL !in line
    ensures NL !in Halved(line)
  {
    forall k | 0 <= k < |Halved(line)| ensures Halved(line)[k] != NL {
    }
  }

  function Ids(texts: seq<bytes>): seq<Option<nat>> {
    seq(|texts|, i requires 0 <= i < |texts| => ReadIdField(texts[i]))
  }

  function NonEmpty(lines: seq<Line>): seq<bytes> {
    if lines == [] then []
    else
      var front, l := NonEmpty(lines[..|lines| - 1]), lines[|lines| - 1];
      if l.text == [] then front else front + [l.text]
  }

  lemma {:induction false} HalvedTextsFacts(lines: seq<Line>)
    requires forall l :: l in lines ==> NL !in l.text
    ensures |HalvedTexts(lines)| == |NonEmpty(lines)|
    ensures forall i :: 0 <= i < |HalvedTexts(lines)| ==>
      NL !in HalvedTexts(lines)[i] && HalvedTexts(lines)[i] == Halved(NonEmpty(lines)[i])
  {
    if lines != [] {
      var front, l := lines[..|lines| - 1], lines[|lines| - 1];
      HalvedTextsFacts(front);
      assert l in lines;
      HalvedHasNoNewline(l.text);
    }
  }

  /** The halved file has the non-empty lines of the original, halved, in order, and so the same
      ids in the same order: every event that could be drawn can still be read. */
  lemma HalvedBooksKeepIds(buf: bytes)
    ensures var before, after := NonEmpty(Lines(buf)), Texts(Lines(Unlines(HalvedTexts(Lines(buf)))));
      && |after| == |before| && (forall i :: 0 <= i < |after| ==> after[i] == Halved(before[i]))
      && Ids(after) == Ids(before)
  {
    LinesInPlace(buf);
    var before, after := NonEmpty(Lines(buf)), HalvedTexts(Lines(buf));
    HalvedTextsFacts(Lines(buf));
    LinesOfUnlines(after);
    forall i | 0 <= i < |after|
      ensures ReadIdField(after[i]) == ReadIdField(before[i])
    {
      HalvedKeepsId(before[i]);
    }
    assert Ids(after) == Ids(before);
  }

  // --- Keeping only the picked lines -----------------------------------------------------------

  predicate IsPicked(text: bytes, picked: set<nat>) {
    ReadIdField(text).Some? && ReadIdField(text).value in picked
  }

  function PickedTexts(lines: seq<Line>, picked: set<nat>): seq<bytes> {
    if lines == [] then []
    else
      var front, l := PickedTexts(lines[..|lines| - 1], picked), lines[|lines| - 1];
      if IsPicked(l.text, picked) then front + [l.text] else front
  }

  /** One line is written when its id is picked. */
  method KeepLine(text: bytes, picked: set<nat>, out0: bytes, ghost lines: seq<Line>, ghost start: nat)
    returns (out: bytes)
    requires out0 == Unlines(PickedTexts(lines, picked))
    ensures out == Unlines(PickedTexts(lines + [Line(start, text)], picked))
  {
    UnlinesSnoc(PickedTexts(lines, picked), text);
    out := out0;
    var id := ReadId(text);
    if id.Some? && id.value in picked {
      out := out + text;
      out := out + [NL];
    }
  }

  /** `done` ends with a line, and `out` holds its picked lines. */
  ghost predicate Written(done: bytes, picked: set<nat>, out: bytes) {
    LineStart(done) == |done| && out == Unlines(PickedTexts(TerminatedLines(done), picked))
  }

  /** The stream filter: whatever the decoder's reads are (a read of no byte ends it), the output is
      the picked lines of the whole stream, in order. */
  method StreamFilterBooks(chunks: seq<bytes>, picked: set<nat>) returns (out: bytes)
    requires forall i :: 0 <= i < |chunks| ==> chunks[i] != []
    ensures out == Unlines(PickedTexts(Lines(Concat(chunks)), picked))
  {
    out := [];
    var lineBuf: bytes := [];
    ghost var done: bytes := [];
    for i := 0 to |chunks|
      invariant Concat(chunks[..i]) == done + lineBuf && NL !in lineBuf && Written(done, picked, out)
    {
      assert chunks[..i + 1][..i] == chunks[..i];
      assert Concat(chunks[..i + 1]) == done + (lineBuf + chunks[i]);
      lineBuf := lineBuf + chunks[i];
      out, lineBuf, done := DrainLines(lineBuf, picked, out, done);
    }
    assert chunks[..|chunks|] == chunks;
    LinesExtend(done, lineBuf);
    assert (done + lineBuf)[|done|..] == lineBuf;
    if lineBuf != [] {
      out := KeepLine(lineBuf, picked, out, TerminatedLines(done), |done|);
    } else {
      assert Lines(done + lineBuf) == TerminatedLines(done);
    }
  }

  lemma MoveLine(done: bytes, lineBuf: bytes, nl: nat)
    requires nl < |lineBuf| && lineBuf[nl] == NL
    ensures done + lineBuf[..nl] + [NL] + lineBuf[nl + 1..] == done + lineBuf
  {
    assert lineBuf == lineBuf[..nl] + [NL] + lineBuf[nl + 1..];
  }

  /** Takes every complete line off the buffer. */
  method DrainLines(lineBuf0: bytes, picked: set<nat>, out0: bytes, ghost done0: bytes)
    returns (out: bytes, lineBuf: bytes, ghost done: bytes)
    requires Written(done0, picked, out0)
    ensures done + lineBuf == done0 + lineBuf0 && NL !in lineBuf && Written(done, picked, out)
  {
    out, lineBuf, done := out0, lineBuf0, done0;
    var nl := FindNewline(lineBuf, 0);
    while nl < |lineBuf|
      invariant done + lineBuf == done0 + lineBuf0 && Written(done, picked, out)
      invariant nl <= |lineBuf| && NL !in lineBuf[..nl] && (nl < |lineBuf| ==> lineBuf[nl] == NL)
      decreases |lineBuf|
    {
      out := KeepLine(lineBuf[..nl], picked, out, TerminatedLines(done), |done|);
      LinesAppendLine(done, lineBuf[..nl]);
      MoveLine(done, lineBuf, nl);
      done := done + lineBuf[..nl] + [NL];
      lineBuf := lineBuf[nl + 1..];
      nl := FindNewline(lineBuf, 0);
    }
    assert lineBuf[..nl] == lineBuf;
  }

  // --- A sampled preview is closed --------------------------------------------------------------

  /** The texts of the lines with an id, in order; a reader uses the last. */
  function BooksOf(texts: seq<bytes>, id: nat): seq<bytes> {
    if texts == [] then []
    else
      var front, t := BooksOf(texts[..|texts| - 1], id), texts[|texts| - 1];
      if ReadIdField(t) == Some(id) then front + [t] else front
  }

  lemma {:induction false} PickedBooks(lines: seq<Line>, picked: set<nat>, id: nat)
    ensures BooksOf(PickedTexts(lines, picked), id) == if id in picked then BooksOf(Texts(lines), id) else []
  {
    if lines != [] {
      var front, l := lines[..|lines| - 1], lines[|lines| - 1];
      PickedBooks(front, picked, id);
      assert lines == front + [l];
      assert Texts(lines) == Texts(front) + [l.text];
    } else {
      assert Texts(lines) == [];
    }
  }

  lemma {:induction false} PickedHaveNoNewline(lines: seq<Line>, picked: set<nat>)
    requires forall l :: l in lines ==> NL !in l.text
    ensures forall i :: 0 <= i < |PickedTexts(lines, picked)| ==> NL !in PickedTexts(lines, picked)[i]
  {
    if lines != [] {
      assert lines[|lines| - 1] in lines;
      PickedHaveNoNewline(lines[..|lines| - 1], picked);
    }
  }

  /** In the filtered file a picked id has exactly the books it had, byte for byte and in order, and
      any other id has none. */
  lemma FilteredBooksAreClosed(b: bytes, picked: set<nat>, id: nat)
    ensures var after := Unlines(PickedTexts(Lines(b), picked));
      BooksOf(Texts(Lines(after)), id) == if id in picked then BooksOf(Texts(Lines(b)), id) else []
  {
    LinesInPlace(b);
    PickedHaveNoNewline(Lines(b), picked);
    LinesOfUnlines(PickedTexts(Lines(b), picked));
    PickedBooks(Lines(b), picked, id);
  }
}
