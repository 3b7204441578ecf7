/** The line indexer: the id of every book and its byte range, harvested from line starts
    while the decompressed stream goes by in writes of any size. */
module IndexingWriter {
  import opened Bytes
  import opened BookId
  import opened Wrappers

  const LINE_HEAD_CAP: nat := 64

  /** `}{`: two records with nothing between them. */
  const ADJACENT: bytes := [RBRACE, LBRACE]

  datatype Range = Range(start: nat, end: nat)

  /** The id table and whether every non-blank line gave an id. */
  datatype LineIndex = LineIndex(ranges: map<nat, Range>, complete: bool)

  function Head(text: bytes): bytes {
    if |text| <= LINE_HEAD_CAP then text else text[..LINE_HEAD_CAP]
  }

  function LastNonWs(s: bytes): (r: Option<byte>) {
    if s == [] then None
    else if !IsAsciiWs(s[|s| - 1]) then Some(s[|s| - 1])
    else LastNonWs(s[..|s| - 1])
  }

  function Last(s: bytes): Option<byte> {
    if s == [] then None else Some(s[|s| - 1])
  }

  /** What one line adds: nothing when blank, its id when it ends with `}`, holds no `}{`
      and shows an id in its head; otherwise the index is incomplete. */
  function IndexLine(acc: LineIndex, line: Line): LineIndex {
    match LastNonWs(line.text)
    case None => acc
    case Some(c) =>
      if c != RBRACE || Contains(line.text, ADJACENT) then acc.(complete := false)
      else
        match ReadIdField(Head(line.text))
        case None => acc.(complete := false)
        case Some(id) =>
          acc.(ranges := acc.ranges[id := Range(line.start, line.start + |line.text|)])
  }

  function IndexLines(lines: seq<Line>): LineIndex {
    if lines == [] then LineIndex(map[], true)
    else IndexLine(IndexLines(lines[..|lines| - 1]), lines[|lines| - 1])
  }

  // --- How the per-line facts grow with the line ------------------------------------

  lemma {:induction false} LastNonWsConcat(a: bytes, b: bytes)
    ensures LastNonWs(a + b) == if LastNonWs(b).Some? then LastNonWs(b) else LastNonWs(a)
    decreases |b|
  {
    if b == [] {
      assert a + b == a;
    } else {
      assert (a + b)[..|a + b| - 1] == a + b[..|b| - 1];
      LastNonWsConcat(a, b[..|b| - 1]);
    }
  }

  lemma AdjacentConcat(a: bytes, b: bytes)
    ensures Contains(a + b, ADJACENT) <==>
      Contains(a, ADJACENT) || Contains(b, ADJACENT) || (Last(a) == Some(RBRACE) && b != [] && b[0] == LBRACE)
  {
    if k :| 0 <= k <= |a| && MatchesAt(a, k, ADJACENT) {
      assert MatchesAt(a + b, k, ADJACENT) by { assert (a + b)[k..k + 2] == a[k..k + 2]; }
    }
    if k :| 0 <= k <= |b| && MatchesAt(b, k, ADJACENT) {
      assert MatchesAt(a + b, |a| + k, ADJACENT) by { assert (a + b)[|a| + k..|a| + k + 2] == b[k..k + 2]; }
    }
    if Last(a) == Some(RBRACE) && b != [] && b[0] == LBRACE {
      assert MatchesAt(a + b, |a| - 1, ADJACENT);
    }
    if k :| 0 <= k <= |a + b| && MatchesAt(a + b, k, ADJACENT) {
      AdjacentSplit(a, b, k);
    }
  }

  lemma AdjacentSplit(a: bytes, b: bytes, k: nat)
    requires MatchesAt(a + b, k, ADJACENT)
    ensures Contains(a, ADJACENT) || Contains(b, ADJACENT) || (Last(a) == Some(RBRACE) && b != [] && b[0] == LBRACE)
  {
    var t := (a + b)[k..k + 2];
    assert t[0] == RBRACE && t[1] == LBRACE;
    if k + 2 <= |a| {
      assert a[k..k + 2] == t;
      assert MatchesAt(a, k, ADJACENT);
    } else if k >= |a| {
      assert b[k - |a|..k - |a| + 2] == t;
      assert MatchesAt(b, k - |a|, ADJACENT);
    }
  }

  lemma HeadConcat(a: bytes, b: bytes)
    ensures var take := if |b| <= LINE_HEAD_CAP - |Head(a)| then |b| else LINE_HEAD_CAP - |Head(a)|;
      Head(a + b) == Head(a) + b[..take]
  {
  }

  // --- The writer -----------------------------------------------------------------

  class Writer {
    var offset: nat
    var lineStart: nat
    var head: bytes
    var lineLastNonWs: Option<byte>
    var lineHasAdjacentRecords: bool
    var previousByte: Option<byte>
    var lineIndexComplete: bool
    var idToRange: map<nat, Range>

    constructor ()
      ensures Describes([]) && offset == 0
    {
      offset, lineStart, head := 0, 0, [];
      lineLastNonWs, lineHasAdjacentRecords, previousByte := None, false, None;
      lineIndexComplete, idToRange := true, map[];
    }

    /** The fields about the unfinished line are those of `text`. */
    ghost predicate LineIs(text: bytes)
      reads this
    {
      && head == Head(text)
      && lineLastNonWs == LastNonWs(text)
      && lineHasAdjacentRecords == Contains(text, ADJACENT)
      && previousByte == Last(text)
    }

    /** The fields are what the bytes `b`, however they were split into writes, determine. */
    ghost predicate Describes(b: bytes)
      reads this
    {
      && lineStart == LineStart(b)
      && LineIs(Unfinished(b))
      && LineIndex(idToRange, lineIndexComplete) == IndexLines(TerminatedLines(b))
    }

    method FeedLineSegment(segment: bytes, ghost text: bytes)
      requires LineIs(text)
      modifies `head, `lineLastNonWs, `lineHasAdjacentRecords, `previousByte
      ensures LineIs(text + segment)
    {
      HeadConcat(text, segment);
      LastNonWsConcat(text, segment);
      AdjacentConcat(text, segment);
      var take := if |segment| <= LINE_HEAD_CAP - |head| then |segment| else LINE_HEAD_CAP - |head|;
      head := head + segment[..take];
      if previousByte == Some(RBRACE) && segment != [] && segment[0] == LBRACE {
        lineHasAdjacentRecords := true;
      }
      if Contains(segment, ADJACENT) {
        lineHasAdjacentRecords := true;
      }
      if LastNonWs(segment).Some? {
        lineLastNonWs := LastNonWs(segment);
      }
      if segment != [] {
        previousByte := Some(segment[|segment| - 1]);
      }
    }

    method FinishLine(lineEnd: nat, ghost text: bytes)
      requires LineIs(text) && lineEnd == lineStart + |text|
      modifies `lineStart, `head, `lineLastNonWs, `lineHasAdjacentRecords, `previousByte,
               `lineIndexComplete, `idToRange
      ensures LineIndex(idToRange, lineIndexComplete)
           == IndexLine(LineIndex(old(idToRange), old(lineIndexComplete)), Line(old(lineStart), text))
      ensures lineStart == lineEnd + 1 && LineIs([])
    {
      if lineLastNonWs.Some? {
        if lineLastNonWs == Some(RBRACE) && !lineHasAdjacentRecords {
          var id := ReadId(head);
          if id.Some? {
            idToRange := idToRange[id.value := Range(lineStart, lineEnd)];
          } else {
            lineIndexComplete := false;
          }
        } else {
          lineIndexComplete := false;
        }
      }
      lineStart := lineEnd + 1;
      head, lineLastNonWs, lineHasAdjacentRecords, previousByte := [], None, false, None;
    }

    /** The segment of `buf` up to `i`, as one more piece of the line it continues. */
    method FeedSegmentOf(buf: bytes, pos: nat, i: nat, ghost before: bytes)
      requires pos <= i <= |buf| && NL !in buf[pos..i]
      requires Describes(before + buf[..pos])
      modifies `head, `lineLastNonWs, `lineHasAdjacentRecords, `previousByte
      ensures Describes(before + buf[..i])
    {
      ghost var text := Unfinished(before + buf[..pos]);
      SegmentFed(before, buf, pos, i);
      FeedLineSegment(buf[pos..i], text);
    }

    /** The newline at `i` of `buf` closes the line. */
    method FinishLineOf(buf: bytes, i: nat, ghost before: bytes)
      requires i < |buf| && buf[i] == NL
      requires Describes(before + buf[..i]) && offset == |before|
      modifies `lineStart, `head, `lineLastNonWs, `lineHasAdjacentRecords, `previousByte,
               `lineIndexComplete, `idToRange
      ensures Describes(before + buf[..i + 1])
    {
      LineClosed(before, buf, i);
      FinishLine(offset + i, Unfinished(before + buf[..i]));
    }

    /** The rest of one line, and its end if the write holds it. */
    method FeedSome(buf: bytes, pos: nat, ghost before: bytes) returns (next: nat)
      requires pos < |buf| && Describes(before + buf[..pos]) && offset == |before|
      modifies `lineStart, `head, `lineLastNonWs, `lineHasAdjacentRecords, `previousByte,
               `lineIndexComplete, `idToRange
      ensures pos < next <= |buf| && Describes(before + buf[..next])
    {
      var i := FindNewline(buf, pos);
      FeedSegmentOf(buf, pos, i, before);
      if i < |buf| {
        FinishLineOf(buf, i, before);
        next := i + 1;
      } else {
        next := |buf|;
      }
    }

    /** One write: whatever came before and however this piece is cut, the fields end up
        describing the concatenation. */
    method Feed(buf: bytes, ghost before: bytes)
      requires Describes(before) && offset == |before|
      modifies this
      ensures Describes(before + buf) && offset == |before + buf|
    {
      var pos := 0;
      assert before + buf[..0] == before;
      while pos < |buf|
        invariant 0 <= pos <= |buf|
        invariant Describes(before + buf[..pos])
        invariant offset == |before|
      {
        pos := FeedSome(buf, pos, before);
      }
      assert before + buf[..|buf|] == before + buf;
      offset := offset + |buf|;
    }

    /** The table and the completeness flag of the whole stream, a last line without
        newline included. */
    method Finish(ghost fed: bytes) returns (ranges: map<nat, Range>, complete: bool)
      requires Describes(fed) && offset == |fed|
      modifies this
      ensures LineIndex(ranges, complete) == IndexLines(Lines(fed))
    {
      ghost var terminated := TerminatedLines(fed);
      if offset > lineStart {
        FinishLine(offset, Unfinished(fed));
        assert Lines(fed)[..|Lines(fed)| - 1] == terminated;
      } else {
        assert Lines(fed) == terminated;
      }
      ranges, complete := idToRange, lineIndexComplete;
    }
  }

  /** The bytes after the last newline. */
  function Unfinished(b: bytes): bytes { b[LineStart(b)..] }

  lemma SegmentFed(before: bytes, buf: bytes, pos: nat, i: nat)
    requires pos <= i <= |buf| && NL !in buf[pos..i]
    ensures var a, b := before + buf[..pos], before + buf[..i];
      && LineStart(b) == LineStart(a) && TerminatedLines(b) == TerminatedLines(a)
      && Unfinished(b) == Unfinished(a) + buf[pos..i]
  {
    LinesExtend(before + buf[..pos], buf[pos..i]);
    assert before + buf[..i] == before + buf[..pos] + buf[pos..i];
  }

  lemma LineClosed(before: bytes, buf: bytes, i: nat)
    requires i < |buf| && buf[i] == NL
    ensures var a, b := before + buf[..i], before + buf[..i + 1];
      && LineStart(b) == |b| && Unfinished(b) == []
      && IndexLines(TerminatedLines(b))
      == IndexLine(IndexLines(TerminatedLines(a)), Line(LineStart(a), Unfinished(a)))
  {
    var a := before + buf[..i];
    assert before + buf[..i + 1] == a + [NL];
    LinesTerminate(a);
    var lines, last := TerminatedLines(a), Line(LineStart(a), Unfinished(a));
    assert (lines + [last])[..|lines|] == lines;
  }

  /** `memchr` for the newline: its index, or the length when there is none. */
  method FindNewline(buf: bytes, from: nat) returns (i: nat)
    requires from <= |buf|
    ensures from <= i <= |buf| && NL !in buf[from..i] && (i < |buf| ==> buf[i] == NL)
  {
    i := from;
    while i < |buf| && buf[i] != NL
      invariant from <= i <= |buf| && NL !in buf[from..i]
    {
      i := i + 1;
    }
  }

  /** Chunk independence: any split of a stream into writes gives the index of its lines. */
  method IndexChunks(chunks: seq<bytes>) returns (ranges: map<nat, Range>, complete: bool)
    ensures LineIndex(ranges, complete) == IndexLines(Lines(Concat(chunks)))
  {
    var writer := new Writer();
    for i := 0 to |chunks|
      invariant writer.Describes(Concat(chunks[..i])) && writer.offset == |Concat(chunks[..i])|
      invariant fresh(writer)
    {
      assert chunks[..i + 1][..i] == chunks[..i];
      writer.Feed(chunks[i], Concat(chunks[..i]));
    }
    assert chunks[..|chunks|] == chunks;
    ranges, complete := writer.Finish(Concat(chunks));
  }
}
