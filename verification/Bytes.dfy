/** Bytes, the ASCII characters the scanners look for, and the lines of a buffer. */
module Bytes {

  const U32_RANGE: nat := 0x1_0000_0000

  newtype byte = x: int | 0 <= x < 256
  type bytes = seq<byte>

  const TAB: byte := 9
  const NL: byte := 10
  const FF: byte := 12
  const CR: byte := 13
  const SPACE: byte := 32
  const QUOTE: byte := 34
  const PLUS: byte := 43
  const COMMA: byte := 44
  const MINUS: byte := 45
  const DOT: byte := 46
  const SLASH: byte := 47
  const ZERO: byte := 48
  const NINE: byte := 57
  const COLON: byte := 58
  const LBRACKET: byte := 91
  const BACKSLASH: byte := 92
  const RBRACKET: byte := 93
  const LBRACE: byte := 123
  const RBRACE: byte := 125

  /** JSON white space: RFC 8259, section 2. */
  predicate IsWs(c: byte) { c == SPACE || c == TAB || c == CR || c == NL }

  /** `u8::is_ascii_whitespace`, which also counts the form feed. */
  predicate IsAsciiWs(c: byte) { IsWs(c) || c == FF }

  predicate IsDigit(c: byte) { ZERO <= c <= NINE }

  predicate AllWs(s: bytes) { forall k :: 0 <= k < |s| ==> IsWs(s[k]) }

  predicate MatchesAt(s: bytes, k: nat, pattern: bytes) {
    k + |pattern| <= |s| && s[k..k + |pattern|] == pattern
  }

  predicate Contains(s: bytes, pattern: bytes) {
    exists k :: 0 <= k <= |s| && MatchesAt(s, k, pattern)
  }

  /** What is left of `s` once its leading JSON white space is skipped. */
  function TrimLeft(s: bytes): (r: bytes)
    ensures |r| <= |s|
  {
    if s != [] && IsWs(s[0]) then TrimLeft(s[1..]) else s
  }

  /** The skipped part is white space and the rest does not start with any. */
  lemma {:induction false} TrimLeftSplits(s: bytes) returns (w: bytes)
    ensures AllWs(w) && s == w + TrimLeft(s)
    ensures TrimLeft(s) != [] ==> !IsWs(TrimLeft(s)[0])
  {
    w := [];
    if s != [] && IsWs(s[0]) {
      w := TrimLeftSplits(s[1..]);
      w := [s[0]] + w;
    }
  }

  lemma {:induction false} TrimLeftSkips(w: bytes, s: bytes)
    requires AllWs(w)
    ensures TrimLeft(w + s) == TrimLeft(s)
  {
    if w == [] {
      assert w + s == s;
    } else {
      assert (w + s)[1..] == w[1..] + s;
      TrimLeftSkips(w[1..], s);
    }
  }

  lemma {:induction false} TrimLeftAppend(s: bytes, t: bytes)
    requires TrimLeft(s) != []
    ensures TrimLeft(s + t) == TrimLeft(s) + t
  {
    var w := TrimLeftSplits(s);
    assert s + t == w + (TrimLeft(s) + t);
    TrimLeftSkips(w, TrimLeft(s) + t);
  }

  lemma {:induction false} TrimLeftBlank(s: bytes)
    ensures TrimLeft(s) == [] <==> AllWs(s)
  {
    if s != [] && IsWs(s[0]) {
      TrimLeftBlank(s[1..]);
      if AllWs(s[1..]) {
        forall k | 0 <= k < |s| ensures IsWs(s[k]) { if k > 0 { assert s[k] == s[1..][k - 1]; } }
      }
    }
  }

  function Concat(chunks: seq<bytes>): bytes {
    if chunks == [] then [] else Concat(chunks[..|chunks| - 1]) + chunks[|chunks| - 1]
  }

  // --- Lines -----------------------------------------------------------------

  /** A line of a buffer: where it starts and its bytes, without the newline. */
  datatype Line = Line(start: nat, text: bytes)

  /** The offset just after the last newline of `b`. */
  function LineStart(b: bytes): (r: nat)
    ensures r <= |b|
    ensures r > 0 ==> b[r - 1] == NL
    ensures forall k :: r <= k < |b| ==> b[k] != NL
  {
    if b == [] then 0
    else if b[|b| - 1] == NL then |b|
    else LineStart(b[..|b| - 1])
  }

  /** The lines of `b` that a newline ends, in order. */
  function TerminatedLines(b: bytes): seq<Line> {
    if b == [] then []
    else
      var front := b[..|b| - 1];
      if b[|b| - 1] == NL
      then TerminatedLines(front) + [Line(LineStart(front), front[LineStart(front)..])]
      else TerminatedLines(front)
  }

  /** The lines of `b`: the terminated ones and the last one when it has bytes but no newline. */
  function Lines(b: bytes): seq<Line> {
    TerminatedLines(b) +
    if LineStart(b) < |b| then [Line(LineStart(b), b[LineStart(b)..])] else []
  }

  /** Appending newline-free bytes only lengthens the last line. */
  lemma {:induction false} LinesExtend(b: bytes, s: bytes)
    requires NL !in s
    ensures LineStart(b + s) == LineStart(b)
    ensures TerminatedLines(b + s) == TerminatedLines(b)
    decreases |s|
  {
    if s == [] {
      assert b + s == b;
    } else {
      var s' := s[..|s| - 1];
      assert (b + s)[..|b + s| - 1] == b + s';
      assert s[|s| - 1] in s;
      LinesExtend(b, s');
    }
  }

  /** A newline closes the last line. */
  lemma LinesTerminate(b: bytes)
    ensures LineStart(b + [NL]) == |b| + 1
    ensures TerminatedLines(b + [NL]) == TerminatedLines(b) + [Line(LineStart(b), b[LineStart(b)..])]
  {
    assert (b + [NL])[..|b|] == b;
  }

  /** A whole terminated line after a buffer that ends at a line boundary. */
  lemma LinesAppendLine(b: bytes, text: bytes)
    requires LineStart(b) == |b| && NL !in text
    ensures LineStart(b + text + [NL]) == |b + text + [NL]|
    ensures TerminatedLines(b + text + [NL]) == TerminatedLines(b) + [Line(|b|, text)]
    ensures Lines(b + text + [NL]) == TerminatedLines(b) + [Line(|b|, text)]
  {
    LinesExtend(b, text);
    LinesTerminate(b + text);
    assert (b + text)[|b|..] == text;
  }

  /** The texts, each ended by a newline. */
  function Unlines(texts: seq<bytes>): bytes {
    if texts == [] then [] else Unlines(texts[..|texts| - 1]) + texts[|texts| - 1] + [NL]
  }

  function Texts(lines: seq<Line>): seq<bytes> {
    seq(|lines|, i requires 0 <= i < |lines| => lines[i].text)
  }

  lemma UnlinesSnoc(texts: seq<bytes>, t: bytes)
    ensures Unlines(texts + [t]) == Unlines(texts) + t + [NL]
  {
    assert (texts + [t])[..|texts|] == texts;
  }

  lemma TextsSnoc(lines: seq<Line>, l: Line)
    ensures Texts(lines + [l]) == Texts(lines) + [l.text]
  {
  }

  /** Lines partition the buffer: no byte is lost, and none is added. */
  lemma {:induction false} LinesRebuild(b: bytes)
    ensures Unlines(Texts(TerminatedLines(b))) == b[..LineStart(b)]
  {
    if b != [] {
      var front, c := b[..|b| - 1], b[|b| - 1];
      LinesRebuild(front);
      if c == NL {
        assert b == front + [NL];
        LineRebuilds(front);
      } else {
        assert b[..LineStart(b)] == front[..LineStart(b)];
      }
    }
  }

  lemma LineRebuilds(front: bytes)
    requires Unlines(Texts(TerminatedLines(front))) == front[..LineStart(front)]
    ensures Unlines(Texts(TerminatedLines(front + [NL]))) == front + [NL]
    ensures LineStart(front + [NL]) == |front| + 1
  {
    LinesTerminate(front);
    Rebuilds(TerminatedLines(front), Line(LineStart(front), front[LineStart(front)..]), front, LineStart(front));
  }

  lemma Rebuilds(lines: seq<Line>, last: Line, front: bytes, k: nat)
    requires k <= |front| && Unlines(Texts(lines)) == front[..k] && last.text == front[k..]
    ensures Unlines(Texts(lines + [last])) == front + [NL]
  {
    TextsSnoc(lines, last);
    UnlinesSnoc(Texts(lines), last.text);
    assert front[..k] + front[k..] == front;
  }

  ghost predicate LineOf(b: bytes, l: Line) {
    NL !in l.text && MatchesAt(b, l.start, l.text)
  }

  /** Each line sits where it says and contains no newline. */
  lemma {:induction false} LinesInPlace(b: bytes)
    ensures forall l :: l in Lines(b) ==> LineOf(b, l)
  {
    var last := Line(LineStart(b), b[LineStart(b)..]);
    assert LineOf(b, last);
    TerminatedInPlace(b, b);
  }

  lemma {:induction false} TerminatedInPlace(a: bytes, b: bytes)
    requires a <= b
    ensures forall l :: l in TerminatedLines(a) ==> LineOf(b, l)
  {
    if a != [] {
      var front := a[..|a| - 1];
      TerminatedInPlace(front, b);
      var last := Line(LineStart(front), front[LineStart(front)..]);
      assert LineOf(b, last);
    }
  }
}
