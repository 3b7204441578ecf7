/** Halving the events of a book by splicing bytes, without parsing the line. */
module Halving {
  import opened Bytes
  import opened Wrappers

  /** `"events"`, quotes included. */
  const EVENTS_KEY: bytes := [QUOTE, 101, 118, 101, 110, 116, 115, QUOTE]

  // --- Finding the array -------------------------------------------------------------------

  /** The first occurrence of the key from `start` on. */
  function FindKey(line: bytes, start: nat): (r: Option<nat>)
    ensures r.Some? ==> start <= r.value && MatchesAt(line, r.value, EVENTS_KEY)
    decreases |line| - start
  {
    if start >= |line| then None
    else if MatchesAt(line, start, EVENTS_KEY) then Some(start)
    else FindKey(line, start + 1)
  }

  function SkipWsFrom(s: bytes, i: nat): (r: nat)
    requires i <= |s|
    ensures i <= r <= |s|
    decreases |s| - i
  {
    if i < |s| && IsWs(s[i]) then SkipWsFrom(s, i + 1) else i
  }

  /** White space, a colon, white space and `[`: the index of the bracket. */
  function ArrayAfter(line: bytes, after: nat): (r: Option<nat>)
    requires after <= |line|
    ensures r.Some? ==> after < r.value < |line| && line[r.value] == LBRACKET
  {
    var i := SkipWsFrom(line, after);
    if i < |line| && line[i] == Bytes.COLON then
      var j := SkipWsFrom(line, i + 1);
      if j < |line| && line[j] == LBRACKET then Some(j) else None
    else None
  }

  /** The bracket of the first `"events"` key, from `start` on, that an array follows. */
  function EventsArrayOpen(line: bytes, start: nat): (r: Option<nat>)
    ensures r.Some? ==> start < r.value < |line| && line[r.value] == LBRACKET
    decreases |line| - start
  {
    var k := FindKey(line, start);
    if k.None? then None
    else
      var p := ArrayAfter(line, k.value + 8);
      if p.Some? then p else EventsArrayOpen(line, k.value + 8)
  }

  method FindEventsArrayOpen(line: bytes) returns (r: Option<nat>)
    ensures r == EventsArrayOpen(line, 0)
  {
    var start := 0;
    var k := FindKey(line, start);
    while k.Some?
      invariant start <= |line| && k == FindKey(line, start)
      invariant EventsArrayOpen(line, 0) == EventsArrayOpen(line, start)
      decreases |line| - start
    {
      var after := k.value + 8;
      var i := after;
      while i < |line| && IsWs(line[i])
        invariant after <= i <= |line| && SkipWsFrom(line, i) == SkipWsFrom(line, after)
      {
        i := i + 1;
      }
      if i < |line| && line[i] == Bytes.COLON {
        i := i + 1;
        ghost var colon := i;
        while i < |line| && IsWs(line[i])
          invariant colon <= i <= |line| && SkipWsFrom(line, i) == SkipWsFrom(line, colon)
        {
          i := i + 1;
        }
        if i < |line| && line[i] == LBRACKET {
          return Some(i);
        }
      }
      start := after;
      k := FindKey(line, start);
    }
    r := None;
  }

  // --- Walking the array -------------------------------------------------------------------

  const USIZE_MAX: nat := 0xFFFF_FFFF_FFFF_FFFF

  /** What the walk remembers: nesting depth, and whether it is in a string or after a backslash. */
  datatype Walk = Walk(depth: nat, inString: bool, escape: bool)

  /** Just inside the events array. */
  const INSIDE := Walk(1, false, false)

  function WalkStep(w: Walk, c: byte): Walk {
    if w.escape then w.(escape := false)
    else if w.inString then
      if c == BACKSLASH then w.(escape := true) else if c == QUOTE then w.(inString := false) else w
    else if c == QUOTE then w.(inString := true)
    else if c == LBRACKET || c == LBRACE then w.(depth := w.depth + 1)
    else if c == RBRACKET then w.(depth := if w.depth == 0 then USIZE_MAX else w.depth - 1)
    else if c == RBRACE then w.(depth := if w.depth == 0 then 0 else w.depth - 1)
    else w
  }

  /** A byte of the array itself: its comma or its closing bracket. */
  predicate OwnByte(w: Walk, c: byte, which: byte) {
    !w.escape && !w.inString && w.depth == 1 && c == which
  }

  /** The index of the closing bracket. */
  function CloseFrom(line: bytes, j: nat, w: Walk): (r: Option<nat>)
    ensures r.Some? ==> j <= r.value < |line|
    decreases |line| - j
  {
    if j >= |line| then None
    else if OwnByte(w, line[j], RBRACKET) then Some(j)
    else CloseFrom(line, j + 1, WalkStep(w, line[j]))
  }

  /** The indices of the array's own commas. */
  function CommasFrom(line: bytes, j: nat, w: Walk): (r: seq<nat>)
    ensures forall k :: 0 <= k < |r| ==> j <= r[k] < |line|
    decreases |line| - j
  {
    if j >= |line| || OwnByte(w, line[j], RBRACKET) then []
    else
      (if OwnByte(w, line[j], COMMA) then [j] else []) + CommasFrom(line, j + 1, WalkStep(w, line[j]))
  }

  function ItemCount(line: bytes, open: nat, close: nat, commas: seq<nat>): nat
    requires open < close <= |line|
  {
    if AllWs(line[open + 1..close]) then 0 else |commas| + 1
  }

  /** The line without its bytes from `at` up to the bracket at `close`. */
  function Splice(line: bytes, at: nat, close: nat): bytes
    requires at <= |line| && close < |line|
  {
    line[..at] + [RBRACKET] + line[close + 1..]
  }

  /** Keeps the first half of the items, rounded up, the closing bracket and what follows it. */
  function Cut(line: bytes, open: nat, close: nat, commas: seq<nat>): bytes
    requires open < close < |line| && forall k :: 0 <= k < |commas| ==> commas[k] < |line|
  {
    var n := ItemCount(line, open, close, commas);
    var keep := (n + 1) / 2;
    if keep >= n then line else Splice(line, commas[keep - 1], close)
  }

  /** Cuts the array whose bracket is at `open`, when it closes. */
  function HalvedFrom(line: bytes, open: nat): bytes {
    var close := CloseFrom(line, open + 1, INSIDE);
    if close.None? then line else Cut(line, open, close.value, CommasFrom(line, open + 1, INSIDE))
  }

  /** The line with its events array cut to the first half of its items. */
  function Halved(line: bytes): bytes {
    var p := EventsArrayOpen(line, 0);
    if p.None? then line else HalvedFrom(line, p.value)
  }

  /** The loop over the bytes after the opening bracket. */
  method WalkArray(line: bytes, from: nat) returns (commas: seq<nat>, close: Option<nat>)
    requires from <= |line|
    ensures close == CloseFrom(line, from, INSIDE) && commas == CommasFrom(line, from, INSIDE)
  {
    var w := INSIDE;
    commas, close := [], None;
    var j := from;
    while j < |line|
      invariant from <= j <= |line|
      invariant CloseFrom(line, from, INSIDE) == CloseFrom(line, j, w)
      invariant CommasFrom(line, from, INSIDE) == commas + CommasFrom(line, j, w)
    {
      var c := line[j];
      if OwnByte(w, c, RBRACKET) {
        assert commas + [] == commas;
        return commas, Some(j);
      }
      Unfold(line, j, w, commas);
      if OwnByte(w, c, COMMA) {
        commas := commas + [j];
      }
      w := WalkStep(w, c);
      j := j + 1;
    }
    assert commas + [] == commas;
  }

  lemma Unfold(line: bytes, j: nat, w: Walk, commas: seq<nat>)
    requires j < |line| && !OwnByte(w, line[j], RBRACKET)
    ensures CloseFrom(line, j, w) == CloseFrom(line, j + 1, WalkStep(w, line[j]))
    ensures commas + CommasFrom(line, j, w)
         == (if OwnByte(w, line[j], COMMA) then commas + [j] else commas)
            + CommasFrom(line, j + 1, WalkStep(w, line[j]))
  {
    var rest := CommasFrom(line, j + 1, WalkStep(w, line[j]));
    assert commas + ([j] + rest) == commas + [j] + rest;
    assert commas + ([] + rest) == commas + rest;
  }

  method WriteHalvedLine(line: bytes, out0: bytes) returns (out: bytes)
    ensures out == out0 + Halved(line)
  {
    var arrayOpen := FindEventsArrayOpen(line);
    if arrayOpen.None? { return out0 + line; }
    var commas, close := WalkArray(line, arrayOpen.value + 1);
    if close.None? { return out0 + line; }
    out := out0 + Cut(line, arrayOpen.value, close.value, commas);
  }
}
