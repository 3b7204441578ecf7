/** Every JSON line is of the shape the splice handles, and stays JSON. */
module HalvingJson {
  import opened Bytes
  import opened Json
  import opened JsonItems
  import opened EventsPlace
  import opened Halving
  import opened HalvingProofs

  // --- The bracket opens a real array ---------------------------------------------------------

  /** The colon after a key, and white space: a value must start. After a whole value it fails. */
  lemma RunColon(st: Scan, stack: seq<Frame>, w: bytes)
    requires AllWs(w) && (st == FAILED || st == Scan(Mode.Colon, stack) || st == Scan(After, stack))
    ensures var r := Run(st, [Bytes.COLON] + w); r == FAILED || r == Scan(Value, stack)
  {
    assert ([Bytes.COLON] + w)[1..] == w;
    var next := Step(st, Bytes.COLON);
    assert next == FAILED || next == Scan(Value, stack);
    if next == FAILED { RunFailed(w); } else { RunWs(next, w); }
  }

  /** `s`, the closing quote of the key, white space, a colon and white space. */
  lemma StateAtArray(before: Scan, w1: bytes, w2: bytes)
    requires AllWs(w1) && AllWs(w2)
    ensures var r := Run(before, [115, QUOTE] + w1 + ([Bytes.COLON] + w2));
      r == FAILED || r == Scan(Value, before.stack)
  {
    RunConcat(before, [115, QUOTE] + w1, [Bytes.COLON] + w2);
    AfterKeyQuote(before, w1);
    RunColon(Run(before, [115, QUOTE] + w1), before.stack, w2);
  }

  /** `s"` outside a string is no JSON; inside one it closes the string: a key awaits its colon,
      any other string is a whole value. */
  lemma AfterKeyQuote(before: Scan, w1: bytes)
    requires AllWs(w1)
    ensures var st := Run(before, [115, QUOTE] + w1);
      st == FAILED || st == Scan(Mode.Colon, before.stack) || st == Scan(After, before.stack)
  {
    var s1 := Step(before, 115);
    var s2 := Step(s1, QUOTE);
    assert ([115, QUOTE] + w1)[1..] == [QUOTE] + w1;
    assert ([QUOTE] + w1)[1..] == w1;
    assert Run(before, [115, QUOTE] + w1) == Run(s2, w1);
    QuoteAfterS(before);
    RunFailed(w1);
    if s2 == Scan(Mode.Colon, before.stack) {
      RunColonWs(before.stack, w1);
    } else if s2 == Scan(After, before.stack) {
      RunWs(s2, w1);
    }
  }

  lemma {:induction false} RunColonWs(stack: seq<Frame>, w: bytes)
    requires AllWs(w)
    ensures Run(Scan(Mode.Colon, stack), w) == Scan(Mode.Colon, stack)
    decreases |w|
  {
    if w != [] {
      assert IsWs(w[0]);
      RunColonWs(stack, w[1..]);
    }
  }

  lemma QuoteAfterS(before: Scan)
    ensures var st := Step(Step(before, 115), QUOTE);
      st == FAILED || st == Scan(Mode.Colon, before.stack) || st == Scan(After, before.stack)
  {
  }

  /** What stands just before the bracket of the first place. */
  lemma KeyBeforeArray(line: bytes, p: nat) returns (k: nat, w1: bytes, w2: bytes)
    requires FirstPlace(line, p)
    ensures AllWs(w1) && AllWs(w2) && k <= |line| && p < |line| && line[p] == LBRACKET
    ensures line[..p] == line[..k] + ([115, QUOTE] + w1 + ([Bytes.COLON] + w2))
  {
    var key: nat :| FirstPlaceOf(line, key, p);
    var v1, v2 :| PlaceWith(line, key, p, v1, v2);
    var i := PlaceParts(line, key, p, v1, v2);
    k, w1, w2 := key + 6, line[key + 8..i], line[i + 1..p];
    KeyEnds(line, key);
    Pieces(line, key + 6, key + 8, i, p);
  }

  lemma KeyEnds(line: bytes, key: nat)
    requires KeyAt(line, key)
    ensures line[key + 6..key + 8] == [115, QUOTE]
  {
    KeyBytes(line, key, 6);
    KeyBytes(line, key, 7);
  }

  lemma Pieces(line: bytes, k: nat, a: nat, i: nat, p: nat)
    requires k <= a <= i < p <= |line|
    ensures line[..p] == line[..k] + (line[k..a] + line[a..i] + ([line[i]] + line[i + 1..p]))
  {
  }

  // --- Every JSON line --------------------------------------------------------------------------

  lemma RunToBracket(line: bytes, p: nat) returns (outer: seq<Frame>)
    requires IsJson(line) && FirstPlace(line, p)
    ensures p < |line| && line[p] == LBRACKET && Run(INIT, line[..p]) == Scan(Value, outer)
    ensures Run(INIT, line) == Run(Scan(FirstItem, outer + [InArray]), line[p + 1..])
  {
    var k, w1, w2 := KeyBeforeArray(line, p);
    var before := Run(INIT, line[..k]);
    RunConcat(INIT, line[..k], [115, QUOTE] + w1 + ([Bytes.COLON] + w2));
    StateAtArray(before, w1, w2);
    RunSplit(INIT, line, p);
    RunFailed(line[p..]);
    outer := before.stack;
    assert line[p..][1..] == line[p + 1..];
  }

  /** A line whose events array holds nothing. */
  function EmptyLine(pre: bytes, blank: bytes, post: bytes): bytes {
    pre + [LBRACKET] + (blank + [RBRACKET]) + post
  }

  /** A JSON line with an events array is a line of the shape above: its array holds JSON texts
      with commas between them, or only white space. */
  lemma JsonLineShape(line: bytes, p: nat) returns (pre: bytes, items: seq<bytes>, blank: bytes, post: bytes)
    requires IsJson(line) && FirstPlace(line, p)
    ensures |pre| == p
    ensures if items == [] then AllWs(blank) && line == EmptyLine(pre, blank, post)
      else AllJson(items) && line == ArrayLine(pre, items, post)
  {
    var outer := RunToBracket(line, p);
    pre := line[..p];
    items, blank, post := ArrayContents(outer, line[p + 1..]);
    Around(line, p, if items == [] then blank else Join(items), post);
  }

  lemma Around(line: bytes, p: nat, inner: bytes, post: bytes)
    requires p < |line| && line[p] == LBRACKET && line[p + 1..] == inner + [RBRACKET] + post
    ensures line == line[..p] + [LBRACKET] + (inner + [RBRACKET]) + post
  {
    assert line == line[..p] + [LBRACKET] + line[p + 1..];
  }

  /** A shorter list in the same place leads to the same end. */
  lemma SameEnd(pre: bytes, items: seq<bytes>, kept: seq<bytes>, post: bytes, outer: seq<Frame>)
    requires items != [] && AllJson(items) && kept != [] && AllJson(kept)
    requires Run(INIT, pre) == Scan(Value, outer)
    ensures Run(INIT, ArrayLine(pre, kept, post)) == Run(INIT, ArrayLine(pre, items, post))
  {
    RunArrayLine(pre, items, post, outer);
    RunArrayLine(pre, kept, post, outer);
  }

  lemma RunArrayLine(pre: bytes, items: seq<bytes>, post: bytes, outer: seq<Frame>)
    requires items != [] && AllJson(items) && Run(INIT, pre) == Scan(Value, outer)
    ensures Run(INIT, ArrayLine(pre, items, post)) == Run(Scan(After, outer), post)
  {
    var rest := Join(items) + [RBRACKET] + post;
    assert ArrayLine(pre, items, post) == pre + [LBRACKET] + rest;
    RunConcat(INIT, pre + [LBRACKET], rest);
    RunSnoc(INIT, pre, LBRACKET);
    RunArray(outer, items, post);
  }

  /** Halving never breaks a line: of every JSON text it makes a JSON text, the same one but for the
      items past the first half of the array of its first events key. */
  lemma HalvedIsJson(line: bytes) returns (pre: bytes, items: seq<bytes>, blank: bytes, post: bytes)
    requires IsJson(line)
    ensures IsJson(Halved(line)) && AllJson(items)
    ensures NoPlace(line) ==> Halved(line) == line
    ensures !NoPlace(line) ==> FirstPlace(line, |pre|)
    ensures !NoPlace(line) && items == [] ==>
      AllWs(blank) && line == EmptyLine(pre, blank, post) && Halved(line) == line
    ensures !NoPlace(line) && items != [] ==>
      line == ArrayLine(pre, items, post) && Halved(line) == ArrayLine(pre, items[..(|items| + 1) / 2], post)
  {
    pre, items, blank, post := [], [], [], [];
    SearchFindsFirst(line, 0);
    if NoPlace(line) {
      HalvedKeepsTheRest(line, 0, []);
    } else {
      var p := EventsArrayOpen(line, 0).value;
      SearchFindsFirst(line, p);
      pre, items, blank, post := JsonLineShape(line, p);
      if items == [] {
        HalvedEmpty(line, pre, blank, post);
      } else {
        HalvedItems(line, pre, items, post);
      }
    }
  }

  lemma HalvedEmpty(line: bytes, pre: bytes, blank: bytes, post: bytes)
    requires FirstPlace(line, |pre|) && AllWs(blank) && line == EmptyLine(pre, blank, post)
    ensures Halved(line) == line
  {
    MatchesInside(pre + [LBRACKET], blank + [RBRACKET], post);
    HalvedKeepsTheRest(line, |pre|, blank);
  }

  lemma HalvedItems(line: bytes, pre: bytes, items: seq<bytes>, post: bytes)
    requires IsJson(line) && FirstPlace(line, |pre|) && items != [] && AllJson(items)
    requires line == ArrayLine(pre, items, post)
    ensures Halved(line) == ArrayLine(pre, items[..(|items| + 1) / 2], post) && IsJson(Halved(line))
  {
    HalvedKeepsFirstHalf(pre, items, post);
    var outer := RunToBracket(line, |pre|);
    assert line[..|pre|] == pre;
    SameEnd(pre, items, items[..(|items| + 1) / 2], post, outer);
  }
}
