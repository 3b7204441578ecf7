/** Why the splice is right: it drops whole items, and a JSON line stays a JSON line. */
module HalvingProofs {
  import opened Bytes
  import opened Wrappers
  import opened Json
  import opened JsonItems
  import opened Halving
  import opened EventsPlace

  // --- An item is opaque to the walk -------------------------------------------------------

  /** The walk and the recogniser agree on where they are. */
  predicate InSync(st: Scan, w: Walk) {
    w.depth == 1 + |st.stack| && w.inString == InString(st.mode) && w.escape == st.mode.Esc?
  }

  /** A step the recogniser accepts keeps them in step, and is no byte of the outer array. */
  lemma SyncStep(st: Scan, w: Walk, c: byte)
    requires InSync(st, w) && Step(st, c) != FAILED
    ensures InSync(Step(st, c), WalkStep(w, c))
    ensures !OwnByte(w, c, RBRACKET) && !OwnByte(w, c, COMMA)
  {
    if InString(st.mode) {
    } else if Complete(st.mode) {
    } else {
    }
  }

  /** Walking `u`, which `st` reads without failing, meets neither comma nor bracket of the outer
      array. */
  lemma {:induction false} WalkSkips(line: bytes, j: nat, u: bytes, st: Scan, w: Walk) returns (w': Walk)
    requires MatchesAt(line, j, u) && InSync(st, w) && Run(st, u) != FAILED
    ensures InSync(Run(st, u), w')
    ensures CloseFrom(line, j, w) == CloseFrom(line, j + |u|, w')
    ensures CommasFrom(line, j, w) == CommasFrom(line, j + |u|, w')
    decreases |u|
  {
    if u == [] {
      w' := w;
    } else {
      var c, next := u[0], Step(st, u[0]);
      assert line[j] == c by { assert line[j..j + |u|][0] == c; }
      if next == FAILED { RunFailed(u[1..]); }
      SyncStep(st, w, c);
      assert MatchesAt(line, j + 1, u[1..]) by { assert line[j + 1..j + |u|] == line[j..j + |u|][1..]; }
      w' := WalkSkips(line, j + 1, u[1..], next, WalkStep(w, c));
    }
  }

  /** A whole JSON text takes the walk from inside the array back to inside the array. */
  lemma WalkItem(line: bytes, j: nat, item: bytes)
    requires MatchesAt(line, j, item) && IsJson(item)
    ensures CloseFrom(line, j, INSIDE) == CloseFrom(line, j + |item|, INSIDE)
    ensures CommasFrom(line, j, INSIDE) == CommasFrom(line, j + |item|, INSIDE)
  {
    var w' := WalkSkips(line, j, item, INIT, INSIDE);
    assert w' == INSIDE;
  }

  // --- A list of items ---------------------------------------------------------------------

  lemma MatchesPrefix(line: bytes, j: nat, a: bytes, b: bytes)
    requires MatchesAt(line, j, a + b)
    ensures MatchesAt(line, j, a) && MatchesAt(line, j + |a|, b)
  {
    var t := line[j..j + |a + b|];
    assert line[j..j + |a|] == t[..|a|] == a;
    assert line[j + |a|..j + |a| + |b|] == t[|a|..] == b;
  }

  /** The first item of a longer list and its comma. */
  lemma WalkFirstItem(line: bytes, j: nat, items: seq<bytes>)
    requires |items| > 1 && AllJson(items) && MatchesAt(line, j, Join(items) + [RBRACKET])
    ensures var comma := j + |items[0]|;
      && MatchesAt(line, comma + 1, Join(items[1..]) + [RBRACKET])
      && CloseFrom(line, j, INSIDE) == CloseFrom(line, comma + 1, INSIDE)
      && CommasFrom(line, j, INSIDE) == [comma] + CommasFrom(line, comma + 1, INSIDE)
  {
    var rest := Join(items[1..]) + [RBRACKET];
    assert Join(items) + [RBRACKET] == items[0] + ([COMMA] + rest);
    MatchesPrefix(line, j, items[0], [COMMA] + rest);
    MatchesPrefix(line, j + |items[0]|, [COMMA], rest);
    WalkItem(line, j, items[0]);
  }

  lemma CloseHere(line: bytes, j: nat)
    requires MatchesAt(line, j, [RBRACKET])
    ensures CloseFrom(line, j, INSIDE) == Some(j)
  {
    assert line[j] == line[j..j + 1][0];
  }

  lemma WalkLastItem(line: bytes, j: nat, item: bytes)
    requires IsJson(item) && MatchesAt(line, j, item + [RBRACKET])
    ensures CloseFrom(line, j, INSIDE) == Some(j + |item|)
  {
    MatchesPrefix(line, j, item, [RBRACKET]);
    WalkItem(line, j, item);
    CloseHere(line, j + |item|);
  }

  /** Where the walk finds the closing bracket of a joined list. */
  lemma {:induction false} WalkToClose(line: bytes, j: nat, items: seq<bytes>)
    requires items != [] && AllJson(items) && MatchesAt(line, j, Join(items) + [RBRACKET])
    ensures CloseFrom(line, j, INSIDE) == Some(j + |Join(items)|)
    decreases |items|
  {
    if |items| == 1 {
      WalkLastItem(line, j, items[0]);
    } else {
      WalkFirstItem(line, j, items);
      WalkToClose(line, j + |items[0]| + 1, items[1..]);
    }
  }

  lemma NoCommas(line: bytes, j: nat, item: bytes)
    requires IsJson(item) && MatchesAt(line, j, item + [RBRACKET])
    ensures CommasFrom(line, j, INSIDE) == []
  {
    MatchesPrefix(line, j, item, [RBRACKET]);
    WalkItem(line, j, item);
  }

  /** Where the commas stand, given those after the first item. */
  lemma CommasPrepend(commas: seq<nat>, rest: seq<nat>, j: nat, items: seq<bytes>)
    requires |items| > 1 && commas == [j + |items[0]|] + rest && |rest| == |items| - 2
    requires forall k :: 0 <= k < |rest| ==> rest[k] == j + |items[0]| + 1 + |Join(items[1..][..k + 1])|
    ensures |commas| == |items| - 1
    ensures forall k :: 0 <= k < |commas| ==> commas[k] == j + |Join(items[..k + 1])|
  {
    forall k | 0 <= k < |commas| ensures commas[k] == j + |Join(items[..k + 1])| {
      JoinTake(items, k);
      if k > 0 { assert commas[k] == rest[k - 1]; }
    }
  }

  /** Where it finds the commas. */
  lemma {:induction false} WalkCommas(line: bytes, j: nat, items: seq<bytes>)
    requires items != [] && AllJson(items) && MatchesAt(line, j, Join(items) + [RBRACKET])
    ensures |CommasFrom(line, j, INSIDE)| == |items| - 1
    ensures forall k :: 0 <= k < |items| - 1 ==> CommasFrom(line, j, INSIDE)[k] == j + |Join(items[..k + 1])|
    decreases |items|
  {
    if |items| == 1 {
      NoCommas(line, j, items[0]);
    } else {
      WalkFirstItem(line, j, items);
      WalkCommas(line, j + |items[0]| + 1, items[1..]);
      CommasPrepend(CommasFrom(line, j, INSIDE), CommasFrom(line, j + |items[0]| + 1, INSIDE), j, items);
    }
  }

  // --- Exactly the first half ----------------------------------------------------------------

  /** A line whose events array holds the texts `items`. */
  function ArrayLine(pre: bytes, items: seq<bytes>, post: bytes): bytes {
    pre + [LBRACKET] + (Join(items) + [RBRACKET]) + post
  }

  lemma CountItems(line: bytes, open: nat, items: seq<bytes>)
    requires items != [] && AllJson(items) && MatchesAt(line, open + 1, Join(items) + [RBRACKET])
    ensures open + 1 + |Join(items)| < |line|
    ensures ItemCount(line, open, open + 1 + |Join(items)|, CommasFrom(line, open + 1, INSIDE)) == |items|
  {
    var close := open + 1 + |Join(items)|;
    WalkCommas(line, open + 1, items);
    NotBlankInside(line, open + 1, items);
    CountWhenNotBlank(line, open, close, CommasFrom(line, open + 1, INSIDE));
  }

  lemma CountWhenNotBlank(line: bytes, open: nat, close: nat, commas: seq<nat>)
    requires open < close <= |line| && !AllWs(line[open + 1..close])
    ensures ItemCount(line, open, close, commas) == |commas| + 1
  {
  }

  lemma NotBlankInside(line: bytes, j: nat, items: seq<bytes>)
    requires items != [] && AllJson(items) && MatchesAt(line, j, Join(items) + [RBRACKET])
    ensures j + |Join(items)| < |line| && !AllWs(line[j..j + |Join(items)|])
  {
    JoinIsNotBlank(items);
    MatchesPrefix(line, j, Join(items), [RBRACKET]);
  }

  lemma CommaAt(line: bytes, open: nat, items: seq<bytes>, keep: nat)
    requires AllJson(items) && MatchesAt(line, open + 1, Join(items) + [RBRACKET]) && 0 < keep < |items|
    ensures |CommasFrom(line, open + 1, INSIDE)| >= keep
    ensures CommasFrom(line, open + 1, INSIDE)[keep - 1] == open + 1 + |Join(items[..keep])|
  {
    WalkCommas(line, open + 1, items);
    var k := keep - 1;
    assert CommasFrom(line, open + 1, INSIDE)[k] == open + 1 + |Join(items[..k + 1])|;
  }

  /** The one item of an array is kept. */
  lemma HalvedFromOne(line: bytes, open: nat, items: seq<bytes>)
    requires |items| == 1 && AllJson(items) && MatchesAt(line, open + 1, Join(items) + [RBRACKET])
    ensures HalvedFrom(line, open) == line
  {
    CountItems(line, open, items);
    WalkToClose(line, open + 1, items);
    CutOne(line, open, open + 1 + |Join(items)|);
  }

  lemma CutOne(line: bytes, open: nat, close: nat)
    requires open < close < |line| && CloseFrom(line, open + 1, INSIDE) == Some(close)
    requires ItemCount(line, open, close, CommasFrom(line, open + 1, INSIDE)) == 1
    ensures HalvedFrom(line, open) == line
  {
  }

  /** Of several items, those past the first half are spliced out. */
  lemma HalvedFromMany(line: bytes, open: nat, items: seq<bytes>, keep: nat)
    requires |items| > 1 && keep == (|items| + 1) / 2
    requires AllJson(items) && MatchesAt(line, open + 1, Join(items) + [RBRACKET])
    ensures var close, at := open + 1 + |Join(items)|, open + 1 + |Join(items[..keep])|;
      close < |line| && at <= |line| && HalvedFrom(line, open) == Splice(line, at, close)
  {
    var close, at := open + 1 + |Join(items)|, open + 1 + |Join(items[..keep])|;
    var n := |items|;
    CountItems(line, open, items);
    WalkToClose(line, open + 1, items);
    CommaAt(line, open, items, keep);
    CutMany(line, open, close, at, n);
  }

  lemma CutMany(line: bytes, open: nat, close: nat, at: nat, n: nat)
    requires open < close < |line| && CloseFrom(line, open + 1, INSIDE) == Some(close)
    requires n > 1 && ItemCount(line, open, close, CommasFrom(line, open + 1, INSIDE)) == n
    requires CommasFrom(line, open + 1, INSIDE)[(n + 1) / 2 - 1] == at
    ensures at <= |line| && HalvedFrom(line, open) == Splice(line, at, close)
  {
  }

  lemma MatchesInside(a: bytes, inner: bytes, post: bytes)
    ensures MatchesAt(a + inner + post, |a|, inner)
  {
    assert (a + inner + post)[|a|..|a| + |inner|] == inner;
  }

  lemma ArrayLineMatches(pre: bytes, items: seq<bytes>, post: bytes)
    ensures MatchesAt(ArrayLine(pre, items, post), |pre| + 1, Join(items) + [RBRACKET])
  {
    MatchesInside(pre + [LBRACKET], Join(items) + [RBRACKET], post);
  }

  lemma HalvedFromArrayLine(pre: bytes, items: seq<bytes>, post: bytes)
    requires items != [] && AllJson(items)
    ensures HalvedFrom(ArrayLine(pre, items, post), |pre|) == ArrayLine(pre, items[..(|items| + 1) / 2], post)
  {
    var line, keep := ArrayLine(pre, items, post), (|items| + 1) / 2;
    ArrayLineMatches(pre, items, post);
    if |items| == 1 {
      HalvedFromOne(line, |pre|, items);
      assert items[..keep] == items;
    } else {
      HalvedFromMany(line, |pre|, items, keep);
      CutAtComma(pre, items, post, keep);
    }
  }

  /** Whatever surrounds the array: a line whose events array holds `n` JSON texts becomes the same
      line holding exactly the first ceil(n/2) of them, every other byte unchanged. */
  lemma HalvedKeepsFirstHalf(pre: bytes, items: seq<bytes>, post: bytes)
    requires items != [] && AllJson(items)
    requires FirstPlace(ArrayLine(pre, items, post), |pre|)
    ensures Halved(ArrayLine(pre, items, post)) == ArrayLine(pre, items[..(|items| + 1) / 2], post)
  {
    SearchFindsFirst(ArrayLine(pre, items, post), |pre|);
    HalvedFromArrayLine(pre, items, post);
  }

  lemma CutAtComma(pre: bytes, items: seq<bytes>, post: bytes, keep: nat)
    requires 0 < keep < |items|
    ensures var line := ArrayLine(pre, items, post);
      var at, close := |pre| + 1 + |Join(items[..keep])|, |pre| + 1 + |Join(items)|;
      at <= close < |line| && Splice(line, at, close) == ArrayLine(pre, items[..keep], post)
  {
    var line, kept := ArrayLine(pre, items, post), Join(items[..keep]);
    JoinSplits(items, keep);
    ArrayLineMatches(pre, items, post);
    var at, close := |pre| + 1 + |kept|, |pre| + 1 + |Join(items)|;
    assert line[..at] == pre + [LBRACKET] + kept by {
      assert line[..at] == line[..|pre| + 1] + line[|pre| + 1..close][..|kept|];
    }
    assert pre + [LBRACKET] + kept + [RBRACKET] + post == ArrayLine(pre, items[..keep], post);
  }

  lemma WalkBlank(line: bytes, j: nat, w: bytes)
    requires AllWs(w) && MatchesAt(line, j, w + [RBRACKET])
    ensures CloseFrom(line, j, INSIDE) == Some(j + |w|) && line[j..j + |w|] == w
  {
    MatchesPrefix(line, j, w, [RBRACKET]);
    RunWs(INIT, w);
    var w' := WalkSkips(line, j, w, INIT, INSIDE);
    assert w' == INSIDE;
  }

  lemma HalvedFromEmpty(line: bytes, open: nat, w: bytes)
    requires AllWs(w) && MatchesAt(line, open + 1, w + [RBRACKET])
    ensures HalvedFrom(line, open) == line
  {
    WalkBlank(line, open + 1, w);
  }

  /** A line without an events array, and one whose events array is empty, come out unchanged. */
  lemma HalvedKeepsTheRest(line: bytes, p: nat, w: bytes)
    requires NoPlace(line) || (FirstPlace(line, p) && AllWs(w) && MatchesAt(line, p + 1, w + [RBRACKET]))
    ensures Halved(line) == line
  {
    SearchFindsFirst(line, p);
    if !NoPlace(line) {
      HalvedFromEmpty(line, p, w);
    }
  }
}
