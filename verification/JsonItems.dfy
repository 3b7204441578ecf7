/** JSON texts inside one another: a value reads the same in any container, and an array holds texts with
    commas between them. */
module JsonItems {
  import opened Bytes
  import opened Json

  // --- A value reads the same inside any container ------------------------------------------

  /** The same scan with `base` open around it. */
  function Lift(st: Scan, base: seq<Frame>): Scan {
    if st.mode.Bad? then FAILED else Scan(st.mode, base + st.stack)
  }

  /** Containers just entered are on the stack. */
  predicate Sound(st: Scan) { st.mode.FirstItem? || st.mode.FirstKey? ==> st.stack != [] }

  /** The bytes that may follow a value in a container. */
  predicate Ends(c: byte) { c == COMMA || c == RBRACKET || c == RBRACE }

  lemma LiftAfterValue(stack: seq<Frame>, base: seq<Frame>, c: byte)
    requires stack != [] || IsWs(c)
    ensures Lift(AfterValue(stack, c), base) == AfterValue(base + stack, c)
  {
    if stack != [] {
      var s := base + stack;
      assert s[|s| - 1] == stack[|stack| - 1];
      assert s[..|s| - 1] == base + stack[..|stack| - 1];
    }
  }

  /** Until the value ends, a step and the container around it do not interfere. */
  lemma LiftStep(st: Scan, base: seq<Frame>, c: byte)
    requires Sound(st) && base != [] && Step(st, c) != FAILED
    ensures Lift(Step(st, c), base) == Step(Lift(st, base), c) && Sound(Step(st, c))
  {
    if InString(st.mode) {
    } else if Complete(st.mode) {
      if st.mode.After? || Prolong(st.mode, c).None? {
        assert Step(st, c) == AfterValue(st.stack, c);
        LiftAfterValue(st.stack, base, c);
      }
    } else {
      LiftOpenStep(st, base, c);
    }
  }

  lemma LiftOpenStep(st: Scan, base: seq<Frame>, c: byte)
    requires Sound(st) && base != [] && Step(st, c) != FAILED && !InString(st.mode) && !Complete(st.mode)
    ensures Lift(Step(st, c), base) == Step(Lift(st, base), c) && Sound(Step(st, c))
  {
    if st.stack != [] {
      LiftAfterValue(st.stack, base, c);
    }
  }

  lemma {:induction false} LiftRun(st: Scan, base: seq<Frame>, w: bytes)
    requires Sound(st) && base != [] && Run(st, w) != FAILED
    ensures Run(Lift(st, base), w) == Lift(Run(st, w), base)
    decreases |w|
  {
    if w != [] {
      if Step(st, w[0]) == FAILED { RunFailed(w[1..]); }
      LiftStep(st, base, w[0]);
      LiftRun(Step(st, w[0]), base, w[1..]);
    }
  }

  /** INSIDE a container, a value that started on its own ends on its own: its bytes, then a byte
      that may follow it. */
  lemma {:induction false} ValueEnds(st: Scan, base: seq<Frame>, w: bytes) returns (n: nat)
    requires Sound(st) && st != FAILED && base != [] && Accepting(Run(Lift(st, base), w))
    ensures n < |w| && Ends(w[n]) && Accepting(Run(st, w[..n]))
    decreases |w|
  {
    if w == [] {
      assert false;
    } else if Step(st, w[0]) == FAILED {
      RunFailed(w[1..]);
      n := 0;
      assert Run(st, w[..0]) == st;
    } else {
      LiftStep(st, base, w[0]);
      var m := ValueEnds(Step(st, w[0]), base, w[1..]);
      n := m + 1;
      assert w[..n][1..] == w[1..][..m];
    }
  }

  // --- Lists of texts ---------------------------------------------------------------------------

  /** The items with commas between them. */
  function Join(items: seq<bytes>): bytes {
    if items == [] then []
    else if |items| == 1 then items[0]
    else items[0] + [COMMA] + Join(items[1..])
  }

  ghost predicate AllJson(items: seq<bytes>) {
    forall i :: 0 <= i < |items| ==> IsJson(items[i])
  }

  lemma JoinTake(items: seq<bytes>, k: nat)
    requires |items| > 1 && k < |items|
    ensures |Join(items[..k + 1])| == if k == 0 then |items[0]| else |items[0]| + 1 + |Join(items[1..][..k])|
  {
    var t := items[..k + 1];
    if k > 0 {
      assert t[1..] == items[1..][..k];
    }
  }

  /** The joined list splits at the comma after its first `k` items. */
  lemma {:induction false} JoinSplits(items: seq<bytes>, k: nat)
    requires 0 < k < |items|
    ensures Join(items) == Join(items[..k]) + [COMMA] + Join(items[k..])
  {
    if k == 1 {
      assert items[..1] == [items[0]];
    } else {
      JoinSplits(items[1..], k - 1);
      assert items[..k][1..] == items[1..][..k - 1];
      assert items[1..][k - 1..] == items[k..];
    }
  }

  lemma {:induction false} JsonIsNotBlank(item: bytes)
    requires IsJson(item)
    ensures !AllWs(item)
  {
    if AllWs(item) { RunWs(INIT, item); }
  }

  lemma JoinIsNotBlank(items: seq<bytes>)
    requires items != [] && AllJson(items)
    ensures !AllWs(Join(items))
  {
    JsonIsNotBlank(items[0]);
    if k :| 0 <= k < |items[0]| && !IsWs(items[0][k]) {
      assert Join(items)[k] == items[0][k];
    }
  }

  // --- The items of an accepted array ---------------------------------------------------------

  /** After a whole item inside an array: a comma asks for the next one, a bracket closes. */
  lemma StepAfterItem(m: Mode, outer: seq<Frame>, c: byte)
    requires Complete(m) && Ends(c)
    ensures Step(Scan(m, outer + [InArray]), c)
         == if c == COMMA then Scan(Value, outer + [InArray]) else if c == RBRACKET then Scan(After, outer) else FAILED
  {
    var s := outer + [InArray];
    assert s[|s| - 1] == InArray && s[..|s| - 1] == outer;
  }

  /** An item read inside an array, and the byte after it. */
  lemma RunItem(outer: seq<Frame>, item: bytes, c: byte, rest: bytes)
    requires IsJson(item) && Ends(c)
    ensures Run(Scan(Value, outer + [InArray]), item + [c] + rest)
         == Run(if c == COMMA then Scan(Value, outer + [InArray])
                else if c == RBRACKET then Scan(After, outer) else FAILED, rest)
  {
    var base := outer + [InArray];
    assert base + [] == base;
    assert Lift(INIT, base) == Scan(Value, base);
    LiftRun(INIT, base, item);
    StepAfterItem(Run(INIT, item).mode, outer, c);
    RunConcat(Scan(Value, base), item + [c], rest);
    RunSnoc(Scan(Value, base), item, c);
  }

  /** Joined items and the closing bracket take a scan out of the array. */
  lemma {:induction false} RunItems(outer: seq<Frame>, items: seq<bytes>, rest: bytes)
    requires items != [] && AllJson(items)
    ensures Run(Scan(Value, outer + [InArray]), Join(items) + [RBRACKET] + rest) == Run(Scan(After, outer), rest)
    decreases |items|
  {
    if |items| == 1 {
      RunItem(outer, items[0], RBRACKET, rest);
    } else {
      var more := Join(items[1..]) + [RBRACKET] + rest;
      assert Join(items) + [RBRACKET] + rest == items[0] + [COMMA] + more;
      RunItem(outer, items[0], COMMA, more);
      RunItems(outer, items[1..], rest);
    }
  }

  /** The other direction: what an accepted scan reads inside an array is such a list. */
  lemma {:induction false} ItemsOf(outer: seq<Frame>, w: bytes) returns (items: seq<bytes>, post: bytes)
    requires Accepting(Run(Scan(Value, outer + [InArray]), w))
    ensures items != [] && AllJson(items) && w == Join(items) + [RBRACKET] + post
    decreases |w|
  {
    var base := outer + [InArray];
    assert base + [] == base;
    assert Lift(INIT, base) == Scan(Value, base);
    var n := ValueEnds(INIT, base, w);
    var item, c, rest := w[..n], w[n], w[n + 1..];
    assert w == item + [c] + rest;
    RunItem(outer, item, c, rest);
    if c == COMMA {
      items, post := ItemsOf(outer, rest);
      JoinCons(item, items);
      items := [item] + items;
    } else if c == RBRACKET {
      items, post := [item], rest;
    } else {
      RunFailed(rest);
    }
  }

  lemma JoinCons(item: bytes, items: seq<bytes>)
    requires items != []
    ensures Join([item] + items) == item + [COMMA] + Join(items)
  {
    assert ([item] + items)[1..] == items;
  }

  /** Just after `[`, anything but the closing bracket reads as the first item. */
  lemma FirstItemIsValue(stack: seq<Frame>, w: bytes)
    requires TrimLeft(w) != [] && TrimLeft(w)[0] != RBRACKET
    ensures Run(Scan(FirstItem, stack), w) == Run(Scan(Value, stack), w)
  {
    var ws := TrimLeftSplits(w);
    var x := TrimLeft(w);
    RunConcat(Scan(FirstItem, stack), ws, x);
    RunConcat(Scan(Value, stack), ws, x);
    RunWs(Scan(FirstItem, stack), ws);
    RunWs(Scan(Value, stack), ws);
    assert Step(Scan(FirstItem, stack), x[0]) == Step(Scan(Value, stack), x[0]);
  }

  lemma JsonStart(item: bytes, rest: bytes)
    requires IsJson(item)
    ensures TrimLeft(item + rest) != [] && TrimLeft(item + rest)[0] != RBRACKET
  {
    JsonIsNotBlank(item);
    TrimLeftBlank(item);
    TrimLeftAppend(item, rest);
    var ws := TrimLeftSplits(item);
    var x := TrimLeft(item);
    RunConcat(INIT, ws, x);
    RunWs(INIT, ws);
    if x[0] == RBRACKET { RunFailed(x[1..]); }
  }

  /** From just after `[`, items and the closing bracket lead out of the array. */
  lemma RunArray(outer: seq<Frame>, items: seq<bytes>, rest: bytes)
    requires items != [] && AllJson(items)
    ensures Run(Scan(FirstItem, outer + [InArray]), Join(items) + [RBRACKET] + rest) == Run(Scan(After, outer), rest)
  {
    var tail := if |items| == 1 then [RBRACKET] + rest else [COMMA] + Join(items[1..]) + [RBRACKET] + rest;
    assert Join(items) + [RBRACKET] + rest == items[0] + tail;
    JsonStart(items[0], tail);
    FirstItemIsValue(outer + [InArray], Join(items) + [RBRACKET] + rest);
    RunItems(outer, items, rest);
  }

  /** What stands after the bracket of an accepted array. */
  lemma ArrayContents(outer: seq<Frame>, rest: bytes) returns (items: seq<bytes>, blank: bytes, post: bytes)
    requires Accepting(Run(Scan(FirstItem, outer + [InArray]), rest))
    ensures if items == [] then AllWs(blank) && rest == blank + [RBRACKET] + post
            else AllJson(items) && rest == Join(items) + [RBRACKET] + post
  {
    blank := TrimLeftSplits(rest);
    var x := TrimLeft(rest);
    items, post := [], [];
    if x != [] && x[0] == RBRACKET {
      post := x[1..];
      assert x == [RBRACKET] + post;
    } else {
      if x == [] {
        TrimLeftBlank(rest);
        RunWs(Scan(FirstItem, outer + [InArray]), rest);
      }
      FirstItemIsValue(outer + [InArray], rest);
      items, post := ItemsOf(outer, rest);
    }
  }
}
