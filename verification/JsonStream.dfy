/** The exhaustive scan: `serde_json`'s stream of values over a buffer, and the records it indexes. */
module JsonStream {
  import opened Bytes
  import opened BookId
  import opened Json
  import opened Wrappers
  import opened IndexingWriter

  /** What may follow a number or a literal at the top level. */
  predicate IsTerminator(c: byte) {
    IsWs(c) || c == QUOTE || c == LBRACKET || c == RBRACKET || c == LBRACE || c == RBRACE || c == COMMA || c == COLON
  }

  /** How many bytes of `w` the value being scanned still takes; absent when it is malformed or cut. */
  function ValueLength(st: Scan, w: bytes): (r: Option<nat>)
    ensures r.Some? ==> r.value <= |w| && (!Accepting(st) ==> r.value > 0)
    decreases |w|
  {
    if st.mode.Bad? then None
    else if st.stack == [] && st.mode.After? then Some(0)
    else if Accepting(st) && (w == [] || Prolong(st.mode, w[0]).None?) then
      if w == [] || IsTerminator(w[0]) then Some(0) else None
    else if w == [] then None
    else
      var n := ValueLength(Step(st, w[0]), w[1..]);
      if n.None? then None else Some(n.value + 1)
  }

  function IndexRecord(b: bytes, start: nat, end: nat, ranges: map<nat, Range>): map<nat, Range>
    requires start <= end <= |b|
  {
    var id := ReadIdField(b[start..end]);
    if id.Some? then ranges[id.value := Range(start, end)] else ranges
  }

  /** Indexes the values of `b` from `pos` on; a record starts where the one before ended, so its
      range may begin with white space. The error is the offset of the malformed record. */
  function ScanFrom(b: bytes, pos: nat, ranges: map<nat, Range>): Result<map<nat, Range>, nat>
    requires pos <= |b|
    decreases |b| - pos
  {
    var rest := TrimLeft(b[pos..]);
    if rest == [] then Ok(ranges)
    else
      var n := ValueLength(INIT, rest);
      if n.None? then Err(pos)
      else
        var end := |b| - |rest| + n.value;
        ScanFrom(b, end, IndexRecord(b, pos, end, ranges))
  }

  method IndexByJsonStream(buffer: bytes) returns (r: Result<map<nat, Range>, nat>)
    ensures r == ScanFrom(buffer, 0, map[])
  {
    var pos, ranges: map<nat, Range> := 0, map[];
    while pos < |buffer|
      invariant pos <= |buffer|
      invariant ScanFrom(buffer, 0, map[]) == ScanFrom(buffer, pos, ranges)
    {
      var start := SkipWs(buffer, pos);
      if start == |buffer| { break; }
      var n := ValueLength(INIT, buffer[start..]);
      if n.None? { return Err(pos); }
      var end := start + n.value;
      var id := ReadId(buffer[pos..end]);
      if id.Some? {
        ranges := ranges[id.value := Range(pos, end)];
      }
      pos := end;
    }
    r := Ok(ranges);
  }

  // --- One object on a line ----------------------------------------------------------

  /** `t` is one JSON object with any white space around it. */
  predicate ObjectLine(t: bytes) {
    IsJson(t) && TrimLeft(t) != [] && TrimLeft(t)[0] == LBRACE
  }

  /** Somewhere inside the object that opened the stack. */
  predicate Enclosed(st: Scan) { st.stack != [] && st.stack[0] == InObject }

  lemma AfterValueEnclosed(stack: seq<Frame>, c: byte)
    requires stack != [] && stack[0] == InObject
    ensures var st := AfterValue(stack, c);
      st == FAILED || Enclosed(st) || (st == Scan(After, []) && c == RBRACE)
  {
  }

  lemma StepEnclosed(st: Scan, c: byte)
    requires Enclosed(st)
    ensures var next := Step(st, c);
      next == FAILED || Enclosed(next) || (next == Scan(After, []) && c == RBRACE)
  {
    AfterValueEnclosed(st.stack, c);
  }

  lemma {:induction false} AfterRunIsBlank(w: bytes)
    requires Accepting(Run(Scan(After, []), w))
    ensures AllWs(w)
    decreases |w|
  {
    if w != [] {
      if IsWs(w[0]) {
        AfterRunIsBlank(w[1..]);
        forall k | 0 <= k < |w| ensures IsWs(w[k]) { if k > 0 { assert w[k] == w[1..][k - 1]; } }
      } else {
        RunFailed(w[1..]);
      }
    }
  }

  /** From `st`, the value is exactly the bytes `u`, whatever follows them. */
  ghost predicate Exact(st: Scan, u: bytes) {
    forall v :: ValueLength(st, u + v) == Some(|u|)
  }

  lemma ExactStep(st: Scan, c: byte, u: bytes)
    requires Exact(Step(st, c), u) && !Accepting(st) && !st.mode.Bad?
    ensures Exact(st, [c] + u)
  {
    forall v ensures ValueLength(st, [c] + u + v) == Some(|u| + 1) {
      var w := [c] + u + v;
      assert w[0] == c && w[1..] == u + v;
      assert ValueLength(Step(st, c), u + v) == Some(|u|);
    }
  }

  /** The rest of the object closes with `}`, only white space is left, and no lookahead is needed. */
  lemma {:induction false} ObjectEnds(st: Scan, w: bytes) returns (n: nat)
    requires Enclosed(st) && Accepting(Run(st, w))
    ensures 0 < n <= |w| && w[n - 1] == RBRACE && AllWs(w[n..]) && Exact(st, w[..n])
    decreases |w|
  {
    StepEnclosed(st, w[0]);
    var next := Step(st, w[0]);
    assert !st.mode.Bad? by { if st.mode.Bad? { assert next == FAILED; RunFailed(w[1..]); } }
    if next == FAILED {
      RunFailed(w[1..]);
      assert false;
    } else if Enclosed(next) {
      var m := ObjectEnds(next, w[1..]);
      n := m + 1;
      assert w[n..] == w[1..][m..];
      assert w[..n] == [w[0]] + w[1..][..m];
      ExactStep(st, w[0], w[1..][..m]);
    } else {
      AfterRunIsBlank(w[1..]);
      n := 1;
      assert Exact(next, []);
      ExactStep(st, w[0], []);
      assert w[..1] == [w[0]] + [];
    }
  }

  /** An object line is its object between two runs of white space. */
  lemma ObjectLineSplits(t: bytes) returns (w: bytes, record: bytes, z: bytes)
    requires ObjectLine(t)
    ensures t == w + record + z && AllWs(w) && AllWs(z)
    ensures |record| >= 2 && record[0] == LBRACE && record[|record| - 1] == RBRACE
    ensures Exact(INIT, record)
  {
    w := TrimLeftSplits(t);
    RunConcat(INIT, w, TrimLeft(t));
    RunWs(INIT, w);
    record, z := ObjectSplits(TrimLeft(t));
  }

  lemma ObjectSplits(x: bytes) returns (record: bytes, z: bytes)
    requires x != [] && x[0] == LBRACE && Accepting(Run(INIT, x))
    ensures x == record + z && AllWs(z)
    ensures |record| >= 2 && record[0] == LBRACE && record[|record| - 1] == RBRACE
    ensures Exact(INIT, record)
  {
    var inside := Scan(FirstKey, [InObject]);
    assert Step(INIT, LBRACE) == inside;
    var n := ObjectEnds(inside, x[1..]);
    record, z := [LBRACE] + x[1..][..n], x[1..][n..];
    ExactStep(INIT, LBRACE, x[1..][..n]);
  }
}
