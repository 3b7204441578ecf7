/** A byte-level recogniser of JSON texts (RFC 8259, sections 2 to 7), in the iterative form
    of `serde_json`'s `ignore_value`: the nesting is a stack of frames, and each byte is one step. */
module Json {
  import opened Bytes
  import opened Wrappers

  datatype Frame = InObject | InArray

  datatype Mode =
    | Value                          // a value must start
    | FirstItem                      // after `[`
    | FirstKey                       // after `{`
    | NextKey                        // after `,` in an object
    | Colon                          // after a key
    | Str(key: bool)                 // inside a string
    | Esc(key: bool)                 // after a backslash
    | Hex(key: bool, left: nat)      // inside `\uXXXX`
    | Minus | Zero | Int | Dot | Frac | Exp | ExpSign | ExpInt
    | Word(rest: bytes)              // inside `true`, `false` or `null`
    | WordEnd
    | After                          // a value just ended
    | Bad

  /** `stack` holds the open containers, outermost first. */
  datatype Scan = Scan(mode: Mode, stack: seq<Frame>)

  const INIT := Scan(Value, [])
  const FAILED := Scan(Bad, [])

  const RUE: bytes := [114, 117, 101]
  const ALSE: bytes := [97, 108, 115, 101]
  const ULL: bytes := [117, 108, 108]

  predicate IsHex(c: byte) { IsDigit(c) || 65 <= c <= 70 || 97 <= c <= 102 }

  predicate IsExp(c: byte) { c == 101 || c == 69 }

  /** `"`, `\`, `/`, `b`, `f`, `n`, `r` and `t`. */
  predicate IsSimpleEscape(c: byte) {
    c == QUOTE || c == BACKSLASH || c == SLASH || c == 98 || c == 102 || c == 110 || c == 114 || c == 116
  }

  /** The value is whole, but a number could still go on. */
  predicate IsTail(m: Mode) { m.Zero? || m.Int? || m.Frac? || m.ExpInt? || m.WordEnd? }

  predicate InString(m: Mode) { m.Str? || m.Esc? || m.Hex? }

  predicate Complete(m: Mode) { m.After? || IsTail(m) }

  /** First byte of a value. */
  function StartValue(stack: seq<Frame>, c: byte): Scan {
    if c == LBRACE then Scan(FirstKey, stack + [InObject])
    else if c == LBRACKET then Scan(FirstItem, stack + [InArray])
    else if c == QUOTE then Scan(Str(false), stack)
    else if c == MINUS then Scan(Minus, stack)
    else if c == ZERO then Scan(Zero, stack)
    else if IsDigit(c) then Scan(Int, stack)
    else if c == 116 then Scan(Word(RUE), stack)
    else if c == 102 then Scan(Word(ALSE), stack)
    else if c == 110 then Scan(Word(ULL), stack)
    else FAILED
  }

  /** A byte after a whole value: white space, a comma, or the closer of the innermost container. */
  function AfterValue(stack: seq<Frame>, c: byte): Scan {
    if IsWs(c) then Scan(After, stack)
    else if stack == [] then FAILED
    else
      var top, below := stack[|stack| - 1], stack[..|stack| - 1];
      if c == COMMA then Scan(if top.InObject? then NextKey else Value, stack)
      else if c == RBRACE && top.InObject? then Scan(After, below)
      else if c == RBRACKET && top.InArray? then Scan(After, below)
      else FAILED
  }

  /** Does `c` prolong a number in mode `m`? The mode it leads to. */
  function Prolong(m: Mode, c: byte): Option<Mode> {
    if m.Int? && IsDigit(c) then Some(Int)
    else if (m.Zero? || m.Int?) && c == DOT then Some(Dot)
    else if m.Frac? && IsDigit(c) then Some(Frac)
    else if (m.Zero? || m.Int? || m.Frac?) && IsExp(c) then Some(Exp)
    else if m.ExpInt? && IsDigit(c) then Some(ExpInt)
    else None
  }

  function StringStep(m: Mode, stack: seq<Frame>, c: byte): Scan
    requires InString(m)
  {
    match m
    case Str(key) =>
      if c == QUOTE then Scan(if key then Colon else After, stack)
      else if c == BACKSLASH then Scan(Esc(key), stack)
      else if c < SPACE then FAILED
      else Scan(m, stack)
    case Esc(key) =>
      if IsSimpleEscape(c) then Scan(Str(key), stack)
      else if c == 117 then Scan(Hex(key, 3), stack)
      else FAILED
    case Hex(key, left) =>
      if !IsHex(c) then FAILED
      else if left == 0 then Scan(Str(key), stack)
      else Scan(Hex(key, left - 1), stack)
  }

  /** Numbers and literals before they are whole. */
  function TokenStep(m: Mode, stack: seq<Frame>, c: byte): Scan {
    match m
    case Minus => if c == ZERO then Scan(Zero, stack) else if IsDigit(c) then Scan(Int, stack) else FAILED
    case Dot => if IsDigit(c) then Scan(Frac, stack) else FAILED
    case Exp =>
      if c == PLUS || c == MINUS then Scan(ExpSign, stack)
      else if IsDigit(c) then Scan(ExpInt, stack) else FAILED
    case ExpSign => if IsDigit(c) then Scan(ExpInt, stack) else FAILED
    case Word(rest) =>
      if rest != [] && c == rest[0] && 97 <= c <= 122
      then Scan(if |rest| == 1 then WordEnd else Word(rest[1..]), stack)
      else FAILED
    case _ => FAILED
  }

  function Step(st: Scan, c: byte): Scan {
    var m, stack := st.mode, st.stack;
    if InString(m) then StringStep(m, stack, c)
    else if m.After? then AfterValue(stack, c)
    else if IsTail(m) then
      if Prolong(m, c).Some? then Scan(Prolong(m, c).value, stack)
      else if m.Zero? && IsDigit(c) then FAILED
      else AfterValue(stack, c)
    else if m.Value? then if IsWs(c) then st else StartValue(stack, c)
    else if m.FirstItem? then
      if IsWs(c) then st
      else if c == RBRACKET then AfterValue(stack, c)
      else StartValue(stack, c)
    else if m.FirstKey? then
      if IsWs(c) then st
      else if c == RBRACE then AfterValue(stack, c)
      else if c == QUOTE then Scan(Str(true), stack) else FAILED
    else if m.NextKey? then
      if IsWs(c) then st else if c == QUOTE then Scan(Str(true), stack) else FAILED
    else if m.Colon? then
      if IsWs(c) then st else if c == COLON then Scan(Value, stack) else FAILED
    else TokenStep(m, stack, c)
  }

  function Run(st: Scan, w: bytes): Scan
    decreases |w|
  {
    if w == [] then st else Run(Step(st, w[0]), w[1..])
  }

  predicate Accepting(st: Scan) { st.stack == [] && Complete(st.mode) }

  /** `w` is a JSON text: one value with any white space around it. */
  predicate IsJson(w: bytes) { Accepting(Run(INIT, w)) }

  // --- Runs ---------------------------------------------------------------------

  lemma {:induction false} RunConcat(st: Scan, a: bytes, b: bytes)
    ensures Run(st, a + b) == Run(Run(st, a), b)
    decreases |a|
  {
    if a == [] {
      assert a + b == b;
    } else {
      assert (a + b)[1..] == a[1..] + b;
      RunConcat(Step(st, a[0]), a[1..], b);
    }
  }

  lemma {:induction false} RunFailed(w: bytes)
    ensures Run(FAILED, w) == FAILED
    decreases |w|
  {
    if w != [] {
      RunFailed(w[1..]);
    }
  }

  /** Step by step, `w` split at `k`. */
  lemma RunSplit(st: Scan, w: bytes, k: nat)
    requires k <= |w|
    ensures Run(st, w) == Run(Run(st, w[..k]), w[k..])
  {
    assert w == w[..k] + w[k..];
    RunConcat(st, w[..k], w[k..]);
  }

  lemma RunSnoc(st: Scan, w: bytes, c: byte)
    ensures Run(st, w + [c]) == Step(Run(st, w), c)
  {
    RunConcat(st, w, [c]);
    assert Run(Run(st, w), [c]) == Run(Step(Run(st, w), c), []);
  }

  lemma {:induction false} RunWs(st: Scan, w: bytes)
    requires AllWs(w)
    requires st.mode.Value? || st.mode.FirstItem? || st.mode.FirstKey? || st.mode.Colon? || st.mode.After?
    ensures Run(st, w) == st
    decreases |w|
  {
    if w != [] {
      assert IsWs(w[0]);
      assert Step(st, w[0]) == st;
      RunWs(st, w[1..]);
    }
  }
}
