/** The `"id"` of a book, read from the first bytes of its line without parsing the rest. */
module BookId {
  import opened Bytes
  import opened Wrappers

  /** The bytes of `"id"`, quotes included. */
  const ID_KEY: bytes := [QUOTE, 105, 100, QUOTE]

  const U32_MAX: nat := 0xFFFF_FFFF

  /** The digits of an id and everything after them. */
  datatype IdField = IdField(digits: bytes, rest: bytes) {
    predicate Valid() {
      digits != [] && AllDigits(digits) && (rest != [] ==> !IsDigit(rest[0]))
    }
  }

  predicate AllDigits(s: bytes) { forall k :: 0 <= k < |s| ==> IsDigit(s[k]) }

  function TakeDigits(s: bytes): (d: bytes)
    ensures |d| <= |s|
  {
    if s != [] && IsDigit(s[0]) then [s[0]] + TakeDigits(s[1..]) else []
  }

  function DigitValue(c: byte): nat { if IsDigit(c) then (c - ZERO) as nat else 0 }

  function DecimalValue(ds: bytes): nat {
    if ds == [] then 0 else 10 * DecimalValue(ds[..|ds| - 1]) + DigitValue(ds[|ds| - 1])
  }

  /** What follows `token` when `s`, white space skipped, starts with it. */
  function Expect(s: bytes, token: bytes): (r: Option<bytes>) {
    var a := TrimLeft(s);
    if token <= a then Some(a[|token|..]) else None
  }

  function ExpectDigits(s: bytes): Option<IdField> {
    var d := TrimLeft(s);
    var ds := TakeDigits(d);
    if ds == [] then None else Some(IdField(ds, d[|ds|..]))
  }

  /** Scans `{"id":N`, white space allowed between the tokens. */
  function FindId(s: bytes): Option<IdField> {
    var a := Expect(s, [LBRACE]);
    if a.None? then None
    else
      var b := Expect(a.value, ID_KEY);
      if b.None? then None
      else
        var c := Expect(b.value, [COLON]);
        if c.None? then None else ExpectDigits(c.value)
  }

  /** The id as `parse::<u32>` gives it: a number over 32 bits reads as no id. */
  function ReadIdField(s: bytes): (r: Option<nat>)
    ensures r.Some? ==> r.value <= U32_MAX
  {
    match FindId(s)
    case None => None
    case Some(f) => if DecimalValue(f.digits) <= U32_MAX then Some(DecimalValue(f.digits)) else None
  }

  // --- The scan recognises exactly one shape -------------------------------------

  /** White space, `token`, then `rest`. */
  ghost predicate Prefixed(s: bytes, w: bytes, token: bytes, rest: bytes) {
    AllWs(w) && s == w + (token + rest)
  }

  /** `s` is `{`, `"id"`, `:` and digits, each after any white space, then `f.rest`. */
  ghost predicate IdShape(s: bytes, w: seq<bytes>, a: bytes, b: bytes, c: bytes, f: IdField) {
    && |w| == 4
    && Prefixed(s, w[0], [LBRACE], a) && Prefixed(a, w[1], ID_KEY, b)
    && Prefixed(b, w[2], [COLON], c) && Prefixed(c, w[3], f.digits, f.rest)
    && f.Valid()
  }

  lemma {:induction false} TakeDigitsOf(ds: bytes, rest: bytes)
    requires AllDigits(ds) && (rest != [] ==> !IsDigit(rest[0]))
    ensures TakeDigits(ds + rest) == ds
  {
    if ds == [] {
      assert ds + rest == rest;
    } else {
      assert (ds + rest)[1..] == ds[1..] + rest;
      TakeDigitsOf(ds[1..], rest);
    }
  }

  lemma {:induction false} TakeDigitsSplits(s: bytes) returns (rest: bytes)
    ensures AllDigits(TakeDigits(s)) && s == TakeDigits(s) + rest
    ensures rest == s[|TakeDigits(s)|..]
    ensures rest != [] ==> !IsDigit(rest[0])
  {
    rest := s;
    if s != [] && IsDigit(s[0]) {
      rest := TakeDigitsSplits(s[1..]);
    }
  }

  /** Both directions of `Expect`. */
  lemma ExpectPrefixed(s: bytes, w: bytes, token: bytes, rest: bytes)
    requires Prefixed(s, w, token, rest) && token != [] && !IsWs(token[0])
    ensures Expect(s, token) == Some(rest)
  {
    TrimLeftSkips(w, token + rest);
  }

  lemma PrefixedOfExpect(s: bytes, token: bytes) returns (w: bytes)
    requires Expect(s, token).Some?
    ensures Prefixed(s, w, token, Expect(s, token).value)
  {
    w := TrimLeftSplits(s);
    assert TrimLeft(s) == token + Expect(s, token).value;
  }

  lemma DigitsPrefixed(c: bytes, w: bytes, f: IdField)
    requires Prefixed(c, w, f.digits, f.rest) && f.Valid()
    ensures ExpectDigits(c) == Some(f)
  {
    TrimLeftSkips(w, f.digits + f.rest);
    assert !IsWs((f.digits + f.rest)[0]) by {
      assert IsDigit(f.digits[0]);
    }
    TakeDigitsOf(f.digits, f.rest);
  }

  lemma PrefixedOfDigits(c: bytes) returns (w: bytes)
    requires ExpectDigits(c).Some?
    ensures var f := ExpectDigits(c).value; Prefixed(c, w, f.digits, f.rest) && f.Valid()
  {
    w := TrimLeftSplits(c);
    var rest := TakeDigitsSplits(TrimLeft(c));
  }

  /** Completeness: every text of the shape yields its own digits. */
  lemma FindIdOfShape(s: bytes, w: seq<bytes>, a: bytes, b: bytes, c: bytes, f: IdField)
    requires IdShape(s, w, a, b, c, f)
    ensures FindId(s) == Some(f)
  {
    ExpectPrefixed(s, w[0], [LBRACE], a);
    ExpectPrefixed(a, w[1], ID_KEY, b);
    ExpectPrefixed(b, w[2], [COLON], c);
    DigitsPrefixed(c, w[3], f);
  }

  /** Soundness: an id is found only in a text of the shape. */
  lemma ShapeOfFindId(s: bytes) returns (w: seq<bytes>, a: bytes, b: bytes, c: bytes)
    requires FindId(s).Some?
    ensures IdShape(s, w, a, b, c, FindId(s).value)
  {
    a := Expect(s, [LBRACE]).value;
    b := Expect(a, ID_KEY).value;
    c := Expect(b, [COLON]).value;
    var w0 := PrefixedOfExpect(s, [LBRACE]);
    var w1 := PrefixedOfExpect(a, ID_KEY);
    var w2 := PrefixedOfExpect(b, [COLON]);
    var w3 := PrefixedOfDigits(c);
    w := [w0, w1, w2, w3];
  }

  // --- What the scan depends on ------------------------------------------------

  lemma PrefixedCut(s: bytes, w: bytes, token: bytes, rest: bytes, v: bytes) returns (s0: bytes)
    requires Prefixed(s, w, token, rest + v)
    ensures s == s0 + v && Prefixed(s0, w, token, rest)
  {
    s0 := w + (token + rest);
  }

  lemma ValidAppend(f: IdField, v: bytes) returns (g: IdField)
    requires f.Valid()
    ensures g.Valid() && g.digits + g.rest == f.digits + (f.rest + v)
    ensures f.rest != [] ==> g == IdField(f.digits, f.rest + v)
    ensures f.rest == [] ==> g == IdField(f.digits + TakeDigits(v), v[|TakeDigits(v)|..])
  {
    if f.rest != [] {
      g := IdField(f.digits, f.rest + v);
    } else {
      var r := TakeDigitsSplits(v);
      g := IdField(f.digits + TakeDigits(v), r);
      assert g.digits + g.rest == f.digits + (TakeDigits(v) + r);
    }
  }

  /** More bytes after the digits change nothing; right after the digits they may lengthen them. */
  lemma FindIdAppend(u: bytes, v: bytes)
    requires FindId(u).Some?
    ensures var f := FindId(u).value;
      FindId(u + v) == Some(
        if f.rest != [] then IdField(f.digits, f.rest + v)
        else IdField(f.digits + TakeDigits(v), v[|TakeDigits(v)|..]))
  {
    var f := FindId(u).value;
    var w, a, b, c := ShapeOfFindId(u);
    var g := ValidAppend(f, v);
    FindIdOfShape(u + v, w, a + v, b + v, c + v, g);
  }

  /** Cutting bytes that follow the digits leaves the digits as they were. */
  lemma FindIdCut(u: bytes, v: bytes)
    requires FindId(u + v).Some? && |FindId(u + v).value.rest| >= |v|
    ensures FindId(u).Some? && FindId(u).value.digits == FindId(u + v).value.digits
  {
    var f := FindId(u + v).value;
    var w, a, b, c := ShapeOfFindId(u + v);
    var rest := RestSplits(u + v, w, a, b, c, f, |v|);
    assert (u + v)[|u + v| - |v|..] == v;
    var c0 := PrefixedCut(c, w[3], f.digits, rest, v);
    var b0 := PrefixedCut(b, w[2], [COLON], c0, v);
    var a0 := PrefixedCut(a, w[1], ID_KEY, b0, v);
    var u0 := PrefixedCut(u + v, w[0], [LBRACE], a0, v);
    assert u0 == (u + v)[..|u|] == u;
    FindIdOfShape(u, w, a0, b0, c0, IdField(f.digits, rest));
  }

  /** The last `n` bytes of the text are the last of what follows the digits. */
  lemma RestSplits(s: bytes, w: seq<bytes>, a: bytes, b: bytes, c: bytes, f: IdField, n: nat) returns (rest: bytes)
    requires IdShape(s, w, a, b, c, f) && n <= |f.rest|
    ensures n <= |s| && f.rest == rest + s[|s| - n..]
    ensures rest != [] ==> rest[0] == f.rest[0]
  {
    rest := f.rest[..|f.rest| - n];
    assert |f.rest| <= |s| && f.rest == s[|s| - |f.rest|..];
    TailOfTail(s, |f.rest|, n);
  }

  lemma TailOfTail(s: bytes, k: nat, n: nat)
    requires n <= k <= |s|
    ensures s[|s| - k..] == s[|s| - k..][..k - n] + s[|s| - n..]
  {
  }

  /** The only bytes the scan consumes. */
  predicate InIdAlphabet(c: byte) {
    IsWs(c) || IsDigit(c) || c == LBRACE || c == COLON || c == QUOTE || c == 105 || c == 100
  }

  /** `s` up to its suffix of length `n` is made of bytes of the alphabet. */
  ghost predicate Consumed(s: bytes, n: nat) {
    forall i :: 0 <= i < |s| - n ==> InIdAlphabet(s[i])
  }

  /** Up to the end of the digits, the scan crosses bytes of its alphabet only. */
  lemma FindIdConsumes(s: bytes)
    requires FindId(s).Some?
    ensures Consumed(s, |FindId(s).value.rest|) && |FindId(s).value.rest| <= |s|
  {
    var f := FindId(s).value;
    var w, a, b, c := ShapeOfFindId(s);
  }

  /** A prefix that reaches past a byte outside the alphabet decides the id. */
  lemma ReadIdDecidedBy(u: bytes, v: bytes, stop: nat)
    requires stop < |u| && !InIdAlphabet(u[stop])
    ensures ReadIdField(u + v) == ReadIdField(u)
  {
    assert (u + v)[stop] == u[stop];
    if FindId(u).Some? {
      FindIdConsumes(u);
      FindIdAppend(u, v);
    }
    if FindId(u + v).Some? {
      FindIdConsumes(u + v);
      FindIdCut(u, v);
    }
  }

  /** Leading white space never matters. */
  lemma ReadIdSkipsWs(w: bytes, s: bytes)
    requires AllWs(w)
    ensures ReadIdField(w + s) == ReadIdField(s)
  {
    TrimLeftSkips(w, s);
    assert Expect(w + s, [LBRACE]) == Expect(s, [LBRACE]);
  }

  // --- The loops ------------------------------------------------------------------

  method SkipWs(s: bytes, from: nat) returns (i: nat)
    requires from <= |s|
    ensures from <= i <= |s| && s[i..] == TrimLeft(s[from..])
  {
    i := from;
    while i < |s| && IsWs(s[i])
      invariant from <= i <= |s|
      invariant TrimLeft(s[i..]) == TrimLeft(s[from..])
    {
      assert s[i..][1..] == s[i + 1..];
      i := i + 1;
    }
  }

  method SkipDigits(s: bytes, from: nat) returns (end: nat)
    requires from <= |s|
    ensures from <= end <= |s| && s[from..end] == TakeDigits(s[from..])
    ensures s[end..] == s[from..][|TakeDigits(s[from..])|..]
  {
    end := from;
    while end < |s| && IsDigit(s[end])
      invariant from <= end <= |s|
      invariant forall k :: from <= k < end ==> IsDigit(s[k])
    {
      end := end + 1;
    }
    assert s[from..] == s[from..end] + s[end..];
    TakeDigitsOf(s[from..end], s[end..]);
  }

  /** `token` in the slice, after white space from `from`. */
  method SkipToken(s: bytes, from: nat, token: bytes) returns (next: Option<nat>)
    requires from <= |s|
    ensures match next
      case None => Expect(s[from..], token).None?
      case Some(n) => n <= |s| && Expect(s[from..], token) == Some(s[n..])
  {
    var i := SkipWs(s, from);
    if |s| - i >= |token| && s[i..i + |token|] == token {
      assert s[i..] == token + s[i + |token|..];
      return Some(i + |token|);
    }
    next := None;
  }

  method ReadId(s: bytes) returns (r: Option<nat>)
    ensures r == ReadIdField(s)
  {
    assert s[0..] == s;
    var brace := SkipToken(s, 0, [LBRACE]);
    if brace.None? { return None; }
    var key := SkipToken(s, brace.value, ID_KEY);
    if key.None? { return None; }
    var colon := SkipToken(s, key.value, [COLON]);
    if colon.None? { return None; }
    var start := SkipWs(s, colon.value);
    var end := SkipDigits(s, start);
    if end == start { return None; }
    var value := DecimalValue(s[start..end]);
    r := if value <= U32_MAX then Some(value) else None;
  }
}
