/** Whatever the recogniser accepts is the printing of a tree. */
module GrammarParse {
  import opened Bytes
  import opened BookId
  import opened Wrappers
  import opened Json
  import opened JsonItems
  import opened JsonStream
  import opened Grammar
  import opened GrammarText

  // --- Strings -----------------------------------------------------------------------------------

  /** The scan got out of its string. */
  predicate OutOfString(st: Scan) { st != FAILED && !InString(st.mode) }

  lemma {:induction false} ParseHex(key: bool, stack: seq<Frame>, left: nat, w: bytes)
    requires OutOfString(Run(Scan(Hex(key, left), stack), w))
    ensures left < |w| && forall k :: 0 <= k <= left ==> HexDigit(w[k])
    ensures Run(Scan(Hex(key, left), stack), w) == Run(Scan(Str(key), stack), w[left + 1..])
    decreases left
  {
    if w == [] || !HexDigit(w[0]) {
      if w != [] { RunFailed(w[1..]); }
    } else if left > 0 {
      ParseHex(key, stack, left - 1, w[1..]);
      assert w[1..][left..] == w[left + 1..];
      assert forall k :: 0 < k <= left ==> w[k] == w[1..][k - 1];
    }
  }

  lemma ParseChar(key: bool, stack: seq<Frame>, w: bytes) returns (c: Char, rest: bytes)
    requires w != [] && w[0] != 34 && OutOfString(Run(Scan(Str(key), stack), w))
    ensures ValidChar(c) && w == PrintChar(c) + rest && |rest| < |w|
    ensures Run(Scan(Str(key), stack), w) == Run(Scan(Str(key), stack), rest)
  {
    if w[0] == 92 {
      c, rest := ParseEscape(key, stack, w);
    } else {
      if w[0] < 32 { RunFailed(w[1..]); }
      c, rest := Plain(w[0]), w[1..];
    }
  }

  lemma ParseEscape(key: bool, stack: seq<Frame>, w: bytes) returns (c: Char, rest: bytes)
    requires w != [] && w[0] == 92 && OutOfString(Run(Scan(Str(key), stack), w))
    ensures ValidChar(c) && w == PrintChar(c) + rest && |rest| < |w|
    ensures Run(Scan(Str(key), stack), w) == Run(Scan(Str(key), stack), rest)
  {
    var v := w[1..];
    assert Run(Scan(Str(key), stack), w) == Run(Scan(Esc(key), stack), v);
    assert v != [];
    var next := Step(Scan(Esc(key), stack), v[0]);
    if v[0] == 117 {
      assert next == Scan(Hex(key, 3), stack);
      ParseHex(key, stack, 3, v[1..]);
      var h := v[1..][..4];
      c, rest := Unicode(h), v[1..][4..];
      assert w == [92, 117] + v[1..];
    } else {
      if !IsSimpleEscape(v[0]) { RunFailed(v[1..]); }
      c, rest := Escape(v[0]), v[1..];
      assert w == [92, v[0]] + rest;
    }
  }

  lemma MoreChars(w: bytes, c: Char, more: bytes, cs: seq<Char>, rest: bytes)
    requires w == PrintChar(c) + more && more == PrintChars(cs) + ([34] + rest)
    ensures w == PrintChars([c] + cs) + ([34] + rest)
  {
    assert ([c] + cs)[1..] == cs;
    assert w == PrintChar(c) + PrintChars(cs) + ([34] + rest);
  }

  lemma NoChars(w: bytes)
    requires w != [] && w[0] == 34
    ensures w == PrintChars([]) + ([34] + w[1..])
  {
  }

  /** Up to the closing quote. */
  lemma {:induction false} ParseChars(key: bool, stack: seq<Frame>, w: bytes) returns (cs: seq<Char>, rest: bytes)
    requires OutOfString(Run(Scan(Str(key), stack), w))
    ensures ValidChars(cs) && w == PrintChars(cs) + ([34] + rest)
    ensures Run(Scan(Str(key), stack), w) == Run(Scan(if key then Mode.Colon else After, stack), rest)
    decreases |w|
  {
    if w[0] == 34 {
      NoChars(w);
      cs, rest := [], w[1..];
    } else {
      var c, more := ParseChar(key, stack, w);
      cs, rest := ParseChars(key, stack, more);
      MoreChars(w, c, more, cs, rest);
      cs := [c] + cs;
    }
  }

  // --- Numbers -----------------------------------------------------------------------------------

  /** A number that nothing prolongs is followed by white space alone. */
  lemma NumberEnds(m: Mode, w: bytes)
    requires IsTail(m) && Accepting(Run(Scan(m, []), w)) && (w != [] ==> Prolong(m, w[0]).None?)
    ensures AllWs(w)
  {
    if w != [] {
      if !IsWs(w[0]) { RunFailed(w[1..]); }
      assert Step(Scan(m, []), w[0]) == Scan(After, []);
      AfterRunIsBlank(w[1..]);
      assert w == [w[0]] + w[1..];
    }
  }

  lemma ParseDigits(m: Mode, w: bytes) returns (ds: bytes, rest: bytes)
    requires m.Int? || m.Frac? || m.ExpInt?
    ensures w == ds + rest && (forall k :: 0 <= k < |ds| ==> 48 <= ds[k] <= 57) && (rest != [] ==> !IsDigit(rest[0]))
    ensures Run(Scan(m, []), w) == Run(Scan(m, []), rest)
  {
    ds := TakeDigits(w);
    rest := TakeDigitsSplits(w);
    assert forall k :: 0 <= k < |ds| ==> IsDigit(ds[k]);
    RunConcat(Scan(m, []), ds, rest);
    RunDigits(m, ds);
  }

  /** At least one digit, when the state before fails on anything else. */
  lemma ParseSomeDigits(st: Scan, m: Mode, w: bytes) returns (ds: bytes, rest: bytes)
    requires (m.Int? || m.Frac? || m.ExpInt?) && w != [] && IsDigit(w[0]) && Step(st, w[0]) == Scan(m, [])
    ensures w == ds + rest && SomeDigits(ds) && ds[0] == w[0] && (rest != [] ==> !IsDigit(rest[0]))
    ensures Run(st, w) == Run(Scan(m, []), rest)
  {
    var more;
    more, rest := ParseDigits(m, w[1..]);
    ds := [w[0]] + more;
  }

  lemma ParseExponent(m: Mode, w: bytes) returns (e: Option<Exponent>, z: bytes)
    requires m.Zero? || m.Int? || m.Frac?
    requires Accepting(Run(Scan(m, []), w))
    requires w != [] ==> !IsDigit(w[0]) && (w[0] == 46 ==> m.Frac?)
    ensures w == PrintExponent(e) + z && AllWs(z) && (e.Some? ==> ValidExponent(e.value))
  {
    if w == [] || !IsExp(w[0]) {
      NumberEnds(m, w);
      e, z := None, w;
      assert w == [] + z;
    } else {
      var sign, digits;
      sign, digits, z := ParseSign(w[1..]);
      e := Some(Exponent(w[0], sign, digits));
      assert w == [w[0]] + (sign + digits) + z;
    }
  }

  lemma ParseSign(w: bytes) returns (sign: bytes, digits: bytes, z: bytes)
    requires Accepting(Run(Scan(Exp, []), w))
    ensures w == sign + digits + z && (sign == [] || sign == [43] || sign == [45]) && SomeDigits(digits) && AllWs(z)
  {
    assert w != [];
    if w[0] == 43 || w[0] == 45 {
      var v := w[1..];
      assert Run(Scan(ExpSign, []), v) == Run(Scan(Exp, []), w);
      assert v != [];
      if !IsDigit(v[0]) { RunFailed(v[1..]); }
      sign := [w[0]];
      digits, z := ParseSomeDigits(Scan(ExpSign, []), ExpInt, v);
      assert w == [w[0]] + v;
    } else {
      if !IsDigit(w[0]) { RunFailed(w[1..]); }
      sign := [];
      digits, z := ParseSomeDigits(Scan(Exp, []), ExpInt, w);
      assert [] + digits == digits;
    }
    NumberEnds(ExpInt, z);
  }

  lemma ParseAfterDot(v: bytes) returns (digits: bytes, e: Option<Exponent>, z: bytes)
    requires Accepting(Run(Scan(Dot, []), v))
    ensures v == digits + (PrintExponent(e) + z) && AllWs(z) && SomeDigits(digits)
    ensures e.Some? ==> ValidExponent(e.value)
  {
    assert v != [];
    if !IsDigit(v[0]) { RunFailed(v[1..]); }
    var rest;
    digits, rest := ParseSomeDigits(Scan(Dot, []), Frac, v);
    e, z := ParseExponent(Frac, rest);
  }

  lemma ParseFraction(m: Mode, w: bytes) returns (f: Option<bytes>, e: Option<Exponent>, z: bytes)
    requires m.Zero? || m.Int?
    requires Accepting(Run(Scan(m, []), w)) && (w != [] ==> !IsDigit(w[0]))
    ensures w == PrintFraction(f) + (PrintExponent(e) + z) && AllWs(z)
    ensures (f.Some? ==> SomeDigits(f.value)) && (e.Some? ==> ValidExponent(e.value))
  {
    if w != [] && w[0] == 46 {
      assert Run(Scan(Dot, []), w[1..]) == Run(Scan(m, []), w);
      var digits;
      digits, e, z := ParseAfterDot(w[1..]);
      f := Some(digits);
      DotSplits(w, digits, PrintExponent(e) + z);
    } else {
      e, z := ParseExponent(m, w);
      f := None;
      assert w == [] + w;
    }
  }

  lemma DotSplits(w: bytes, digits: bytes, rest: bytes)
    requires w != [] && w[0] == 46 && w[1..] == digits + rest
    ensures w == [46] + digits + rest
  {
  }

  lemma ParseWhole(st: Scan, w: bytes) returns (whole: bytes, f: Option<bytes>, e: Option<Exponent>, z: bytes)
    requires (st == INIT || st == Scan(Minus, [])) && w != [] && IsDigit(w[0]) && Accepting(Run(st, w))
    ensures w == whole + (PrintFraction(f) + (PrintExponent(e) + z)) && AllWs(z)
    ensures SomeDigits(whole) && (|whole| > 1 ==> whole[0] != 48)
    ensures (f.Some? ==> SomeDigits(f.value)) && (e.Some? ==> ValidExponent(e.value))
  {
    var rest;
    if w[0] == 48 {
      whole, rest := [48], w[1..];
      assert Run(st, w) == Run(Scan(Zero, []), rest);
      if rest != [] && IsDigit(rest[0]) { RunFailed(rest[1..]); }
      f, e, z := ParseFraction(Zero, rest);
      assert w == [48] + rest;
    } else {
      whole, rest := ParseSomeDigits(st, Int, w);
      f, e, z := ParseFraction(Int, rest);
    }
  }

  lemma Append(a: bytes, b: bytes, c: bytes, d: bytes, z: bytes)
    ensures a + (b + (c + (d + z))) == a + (b + (c + d)) + z
  {
  }

  lemma NumberSplits(minus: bool, whole: bytes, f: Option<bytes>, e: Option<Exponent>, z: bytes)
    ensures (if minus then [45] else []) + (whole + (PrintFraction(f) + (PrintExponent(e) + z)))
         == PrintNumber(Number(minus, whole, f, e)) + z
  {
    Append(if minus then [45] else [], whole, PrintFraction(f), PrintExponent(e), z);
  }

  lemma ParseNumber(x: bytes) returns (n: Number, z: bytes)
    requires x != [] && (x[0] == 45 || IsDigit(x[0])) && IsJson(x)
    ensures ValidNumber(n) && AllWs(z) && x == PrintNumber(n) + z
  {
    var whole, f, e;
    var minus := x[0] == 45;
    if minus {
      var v := x[1..];
      assert Run(INIT, x) == Run(Scan(Minus, []), v);
      assert v != [];
      if !IsDigit(v[0]) { RunFailed(v[1..]); }
      whole, f, e, z := ParseWhole(Scan(Minus, []), v);
      assert x == [45] + v;
    } else {
      whole, f, e, z := ParseWhole(INIT, x);
      assert x == [] + x;
    }
    n := Number(minus, whole, f, e);
    NumberSplits(minus, whole, f, e, z);
  }

  // --- Literals ----------------------------------------------------------------------------------

  lemma {:induction false} ParseWord(rest: bytes, w: bytes) returns (z: bytes)
    requires rest != [] && Accepting(Run(Scan(Word(rest), []), w))
    ensures w == rest + z && AllWs(z)
    decreases |rest|
  {
    assert w != [];
    if w[0] != rest[0] || !(97 <= w[0] <= 122) { RunFailed(w[1..]); }
    if |rest| == 1 {
      z := w[1..];
      NumberEnds(WordEnd, z);
      assert w == [w[0]] + z;
    } else {
      z := ParseWord(rest[1..], w[1..]);
      assert w == [w[0]] + w[1..] && rest == [rest[0]] + rest[1..];
    }
  }

  lemma ParseWordFrom(x: bytes, rest: bytes) returns (z: bytes)
    requires x != [] && Step(INIT, x[0]) == Scan(Word(rest), []) && rest != [] && IsJson(x)
    ensures AllWs(z) && x == [x[0]] + rest + z
  {
    z := ParseWord(rest, x[1..]);
    assert x == [x[0]] + x[1..];
  }

  lemma ParseLiteral(x: bytes) returns (t: Tree, z: bytes)
    requires x != [] && (x[0] == 110 || x[0] == 116 || x[0] == 102) && IsJson(x)
    ensures ValidTree(t) && AllWs(z) && x == PrintTree(t) + z
  {
    if x[0] == 110 {
      z := ParseWordFrom(x, ULL);
      t := Null;
      assert PrintTree(t) == [x[0]] + ULL;
    } else if x[0] == 116 {
      z := ParseWordFrom(x, RUE);
      t := True;
      assert PrintTree(t) == [x[0]] + RUE;
    } else {
      z := ParseWordFrom(x, ALSE);
      t := False;
      assert PrintTree(t) == [x[0]] + ALSE;
    }
  }

  // --- Objects -----------------------------------------------------------------------------------

  lemma KeyWs(m: Mode, w: bytes) returns (before: bytes, x: bytes)
    requires (m.FirstKey? || m.NextKey? || m.Colon?) && Accepting(Run(Scan(m, [InObject]), w))
    ensures Blank(before) && w == before + x && x != [] && !IsWs(x[0])
    ensures Run(Scan(m, [InObject]), w) == Run(Scan(m, [InObject]), x)
  {
    before := TrimLeftSplits(w);
    x := TrimLeft(w);
    BlankIsWs(before);
    RunConcat(Scan(m, [InObject]), before, x);
    RunKeyWs(m, [InObject], before);
  }

  /** White space and a quoted name. */
  lemma ParseQuoted(m: Mode, w: bytes) returns (before: bytes, name: seq<Char>, x: bytes, v: bytes)
    requires (m.FirstKey? || m.NextKey?) && Accepting(Run(Scan(m, [InObject]), w))
    requires TrimLeft(w) != [] && TrimLeft(w)[0] != RBRACE
    ensures Blank(before) && ValidChars(name) && w == before + x && x != [] && x[0] == 34
    ensures x[1..] == PrintChars(name) + ([34] + v)
    ensures Run(Scan(m, [InObject]), w) == Run(Scan(Mode.Colon, [InObject]), v)
  {
    before, x := KeyWs(m, w);
    BlankIsWs(before);
    TrimLeftSkips(before, x);
    assert x[0] == 34 by { if x[0] != 34 { RunFailed(x[1..]); } }
    assert Run(Scan(Str(true), [InObject]), x[1..]) == Run(Scan(m, [InObject]), x);
    name, v := ParseChars(true, [InObject], x[1..]);
  }

  /** White space and a colon. */
  lemma ParseColon(v: bytes) returns (between: bytes, y: bytes)
    requires Accepting(Run(Scan(Mode.Colon, [InObject]), v))
    ensures Blank(between) && v == between + y && y != [] && y[0] == 58
    ensures Run(Scan(Mode.Colon, [InObject]), v) == Run(Scan(Value, [InObject]), y[1..])
  {
    between, y := KeyWs(Mode.Colon, v);
    assert y[0] == 58 by { if y[0] != 58 { RunFailed(y[1..]); } }
  }

  /** A name and its colon. */
  lemma ParseName(m: Mode, w: bytes) returns (before: bytes, name: seq<Char>, between: bytes, rest: bytes)
    requires (m.FirstKey? || m.NextKey?) && Accepting(Run(Scan(m, [InObject]), w))
    requires TrimLeft(w) != [] && TrimLeft(w)[0] != RBRACE
    ensures Blank(before) && ValidChars(name) && Blank(between)
    ensures w == before + Quoted(name) + between + [58] + rest
    ensures Run(Scan(m, [InObject]), w) == Run(Scan(Value, [InObject]), rest)
  {
    var x, v, y;
    before, name, x, v := ParseQuoted(m, w);
    between, y := ParseColon(v);
    rest := y[1..];
    NameSplits(w, before, name, between, x, v, y);
  }

  lemma NameSplits(w: bytes, before: bytes, name: seq<Char>, between: bytes, x: bytes, v: bytes, y: bytes)
    requires w == before + x && x != [] && x[0] == 34 && x[1..] == PrintChars(name) + ([34] + v)
    requires v == between + y && y != [] && y[0] == 58
    ensures w == before + Quoted(name) + between + [58] + y[1..]
  {
    assert x == [34] + x[1..] && y == [58] + y[1..];
    assert x == Quoted(name) + v;
  }

  /** The value of a member and the byte after it. */
  lemma ParseMemberValue(w: bytes) returns (value: bytes, c: byte, rest: bytes)
    requires Accepting(Run(Scan(Value, [InObject]), w))
    ensures IsJson(value) && w == value + [c] + rest && (c == COMMA || c == RBRACE)
    ensures Run(Scan(Value, [InObject]), w)
         == Run(if c == COMMA then Scan(NextKey, [InObject]) else Scan(After, []), rest)
  {
    assert Lift(INIT, [InObject]) == Scan(Value, [InObject] + []) && [InObject] + [] == [InObject];
    var n := ValueEnds(INIT, [InObject], w);
    value, c, rest := w[..n], w[n], w[n + 1..];
    assert w == value + [c] + rest;
    RunMemberValue([], value, c);
    assert [] + [InObject] == [InObject];
    RunConcat(Scan(Value, [InObject]), value + [c], rest);
    RunFailed(rest);
  }

  /** After a comma a name must come. */
  lemma NextKeyOpens(w: bytes)
    requires Accepting(Run(Scan(NextKey, [InObject]), w))
    ensures TrimLeft(w) != [] && TrimLeft(w)[0] != RBRACE
  {
    var before, x := KeyWs(NextKey, w);
    BlankIsWs(before);
    TrimLeftSkips(before, x);
    if x[0] == RBRACE { RunFailed(x[1..]); }
  }

  lemma {:induction false} MembersCons(m: Member, members: seq<Member>)
    requires members != []
    ensures PrintMembers([m] + members) == PrintMember(m) + [44] + PrintMembers(members)
  {
    assert ([m] + members)[1..] == members;
  }

  lemma MemberSplits(before: bytes, name: seq<Char>, between: bytes, item: Item, w: bytes, c: byte, rest: bytes,
                     more: bytes)
    requires w == before + Quoted(name) + between + [58] + more && more == PrintItem(item) + [c] + rest
    ensures w == PrintMember(Member(before, name, between, item)) + [c] + rest
  {
  }

  /** One member and the byte after it. */
  lemma {:induction false} ParseMember(m: Mode, w: bytes) returns (member: Member, c: byte, rest: bytes)
    requires (m.FirstKey? || m.NextKey?) && Accepting(Run(Scan(m, [InObject]), w))
    requires TrimLeft(w) != [] && TrimLeft(w)[0] != RBRACE
    ensures ValidMember(member) && w == PrintMember(member) + [c] + rest && (c == COMMA || c == RBRACE)
    ensures Run(Scan(m, [InObject]), w)
         == Run(if c == COMMA then Scan(NextKey, [InObject]) else Scan(After, []), rest)
    decreases |w|, 4
  {
    var before, name, between, more := ParseName(m, w);
    var value;
    value, c, rest := ParseMemberValue(more);
    var item := Parse(value);
    member := Member(before, name, between, item);
    MemberSplits(before, name, between, item, w, c, rest, more);
  }

  lemma {:induction false} ManySplit(w: bytes, member: Member, rest: bytes, members: seq<Member>, post: bytes)
    requires w == PrintMember(member) + [44] + rest && members != []
    requires rest == PrintMembers(members) + [125] + post
    ensures w == PrintMembers([member] + members) + [125] + post
  {
    MembersCons(member, members);
    assert w == PrintMember(member) + [44] + PrintMembers(members) + [125] + post;
  }

  /** The members of an object, up to its brace. */
  lemma {:induction false} ParseMembers(m: Mode, w: bytes) returns (members: seq<Member>, post: bytes)
    requires (m.FirstKey? || m.NextKey?) && Accepting(Run(Scan(m, [InObject]), w))
    requires TrimLeft(w) != [] && TrimLeft(w)[0] != RBRACE
    ensures members != [] && forall i :: 0 <= i < |members| ==> ValidMember(members[i])
    ensures w == PrintMembers(members) + [125] + post && Run(Scan(m, [InObject]), w) == Run(Scan(After, []), post)
    decreases |w|, 5
  {
    var member, c, rest := ParseMember(m, w);
    if c == COMMA {
      NextKeyOpens(rest);
      members, post := ParseMembers(NextKey, rest);
      ManySplit(w, member, rest, members, post);
      members := [member] + members;
    } else {
      members, post := [member], rest;
    }
  }

  /** Past the opening brace, and the white space after it. */
  lemma OpenObject(x: bytes) returns (blank: bytes, y: bytes)
    requires x != [] && x[0] == LBRACE && IsJson(x)
    ensures Accepting(Run(Scan(FirstKey, [InObject]), x[1..])) && x[1..] == blank + y && TrimLeft(x[1..]) == y
    ensures Blank(blank) && y != [] && !IsWs(y[0]) && Accepting(Run(Scan(FirstKey, [InObject]), y))
  {
    assert Step(INIT, LBRACE) == Scan(FirstKey, [] + [InObject]) && [] + [InObject] == [InObject];
    blank, y := KeyWs(FirstKey, x[1..]);
    BlankIsWs(blank);
    TrimLeftSkips(blank, y);
  }

  lemma CloseEmpty(x: bytes, blank: bytes, y: bytes) returns (z: bytes)
    requires x != [] && x[0] == 123 && x[1..] == blank + y && y != [] && y[0] == RBRACE
    requires Accepting(Run(Scan(FirstKey, [InObject]), y))
    ensures AllWs(z) && x == PrintTree(Object([], blank)) + z
  {
    z := y[1..];
    assert Step(Scan(FirstKey, [InObject]), RBRACE) == Scan(After, []);
    AfterRunIsBlank(z);
    assert y == [125] + z && x == [123] + (blank + y);
  }

  lemma {:induction false} ObjectSplits(x: bytes, members: seq<Member>, z: bytes)
    requires x != [] && x[0] == 123 && members != [] && x[1..] == PrintMembers(members) + [125] + z
    ensures x == PrintTree(Object(members, [])) + z
  {
    assert x == [123] + x[1..];
  }

  lemma {:induction false} ParseObject(x: bytes) returns (t: Tree, z: bytes)
    requires x != [] && x[0] == LBRACE && IsJson(x)
    ensures ValidTree(t) && AllWs(z) && x == PrintTree(t) + z
    decreases |x|, 1
  {
    var blank, y := OpenObject(x);
    if y[0] == RBRACE {
      z := CloseEmpty(x, blank, y);
      t := Object([], blank);
    } else {
      var members;
      members, z := ParseMembers(FirstKey, x[1..]);
      AfterRunIsBlank(z);
      ObjectSplits(x, members, z);
      t := Object(members, []);
    }
  }

  // --- Arrays ------------------------------------------------------------------------------------

  lemma {:induction false} ParseTexts(texts: seq<bytes>) returns (items: seq<Item>)
    requires texts != [] && AllJson(texts)
    ensures |items| == |texts| && forall i :: 0 <= i < |items| ==> ValidItem(items[i])
    ensures PrintItems(items) == Join(texts)
    decreases |Join(texts)|, 4
  {
    var first := Parse(texts[0]);
    if |texts| == 1 {
      items := [first];
    } else {
      items := ParseTexts(texts[1..]);
      ItemsCons(first, items);
      items := [first] + items;
    }
  }

  lemma {:induction false} ItemsCons(i: Item, items: seq<Item>)
    requires items != []
    ensures PrintItems([i] + items) == PrintItem(i) + [44] + PrintItems(items)
  {
    assert ([i] + items)[1..] == items;
  }

  lemma {:induction false} ParseArray(x: bytes) returns (t: Tree, z: bytes)
    requires x != [] && x[0] == LBRACKET && IsJson(x)
    ensures ValidTree(t) && AllWs(z) && x == PrintTree(t) + z
    decreases |x|, 1
  {
    var inner := x[1..];
    assert Step(INIT, LBRACKET) == Scan(FirstItem, [] + [InArray]);
    assert Run(Scan(FirstItem, [] + [InArray]), inner) == Run(INIT, x);
    assert x == [91] + inner;
    var texts, blank;
    texts, blank, z := ArrayContents([], inner);
    if texts == [] {
      EmptyArrayEnds(blank, z);
      BlankIsWs(blank);
      t := Array([], blank);
      assert x == [91] + blank + [93] + z;
    } else {
      RunArray([], texts, z);
      AfterRunIsBlank(z);
      InnerIsShorter(texts, inner, z);
      var items := ParseTexts(texts);
      t := Array(items, []);
      assert x == [91] + PrintItems(items) + [93] + z;
    }
  }

  lemma {:induction false} InnerIsShorter(texts: seq<bytes>, inner: bytes, z: bytes)
    requires inner == Join(texts) + [RBRACKET] + z
    ensures |Join(texts)| < |inner|
  {
  }

  lemma EmptyArrayEnds(blank: bytes, z: bytes)
    requires AllWs(blank) && Accepting(Run(Scan(FirstItem, [] + [InArray]), blank + [RBRACKET] + z))
    ensures AllWs(z)
  {
    assert [] + [InArray] == [InArray];
    RunConcat(Scan(FirstItem, [InArray]), blank + [93], z);
    RunNoItems(blank);
    AfterRunIsBlank(z);
  }

  // --- Values ------------------------------------------------------------------------------------

  lemma {:induction false} ParseValue(x: bytes) returns (t: Tree, z: bytes)
    requires x != [] && !IsWs(x[0]) && IsJson(x)
    ensures ValidTree(t) && AllWs(z) && x == PrintTree(t) + z
    decreases |x|, 2
  {
    var c := x[0];
    if c == LBRACE {
      t, z := ParseObject(x);
    } else if c == LBRACKET {
      t, z := ParseArray(x);
    } else if c == QUOTE {
      t, z := ParseText(x);
    } else if c == 45 || IsDigit(c) {
      var n;
      n, z := ParseNumber(x);
      t := Num(n);
    } else {
      if c != 110 && c != 116 && c != 102 { RunFailed(x[1..]); }
      t, z := ParseLiteral(x);
    }
  }

  lemma ParseText(x: bytes) returns (t: Tree, z: bytes)
    requires x != [] && x[0] == QUOTE && IsJson(x)
    ensures ValidTree(t) && AllWs(z) && x == PrintTree(t) + z
  {
    assert Run(INIT, x) == Run(Scan(Str(false), []), x[1..]);
    var cs;
    cs, z := ParseChars(false, [], x[1..]);
    AfterRunIsBlank(z);
    t := Text(cs);
    assert x == [34] + x[1..];
    assert x == Quoted(cs) + z;
  }

  /** Every JSON text is the printing of a value. */
  lemma {:induction false} Parse(w: bytes) returns (i: Item)
    requires IsJson(w)
    ensures ValidItem(i) && PrintItem(i) == w
    decreases |w|, 3
  {
    var before := TrimLeftSplits(w);
    var x := TrimLeft(w);
    RunConcat(INIT, before, x);
    RunWs(INIT, before);
    assert x != [];
    var t, z := ParseValue(x);
    BlankIsWs(before);
    BlankIsWs(z);
    i := Item(before, t, z);
    assert w == before + PrintTree(t) + z;
  }

  ghost predicate IsPrinted(w: bytes) { exists i :: ValidItem(i) && PrintItem(i) == w }

  /** The recogniser accepts exactly the texts of the grammar. */
  lemma JsonExactlyWhen(w: bytes)
    ensures IsJson(w) <==> IsPrinted(w)
  {
    if IsJson(w) { var i := Parse(w); }
    if IsPrinted(w) {
      var i :| ValidItem(i) && PrintItem(i) == w;
      PrintedIsJson(i);
    }
  }
}
