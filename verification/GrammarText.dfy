/** Whatever a tree prints is a JSON text for the recogniser. */
module GrammarText {
  import opened Bytes
  import opened Wrappers
  import opened Json
  import opened JsonItems
  import opened Grammar

  lemma BlankIsWs(s: bytes)
    ensures Blank(s) <==> AllWs(s)
  {
  }

  // --- Strings -----------------------------------------------------------------------------------

  lemma RunTwo(st: Scan, a: byte, b: byte)
    ensures Run(st, [a, b]) == Step(Step(st, a), b)
  {
    assert [a, b][1..] == [b];
    assert Run(Step(st, a), [b]) == Run(Step(Step(st, a), b), []);
  }

  lemma RunFour(st: Scan, h: bytes)
    requires |h| == 4
    ensures Run(st, h) == Step(Step(Step(Step(st, h[0]), h[1]), h[2]), h[3])
  {
    assert h == [h[0], h[1]] + [h[2], h[3]];
    RunConcat(st, [h[0], h[1]], [h[2], h[3]]);
    RunTwo(st, h[0], h[1]);
    RunTwo(Run(st, [h[0], h[1]]), h[2], h[3]);
  }

  lemma RunChar(key: bool, stack: seq<Frame>, c: Char)
    requires ValidChar(c)
    ensures Run(Scan(Str(key), stack), PrintChar(c)) == Scan(Str(key), stack)
  {
    var st := Scan(Str(key), stack);
    match c
    case Plain(b) => assert Run(Step(st, b), []) == st;
    case Escape(l) => RunTwo(st, 92, l);
    case Unicode(h) =>
      RunConcat(st, [92, 117], h);
      RunTwo(st, 92, 117);
      RunHex(key, stack, h);
  }

  lemma RunHex(key: bool, stack: seq<Frame>, h: bytes)
    requires |h| == 4 && forall k :: 0 <= k < 4 ==> HexDigit(h[k])
    ensures Run(Scan(Hex(key, 3), stack), h) == Scan(Str(key), stack)
  {
    RunFour(Scan(Hex(key, 3), stack), h);
    assert Step(Scan(Hex(key, 3), stack), h[0]) == Scan(Hex(key, 2), stack);
    assert Step(Scan(Hex(key, 2), stack), h[1]) == Scan(Hex(key, 1), stack);
    assert Step(Scan(Hex(key, 1), stack), h[2]) == Scan(Hex(key, 0), stack);
  }

  lemma {:induction false} RunChars(key: bool, stack: seq<Frame>, cs: seq<Char>)
    requires ValidChars(cs)
    ensures Run(Scan(Str(key), stack), PrintChars(cs)) == Scan(Str(key), stack)
  {
    if cs != [] {
      RunConcat(Scan(Str(key), stack), PrintChar(cs[0]), PrintChars(cs[1..]));
      RunChar(key, stack, cs[0]);
      RunChars(key, stack, cs[1..]);
    }
  }

  /** A quoted string, as a value or as a name. */
  lemma RunQuoted(st: Scan, key: bool, cs: seq<Char>)
    requires ValidChars(cs) && Step(st, 34) == Scan(Str(key), st.stack)
    ensures Run(st, Quoted(cs)) == Scan(if key then Mode.Colon else After, st.stack)
  {
    assert Quoted(cs)[1..] == PrintChars(cs) + [34];
    RunSnoc(Scan(Str(key), st.stack), PrintChars(cs), 34);
    RunChars(key, st.stack, cs);
  }

  // --- Numbers -----------------------------------------------------------------------------------

  lemma {:induction false} RunDigits(m: Mode, ds: bytes)
    requires (m.Int? || m.Frac? || m.ExpInt?) && forall k :: 0 <= k < |ds| ==> 48 <= ds[k] <= 57
    ensures Run(Scan(m, []), ds) == Scan(m, [])
    decreases |ds|
  {
    if ds != [] {
      assert IsDigit(ds[0]);
      assert Step(Scan(m, []), ds[0]) == Scan(m, []);
      RunDigits(m, ds[1..]);
    }
  }

  /** At least one digit, the first of which leads to `m`. */
  lemma RunSomeDigits(st: Scan, m: Mode, ds: bytes)
    requires SomeDigits(ds) && (m.Int? || m.Frac? || m.ExpInt?) && Step(st, ds[0]) == Scan(m, [])
    ensures Run(st, ds) == Scan(m, [])
  {
    RunDigits(m, ds[1..]);
  }

  lemma RunWhole(st: Scan, whole: bytes)
    requires st == INIT || st == Scan(Minus, [])
    requires SomeDigits(whole) && (|whole| > 1 ==> whole[0] != 48)
    ensures var r := Run(st, whole); r == Scan(Zero, []) || r == Scan(Int, [])
  {
    assert IsDigit(whole[0]);
    if whole[0] == 48 {
      assert whole == [48];
      assert Run(Step(st, 48), []) == Scan(Zero, []);
    } else {
      assert Step(st, whole[0]) == Scan(Int, []);
      RunSomeDigits(st, Int, whole);
    }
  }

  lemma RunFraction(st: Scan, f: Option<bytes>)
    requires (st == Scan(Zero, []) || st == Scan(Int, [])) && (f.Some? ==> SomeDigits(f.value))
    ensures Run(st, PrintFraction(f)) == if f.None? then st else Scan(Frac, [])
  {
    if f.Some? {
      assert PrintFraction(f)[1..] == f.value;
      assert Step(st, 46) == Scan(Dot, []);
      assert IsDigit(f.value[0]);
      RunSomeDigits(Scan(Dot, []), Frac, f.value);
    }
  }

  /** Digits of an exponent, after its mark or its sign. */
  lemma RunExponentDigits(st: Scan, digits: bytes)
    requires (st == Scan(Exp, []) || st == Scan(ExpSign, [])) && SomeDigits(digits)
    ensures Run(st, digits) == Scan(ExpInt, [])
  {
    assert IsDigit(digits[0]);
    assert Step(st, digits[0]) == Scan(ExpInt, []);
    RunSomeDigits(st, ExpInt, digits);
  }

  lemma RunSign(sign: bytes, digits: bytes)
    requires (sign == [] || sign == [43] || sign == [45]) && SomeDigits(digits)
    ensures Run(Scan(Exp, []), sign + digits) == Scan(ExpInt, [])
  {
    if sign == [] {
      assert sign + digits == digits;
      RunExponentDigits(Scan(Exp, []), digits);
    } else {
      assert (sign + digits)[1..] == digits;
      assert Step(Scan(Exp, []), sign[0]) == Scan(ExpSign, []);
      RunExponentDigits(Scan(ExpSign, []), digits);
    }
  }

  lemma RunExponent(st: Scan, e: Option<Exponent>)
    requires st == Scan(Zero, []) || st == Scan(Int, []) || st == Scan(Frac, [])
    requires e.Some? ==> ValidExponent(e.value)
    ensures Run(st, PrintExponent(e)) == if e.None? then st else Scan(ExpInt, [])
  {
    if e.Some? {
      var tail := e.value.sign + e.value.digits;
      assert PrintExponent(e)[1..] == tail;
      assert Step(st, e.value.mark) == Scan(Exp, []);
      RunSign(e.value.sign, e.value.digits);
    }
  }

  lemma RunNumber(n: Number)
    requires ValidNumber(n)
    ensures var r := Run(INIT, PrintNumber(n)); r.stack == [] && IsTail(r.mode)
  {
    var sign := if n.minus then [45] else [];
    var tail := PrintFraction(n.fraction) + PrintExponent(n.exponent);
    RunConcat(INIT, sign, n.whole + tail);
    var st := Run(INIT, sign);
    assert n.minus ==> st == Run(Step(INIT, 45), []) == Scan(Minus, []);
    RunConcat(st, n.whole, tail);
    RunWhole(st, n.whole);
    RunConcat(Run(st, n.whole), PrintFraction(n.fraction), PrintExponent(n.exponent));
    RunFraction(Run(st, n.whole), n.fraction);
    RunExponent(Run(Run(st, n.whole), PrintFraction(n.fraction)), n.exponent);
  }

  // --- Literals ----------------------------------------------------------------------------------

  lemma RunWord(rest: bytes)
    requires rest != [] && forall k :: 0 <= k < |rest| ==> 97 <= rest[k] <= 122
    ensures Run(Scan(Word(rest), []), rest) == Scan(WordEnd, [])
    decreases |rest|
  {
    var next := Step(Scan(Word(rest), []), rest[0]);
    if |rest| > 1 { RunWord(rest[1..]); } else { assert rest[1..] == []; }
  }

  lemma RunWordFrom(x: bytes, rest: bytes)
    requires x != [] && x[1..] == rest && Step(INIT, x[0]) == Scan(Word(rest), [])
    requires rest != [] && forall k :: 0 <= k < |rest| ==> 97 <= rest[k] <= 122
    ensures Run(INIT, x) == Scan(WordEnd, [])
  {
    RunWord(rest);
  }

  lemma RunLiteral(t: Tree)
    requires t.Null? || t.True? || t.False?
    ensures Run(INIT, PrintTree(t)) == Scan(WordEnd, [])
  {
    var x := PrintTree(t);
    match t
    case Null => RunWordFrom(x, ULL);
    case True => RunWordFrom(x, RUE);
    case False => RunWordFrom(x, ALSE);
  }

  // --- Objects -----------------------------------------------------------------------------------

  lemma {:induction false} RunKeyWs(m: Mode, stack: seq<Frame>, w: bytes)
    requires AllWs(w) && (m.FirstKey? || m.NextKey? || m.Colon?)
    ensures Run(Scan(m, stack), w) == Scan(m, stack)
    decreases |w|
  {
    if w != [] {
      assert IsWs(w[0]);
      RunKeyWs(m, stack, w[1..]);
    }
  }

  /** After a whole value in an object: a comma asks for the next name, a brace closes. */
  lemma StepAfterMember(m: Mode, outer: seq<Frame>, c: byte)
    requires Complete(m) && Ends(c)
    ensures Step(Scan(m, outer + [InObject]), c)
         == if c == COMMA then Scan(NextKey, outer + [InObject])
            else if c == RBRACE then Scan(After, outer) else FAILED
  {
    var s := outer + [InObject];
    assert s[|s| - 1] == InObject && s[..|s| - 1] == outer;
  }

  /** A value read in an object, and the byte after it. */
  lemma RunMemberValue(outer: seq<Frame>, value: bytes, c: byte)
    requires IsJson(value) && Ends(c)
    ensures Run(Scan(Value, outer + [InObject]), value + [c])
         == if c == COMMA then Scan(NextKey, outer + [InObject])
            else if c == RBRACE then Scan(After, outer) else FAILED
  {
    var base := outer + [InObject];
    assert base + [] == base;
    assert Lift(INIT, base) == Scan(Value, base);
    LiftRun(INIT, base, value);
    StepAfterMember(Run(INIT, value).mode, outer, c);
    RunSnoc(Scan(Value, base), value, c);
  }

  /** A name, from the place of a key to the place of its value. */
  lemma RunName(m: Mode, stack: seq<Frame>, before: bytes, name: seq<Char>, between: bytes)
    requires (m.FirstKey? || m.NextKey?) && Blank(before) && ValidChars(name) && Blank(between)
    ensures Run(Scan(m, stack), before + Quoted(name) + between + [58]) == Scan(Value, stack)
  {
    BlankIsWs(before);
    BlankIsWs(between);
    RunSnoc(Scan(m, stack), before + Quoted(name) + between, 58);
    RunConcat(Scan(m, stack), before + Quoted(name), between);
    RunConcat(Scan(m, stack), before, Quoted(name));
    RunKeyWs(m, stack, before);
    RunQuoted(Scan(m, stack), true, name);
    RunKeyWs(Mode.Colon, stack, between);
  }

  lemma RunMember(mode: Mode, outer: seq<Frame>, m: Member, c: byte, rest: bytes)
    requires (mode.FirstKey? || mode.NextKey?) && (c == COMMA || c == RBRACE)
    requires Blank(m.before) && ValidChars(m.name) && Blank(m.between) && IsJson(PrintItem(m.item))
    ensures Run(Scan(mode, outer + [InObject]), PrintMember(m) + [c] + rest)
         == Run(if c == COMMA then Scan(NextKey, outer + [InObject]) else Scan(After, outer), rest)
  {
    var st, value := Scan(mode, outer + [InObject]), PrintItem(m.item);
    var head := m.before + Quoted(m.name) + m.between + [58];
    assert PrintMember(m) + [c] + rest == head + (value + [c]) + rest;
    RunConcat(st, head + (value + [c]), rest);
    RunConcat(st, head, value + [c]);
    RunName(mode, outer + [InObject], m.before, m.name, m.between);
    RunMemberValue(outer, value, c);
  }

  ghost predicate Readable(m: Member) {
    Blank(m.before) && ValidChars(m.name) && Blank(m.between) && IsJson(PrintItem(m.item))
  }

  lemma {:induction false} RunMembers(mode: Mode, outer: seq<Frame>, members: seq<Member>, rest: bytes)
    requires (mode.FirstKey? || mode.NextKey?) && members != []
    requires forall i :: 0 <= i < |members| ==> Readable(members[i])
    ensures Run(Scan(mode, outer + [InObject]), PrintMembers(members) + [125] + rest) == Run(Scan(After, outer), rest)
    decreases |members|
  {
    if |members| == 1 {
      RunMember(mode, outer, members[0], RBRACE, rest);
    } else {
      var more := PrintMembers(members[1..]) + [125] + rest;
      assert PrintMembers(members) + [125] + rest == PrintMember(members[0]) + [44] + more;
      RunMember(mode, outer, members[0], COMMA, more);
      RunMembers(NextKey, outer, members[1..], rest);
    }
  }

  lemma {:induction false} RunObject(members: seq<Member>, blank: bytes)
    requires Blank(blank) && forall i :: 0 <= i < |members| ==> Readable(members[i])
    ensures Run(INIT, PrintTree(Object(members, blank))) == Scan(After, [])
  {
    var inner := if members == [] then blank else PrintMembers(members);
    var inside := Scan(FirstKey, [] + [InObject]);
    assert Step(INIT, 123) == inside;
    assert ([123] + inner + [125])[1..] == inner + [125];
    if members == [] {
      BlankIsWs(blank);
      RunSnoc(inside, blank, 125);
      RunKeyWs(FirstKey, [] + [InObject], blank);
      assert Step(inside, 125) == Scan(After, []);
    } else {
      assert inner + [125] + [] == inner + [125];
      RunMembers(FirstKey, [], members, []);
    }
  }

  // --- Arrays ------------------------------------------------------------------------------------

  function Texts(items: seq<Item>): (r: seq<bytes>)
    ensures |r| == |items|
  {
    seq(|items|, i requires 0 <= i < |items| => PrintItem(items[i]))
  }

  lemma {:induction false} TextsJoined(items: seq<Item>)
    requires items != []
    ensures Join(Texts(items)) == PrintItems(items)
  {
    if |items| > 1 {
      assert Texts(items)[1..] == Texts(items[1..]);
      TextsJoined(items[1..]);
    }
  }

  lemma {:induction false} RunTexts(texts: seq<bytes>)
    requires texts != [] && AllJson(texts)
    ensures Run(Scan(FirstItem, [InArray]), Join(texts) + [93]) == Scan(After, [])
  {
    RunArray([], texts, []);
    var w := Join(texts) + [93];
    assert w + [] == w && [] + [InArray] == [InArray];
  }

  lemma RunNoItems(blank: bytes)
    requires AllWs(blank)
    ensures Run(Scan(FirstItem, [InArray]), blank + [93]) == Scan(After, [])
  {
    RunSnoc(Scan(FirstItem, [InArray]), blank, 93);
    RunWs(Scan(FirstItem, [InArray]), blank);
    assert [InArray][..0] == [];
  }

  lemma RunOpened(inner: bytes)
    ensures Run(INIT, [91] + inner + [93]) == Run(Scan(FirstItem, [InArray]), inner + [93])
  {
    assert ([91] + inner + [93])[1..] == inner + [93];
    assert Step(INIT, 91) == Scan(FirstItem, [] + [InArray]);
    assert [] + [InArray] == [InArray];
  }

  lemma {:induction false} RunArrayTree(items: seq<Item>, blank: bytes)
    requires Blank(blank) && forall i :: 0 <= i < |items| ==> IsJson(PrintItem(items[i]))
    ensures Run(INIT, PrintTree(Array(items, blank))) == Scan(After, [])
  {
    if items == [] {
      BlankIsWs(blank);
      RunOpened(blank);
      RunNoItems(blank);
    } else {
      TextsJoined(items);
      RunOpened(PrintItems(items));
      RunTexts(Texts(items));
    }
  }

  // --- Trees -------------------------------------------------------------------------------------

  /** A value that shows where it ends. */
  predicate Delimited(t: Tree) { t.Text? || t.Array? || t.Object? }

  /** A printed value is whole, and needs no further byte exactly when it is delimited. */
  lemma {:induction false} PrintedTree(t: Tree)
    requires ValidTree(t)
    ensures var r := Run(INIT, PrintTree(t));
      r.stack == [] && if Delimited(t) then r.mode.After? else IsTail(r.mode)
    decreases t
  {
    match t
    case Num(n) => RunNumber(n);
    case Text(cs) => RunQuoted(INIT, false, cs);
    case Array(items, blank) =>
      forall i | 0 <= i < |items| ensures IsJson(PrintItem(items[i])) { PrintedIsJson(items[i]); }
      RunArrayTree(items, blank);
    case Object(members, blank) =>
      forall i | 0 <= i < |members| ensures Readable(members[i]) {
        assert ValidMember(members[i]);
        PrintedIsJson(members[i].item);
      }
      RunObject(members, blank);
    case _ => RunLiteral(t);
  }

  /** Every printed value is a JSON text. */
  lemma {:induction false} PrintedIsJson(i: Item)
    requires ValidItem(i)
    ensures IsJson(PrintItem(i))
    decreases i
  {
    PrintedTree(i.value);
    BlankIsWs(i.before);
    BlankIsWs(i.after);
    RunConcat(INIT, i.before + PrintTree(i.value), i.after);
    RunConcat(INIT, i.before, PrintTree(i.value));
    RunWs(INIT, i.before);
    WsAfterValue(Run(INIT, PrintTree(i.value)), i.after);
  }

  lemma WsAfterValue(st: Scan, w: bytes)
    requires Accepting(st) && AllWs(w)
    ensures Accepting(Run(st, w))
  {
    if w != [] {
      assert IsWs(w[0]);
      assert Step(st, w[0]) == Scan(After, []);
      RunWs(Scan(After, []), w[1..]);
    }
  }
}
