/** The JSON texts of RFC 8259 as trees: what a tree holds, and the bytes it prints as. White space is part
    of the tree, so that every way to print a value is a tree. */
module Grammar {
  import opened Bytes
  import opened Wrappers

  // --- Strings (section 7) ---------------------------------------------------------------------

  /** A byte as it stands, an escape of one letter, or `\u` and four hexadecimal digits. */
  datatype Char = Plain(c: byte) | Escape(letter: byte) | Unicode(hex: bytes)

  predicate ValidChar(c: Char) {
    match c
    case Plain(c) => c >= 32 && c != 34 && c != 92
    case Escape(l) => l == 34 || l == 92 || l == 47 || l == 98 || l == 102 || l == 110 || l == 114 || l == 116
    case Unicode(h) => |h| == 4 && forall k :: 0 <= k < 4 ==> HexDigit(h[k])
  }

  predicate HexDigit(c: byte) { 48 <= c <= 57 || 65 <= c <= 70 || 97 <= c <= 102 }

  function PrintChar(c: Char): bytes {
    match c
    case Plain(c) => [c]
    case Escape(l) => [92, l]
    case Unicode(h) => [92, 117] + h
  }

  predicate ValidChars(cs: seq<Char>) { forall k :: 0 <= k < |cs| ==> ValidChar(cs[k]) }

  function PrintChars(cs: seq<Char>): bytes {
    if cs == [] then [] else PrintChar(cs[0]) + PrintChars(cs[1..])
  }

  function Quoted(cs: seq<Char>): bytes { [34] + (PrintChars(cs) + [34]) }

  // --- Numbers (section 6) ---------------------------------------------------------------------

  predicate SomeDigits(s: bytes) { s != [] && forall k :: 0 <= k < |s| ==> 48 <= s[k] <= 57 }

  datatype Exponent = Exponent(mark: byte, sign: bytes, digits: bytes)

  datatype Number = Number(minus: bool, whole: bytes, fraction: Option<bytes>, exponent: Option<Exponent>)

  predicate ValidExponent(e: Exponent) {
    (e.mark == 101 || e.mark == 69) && (e.sign == [] || e.sign == [43] || e.sign == [45]) && SomeDigits(e.digits)
  }

  predicate ValidNumber(n: Number) {
    && SomeDigits(n.whole) && (|n.whole| > 1 ==> n.whole[0] != 48)
    && (n.fraction.Some? ==> SomeDigits(n.fraction.value)) && (n.exponent.Some? ==> ValidExponent(n.exponent.value))
  }

  function PrintExponent(e: Option<Exponent>): bytes {
    if e.None? then [] else [e.value.mark] + (e.value.sign + e.value.digits)
  }

  function PrintFraction(f: Option<bytes>): bytes { if f.None? then [] else [46] + f.value }

  function PrintNumber(n: Number): bytes {
    (if n.minus then [45] else []) + (n.whole + (PrintFraction(n.fraction) + PrintExponent(n.exponent)))
  }

  // --- Values (sections 2 to 5) ------------------------------------------------------------------

  /** An array or an object of no items holds white space. */
  datatype Tree =
    | Null | True | False
    | Num(n: Number)
    | Text(chars: seq<Char>)
    | Array(items: seq<Item>, blank: bytes)
    | Object(members: seq<Member>, blank: bytes)

  /** A value with white space around it. */
  datatype Item = Item(before: bytes, value: Tree, after: bytes)

  /** A name, with white space around it, and its value. */
  datatype Member = Member(before: bytes, name: seq<Char>, between: bytes, item: Item)

  predicate Blank(s: bytes) { forall k :: 0 <= k < |s| ==> s[k] == 32 || s[k] == 9 || s[k] == 10 || s[k] == 13 }

  ghost predicate ValidTree(t: Tree) {
    match t
    case Null => true
    case True => true
    case False => true
    case Num(n) => ValidNumber(n)
    case Text(cs) => ValidChars(cs)
    case Array(items, blank) => Blank(blank) && forall i :: 0 <= i < |items| ==> ValidItem(items[i])
    case Object(members, blank) => Blank(blank) && forall i :: 0 <= i < |members| ==> ValidMember(members[i])
  }

  ghost predicate ValidItem(i: Item) { Blank(i.before) && ValidTree(i.value) && Blank(i.after) }

  ghost predicate ValidMember(m: Member) {
    Blank(m.before) && ValidChars(m.name) && Blank(m.between) && ValidItem(m.item)
  }

  function PrintTree(t: Tree): bytes {
    match t
    case Null => [110, 117, 108, 108]
    case True => [116, 114, 117, 101]
    case False => [102, 97, 108, 115, 101]
    case Num(n) => PrintNumber(n)
    case Text(cs) => Quoted(cs)
    case Array(items, blank) => [91] + (if items == [] then blank else PrintItems(items)) + [93]
    case Object(members, blank) => [123] + (if members == [] then blank else PrintMembers(members)) + [125]
  }

  function PrintItem(i: Item): bytes { i.before + PrintTree(i.value) + i.after }

  function PrintItems(items: seq<Item>): bytes
    requires items != []
  {
    if |items| == 1 then PrintItem(items[0]) else PrintItem(items[0]) + [44] + PrintItems(items[1..])
  }

  function PrintMember(m: Member): bytes {
    m.before + Quoted(m.name) + m.between + [58] + PrintItem(m.item)
  }

  function PrintMembers(members: seq<Member>): bytes
    requires members != []
  {
    if |members| == 1 then PrintMember(members[0]) else PrintMember(members[0]) + [44] + PrintMembers(members[1..])
  }
}
