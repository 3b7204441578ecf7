/** The number an id stands for: what a printer writes is what the scan reads. */
module IdNumbers {
  import opened Bytes
  import opened Wrappers
  import opened BookId

  /** The decimal digits of `n`. */
  function Digits(n: nat): (ds: bytes)
    ensures ds != [] && AllDigits(ds)
  {
    var last: byte := 48 + (n % 10) as byte;
    if n < 10 then [last] else Digits(n / 10) + [last]
  }

  function Zeros(k: nat): (ds: bytes)
    ensures |ds| == k && AllDigits(ds)
  {
    if k == 0 then [] else Zeros(k - 1) + [48]
  }

  lemma DecimalSnoc(ds: bytes, d: byte)
    ensures DecimalValue(ds + [d]) == 10 * DecimalValue(ds) + DigitValue(d)
  {
    assert (ds + [d])[..|ds|] == ds;
  }

  lemma {:induction false} ZerosAreZero(k: nat)
    ensures DecimalValue(Zeros(k)) == 0
  {
    if k > 0 {
      ZerosAreZero(k - 1);
      DecimalSnoc(Zeros(k - 1), 48);
    }
  }

  /** The last digit of a number. */
  lemma DigitsSnoc(n: nat) returns (d: byte)
    ensures DigitValue(d) == n % 10
    ensures n < 10 ==> Digits(n) == [d]
    ensures n >= 10 ==> Digits(n) == Digits(n / 10) + [d]
  {
    d := 48 + (n % 10) as byte;
  }

  lemma ReadSnoc(zeros: bytes, front: bytes, d: byte, n: nat)
    requires DecimalValue(zeros + front) == n / 10 && DigitValue(d) == n % 10
    ensures DecimalValue(zeros + (front + [d])) == n
  {
    DecimalSnoc(zeros + front, d);
    assert zeros + (front + [d]) == zeros + front + [d];
  }

  /** Leading zeros included, the digits of `n` read as `n`. */
  lemma {:induction false} DigitsRead(k: nat, n: nat)
    ensures DecimalValue(Zeros(k) + Digits(n)) == n
  {
    var d := DigitsSnoc(n);
    if n < 10 {
      ZerosAreZero(k);
      DecimalSnoc(Zeros(k), d);
    } else {
      DigitsRead(k, n / 10);
      ReadSnoc(Zeros(k), Digits(n / 10), d, n);
    }
  }

  /** Every run of digits is the digits of a number after zeros. */
  lemma {:induction false} DigitsOf(ds: bytes) returns (k: nat, n: nat)
    requires ds != [] && AllDigits(ds)
    ensures ds == Zeros(k) + Digits(n)
  {
    var front, d := ds[..|ds| - 1], ds[|ds| - 1];
    assert IsDigit(d);
    var v := (d - 48) as nat;
    assert ds == front + [d];
    if front == [] {
      k, n := 0, v;
    } else {
      k, n := DigitsOf(front);
      if n == 0 {
        assert Digits(0) == [48];
        k, n := k + 1, v;
        assert ds == Zeros(k) + [d];
      } else {
        assert Digits(10 * n + v) == Digits(n) + [d];
        assert ds == Zeros(k) + (Digits(n) + [d]);
        n := 10 * n + v;
      }
    }
  }

  /** `{`, `"id"`, `:` and a number, with white space before each; then `rest`. */
  function IdText(w: seq<bytes>, digits: bytes, rest: bytes): bytes
    requires |w| == 4
  {
    w[0] + ([123] + (w[1] + ([34, 105, 100, 34] + (w[2] + ([58] + (w[3] + (digits + rest)))))))
  }

  lemma IdTextHasShape(w: seq<bytes>, digits: bytes, rest: bytes)
    requires |w| == 4 && forall i :: 0 <= i < 4 ==> AllWs(w[i])
    requires digits != [] && AllDigits(digits) && (rest != [] ==> !IsDigit(rest[0]))
    ensures FindId(IdText(w, digits, rest)) == Some(IdField(digits, rest))
  {
    var c := w[3] + (digits + rest);
    var b := w[2] + ([58] + c);
    var a := w[1] + ([34, 105, 100, 34] + b);
    FindIdOfShape(IdText(w, digits, rest), w, a, b, c, IdField(digits, rest));
  }

  /** Reading the id that a printer wrote gives the number, when it has 32 bits, and none otherwise. */
  lemma PrintedIdIsRead(w: seq<bytes>, k: nat, n: nat, rest: bytes)
    requires |w| == 4 && (forall i :: 0 <= i < 4 ==> AllWs(w[i])) && (rest != [] ==> !IsDigit(rest[0]))
    ensures ReadIdField(IdText(w, Zeros(k) + Digits(n), rest)) == if n < 0x1_0000_0000 then Some(n) else None
  {
    IdTextHasShape(w, Zeros(k) + Digits(n), rest);
    DigitsRead(k, n);
  }

  lemma ShapeIsIdText(s: bytes, w: seq<bytes>, a: bytes, b: bytes, c: bytes, f: IdField)
    requires IdShape(s, w, a, b, c, f)
    ensures s == IdText(w, f.digits, f.rest)
  {
  }

  /** The digits of an id that is read are a number's. */
  lemma IdDigits(s: bytes) returns (f: IdField, k: nat, n: nat)
    requires ReadIdField(s).Some?
    ensures FindId(s) == Some(f) && f.Valid() && f.digits == Zeros(k) + Digits(n)
    ensures ReadIdField(s) == Some(n) && n < 0x1_0000_0000
  {
    f := FindId(s).value;
    var w, a, b, c := ShapeOfFindId(s);
    k, n := DigitsOf(f.digits);
    DigitsRead(k, n);
  }

  /** And an id is read from printed numbers alone. */
  lemma ReadIdIsPrinted(s: bytes) returns (w: seq<bytes>, k: nat, n: nat, rest: bytes)
    requires ReadIdField(s).Some?
    ensures ReadIdField(s) == Some(n) && n < 0x1_0000_0000
    ensures |w| == 4 && (forall i :: 0 <= i < 4 ==> AllWs(w[i])) && (rest != [] ==> !IsDigit(rest[0]))
    ensures s == IdText(w, Zeros(k) + Digits(n), rest)
  {
    var f;
    f, k, n := IdDigits(s);
    rest := f.rest;
    w := ShapeWs(s, f);
  }

  lemma ShapeWs(s: bytes, f: IdField) returns (w: seq<bytes>)
    requires FindId(s) == Some(f)
    ensures |w| == 4 && (forall i :: 0 <= i < 4 ==> AllWs(w[i])) && s == IdText(w, f.digits, f.rest)
  {
    var a, b, c;
    w, a, b, c := ShapeOfFindId(s);
    ShapeIsIdText(s, w, a, b, c, f);
  }
}
