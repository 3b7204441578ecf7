/** Doubles as reals, with the rounding of each operation written out (IEEE 754, round to nearest, ties
    to even). */
module Doubles {
  /** The least significand of a normal double, 2^52. */
  const HIDDEN_BIT: nat := 0x10_0000_0000_0000

  function Pow2(e: int): (r: real)
    ensures r > 0.0
    decreases if e < 0 then -e else e
  {
    if e == 0 then 1.0 else if e > 0 then 2.0 * Pow2(e - 1) else Pow2(e + 1) / 2.0
  }

  /** `y`, which is `m` units, is a normal double nearest to `x`: within half a unit, or a quarter on
      the side of the smaller unit, and the even one of two. */
  ghost predicate Fits(x: real, y: real, m: nat, unit: real) {
    && HIDDEN_BIT <= m < 2 * HIDDEN_BIT
    && -unit <= 2.0 * (x - y) <= unit && (m == HIDDEN_BIT ==> -unit <= 4.0 * (x - y))
    && (2.0 * (x - y) == unit || 2.0 * (x - y) == -unit ==> m % 2 == 0)
  }

  /** `y` is `m` units of 2^`e` and the double nearest to `x`. */
  ghost predicate IsNearest(x: real, y: real, m: nat, e: int) {
    y == m as real * Pow2(e) && Fits(x, y, m, Pow2(e))
  }

  ghost predicate RoundsTo(x: real, y: real) {
    exists m: nat, e: int :: IsNearest(x, y, m, e)
  }

  lemma Pow2Step(e: int)
    ensures Pow2(e) == 2.0 * Pow2(e - 1)
  {
  }

  lemma {:induction false} Pow2Grows(e: int, f: int)
    requires e <= f
    ensures Pow2(e) <= Pow2(f)
    decreases f - e
  {
    if e < f {
      Pow2Grows(e, f - 1);
      Pow2Step(f);
    }
  }

  /** Units of different exponents differ by a factor of two at least. */
  lemma UnitsApart(e: int, f: int)
    requires e < f
    ensures 2.0 * Pow2(e) <= Pow2(f)
  {
    Pow2Grows(e, f - 1);
    Pow2Step(f);
  }

  lemma MulLeft(a: real, b: real, u: real)
    requires a <= b && u > 0.0
    ensures a * u <= b * u
  {
  }

  /** Where `m` units lie. */
  lemma Magnitude(m: nat, y: real, unit: real)
    requires unit > 0.0 && y == m as real * unit && HIDDEN_BIT <= m < 2 * HIDDEN_BIT
    ensures 4503599627370496.0 * unit <= y <= 9007199254740991.0 * unit
    ensures m > HIDDEN_BIT ==> 4503599627370497.0 * unit <= y
    ensures m < 2 * HIDDEN_BIT - 1 ==> y <= 9007199254740990.0 * unit
  {
    var r := m as real;
    AtLeastUnits(4503599627370496.0, r, y, unit);
    AtMostUnits(9007199254740991.0, r, y, unit);
    if m > HIDDEN_BIT { AtLeastUnits(4503599627370497.0, r, y, unit); }
    if m < 2 * HIDDEN_BIT - 1 { AtMostUnits(9007199254740990.0, r, y, unit); }
  }

  lemma AtLeastUnits(c: real, r: real, y: real, unit: real)
    requires unit > 0.0 && c <= r && y == r * unit
    ensures c * unit <= y
  {
    MulLeft(c, r, unit);
  }

  lemma AtMostUnits(c: real, r: real, y: real, unit: real)
    requires unit > 0.0 && r <= c && y == r * unit
    ensures y <= c * unit
  {
    MulLeft(r, c, unit);
  }

  /** Up to 2^52 units of 2^`f`, rounding moves a number by at most a quarter of such a unit. */
  lemma RoundingError(x: real, y: real, f: int)
    requires RoundsTo(x, y) && x <= 4503599627370496.0 * Pow2(f)
    ensures -Pow2(f) <= 4.0 * (x - y) <= Pow2(f) && y > 0.0
  {
    var m: nat, e: int :| IsNearest(x, y, m, e);
    Magnitude(m, y, Pow2(e));
    if e < f { UnitsApart(e, f); } else if e > f { UnitsApart(f, e); }
    ErrorInUnits(x, y, m, Pow2(e), Pow2(f));
  }

  lemma ErrorInUnits(x: real, y: real, m: nat, u: real, w: real)
    requires u > 0.0 && w > 0.0 && Fits(x, y, m, u) && x <= 4503599627370496.0 * w
    requires 4503599627370496.0 * u <= y && (m > HIDDEN_BIT ==> 4503599627370497.0 * u <= y)
    requires 2.0 * u <= w || u == w || u >= 2.0 * w
    ensures -w <= 4.0 * (x - y) <= w && y > 0.0
  {
  }

  /** A number rounds to one double. */
  lemma RoundsToOne(x: real, y: real, z: real)
    requires RoundsTo(x, y) && RoundsTo(x, z)
    ensures y == z
  {
    var m: nat, e: int :| IsNearest(x, y, m, e);
    var n: nat, f: int :| IsNearest(x, z, n, f);
    NearestOnce(x, y, m, e, z, n, f);
  }

  lemma NearestOnce(x: real, y: real, m: nat, e: int, z: real, n: nat, f: int)
    requires IsNearest(x, y, m, e) && IsNearest(x, z, n, f)
    ensures y == z
  {
    if e < f {
      NotOfTwoBinades(x, y, m, e, z, n, f);
    } else if f < e {
      NotOfTwoBinades(x, z, n, f, y, m, e);
    } else {
      SameUnit(x, y, m, z, n, Pow2(e));
    }
  }

  lemma SameUnit(x: real, y: real, m: nat, z: real, n: nat, u: real)
    requires u > 0.0 && y == m as real * u && z == n as real * u && Fits(x, y, m, u) && Fits(x, z, n, u)
    ensures y == z
  {
    if m < n {
      NotOfTwoNeighbours(x, y, m, z, n, u);
    } else if n < m {
      NotOfTwoNeighbours(x, z, n, y, m, u);
    }
  }

  lemma NotOfTwoNeighbours(x: real, y: real, m: nat, z: real, n: nat, u: real)
    requires u > 0.0 && m < n && y == m as real * u && z == n as real * u && Fits(x, y, m, u)
    ensures !Fits(x, z, n, u)
  {
    Spacing(m, y, n, z, u);
    Halfway(x, y, m, z, n, u);
  }

  lemma Halfway(x: real, y: real, m: nat, z: real, n: nat, u: real)
    requires u > 0.0 && m < n && z - y >= u && (n > m + 1 ==> z - y >= 2.0 * u) && Fits(x, y, m, u)
    ensures !Fits(x, z, n, u)
  {
  }

  lemma Spacing(m: nat, y: real, n: nat, z: real, u: real)
    requires u > 0.0 && m < n && y == m as real * u && z == n as real * u
    ensures z - y >= u && (n > m + 1 ==> z - y >= 2.0 * u)
  {
    Apart(m as real, n as real, 1.0, u);
    if n > m + 1 { Apart(m as real, n as real, 2.0, u); }
  }

  lemma Apart(p: real, q: real, d: real, u: real)
    requires u > 0.0 && q - p >= d
    ensures q * u - p * u >= d * u
  {
    MulLeft(d, q - p, u);
  }

  /** Between two binades the tie goes to the even double, the first of the upper one. */
  lemma NotOfTwoBinades(x: real, y: real, m: nat, e: int, z: real, n: nat, f: int)
    requires e < f && IsNearest(x, y, m, e)
    ensures !IsNearest(x, z, n, f)
  {
    if IsNearest(x, z, n, f) {
      Magnitude(m, y, Pow2(e));
      Magnitude(n, z, Pow2(f));
      UnitsApart(e, f);
      OtherUnit(x, y, m, Pow2(e), z, n, Pow2(f));
    }
  }

  lemma OtherUnit(x: real, y: real, m: nat, u: real, z: real, n: nat, w: real)
    requires u > 0.0 && w >= 2.0 * u && Fits(x, y, m, u)
    requires y <= 9007199254740991.0 * u && (m < 2 * HIDDEN_BIT - 1 ==> y <= 9007199254740990.0 * u)
    requires 4503599627370496.0 * w <= z && (n > HIDDEN_BIT ==> 4503599627370497.0 * w <= z)
    ensures !Fits(x, z, n, w)
  {
  }

  // --- Doubling and halving ----------------------------------------------------------------------

  /** Rounding commutes with doubling. */
  lemma RoundsDoubled(x: real, y: real)
    requires RoundsTo(x, y)
    ensures RoundsTo(2.0 * x, 2.0 * y)
  {
    var m: nat, e: int :| IsNearest(x, y, m, e);
    NearestTwice(x, y, 2.0 * x, 2.0 * y, m, e);
  }

  lemma RoundsHalved(x: real, y: real)
    requires RoundsTo(x, y)
    ensures RoundsTo(x / 2.0, y / 2.0)
  {
    var m: nat, e: int :| IsNearest(x, y, m, e);
    NearestTwice(x / 2.0, y / 2.0, x, y, m, e - 1);
  }

  lemma NearestTwice(x: real, y: real, p: real, q: real, m: nat, e: int)
    requires p == 2.0 * x && q == 2.0 * y
    ensures IsNearest(x, y, m, e) <==> IsNearest(p, q, m, e + 1)
  {
    Pow2Step(e + 1);
    FitsTwice(x, y, p, q, m, Pow2(e), Pow2(e + 1));
    TwiceUnits(m as real, y, Pow2(e), q, Pow2(e + 1));
  }

  lemma FitsTwice(x: real, y: real, p: real, q: real, m: nat, u: real, w: real)
    requires u > 0.0 && w == 2.0 * u && p == 2.0 * x && q == 2.0 * y
    ensures Fits(x, y, m, u) <==> Fits(p, q, m, w)
  {
  }

  lemma TwiceUnits(r: real, y: real, u: real, z: real, w: real)
    requires w == 2.0 * u && z == 2.0 * y
    ensures y == r * u <==> z == r * w
  {
    assert r * w == 2.0 * (r * u);
  }

  // --- Whole doubles -----------------------------------------------------------------------------

  /** Whole numbers of 53 bits are doubles. */
  lemma {:induction false} WholeIsDouble(c: nat)
    requires 0 < c < 2 * HIDDEN_BIT
    ensures RoundsTo(c as real, c as real)
    decreases 2 * HIDDEN_BIT - c
  {
    if c >= HIDDEN_BIT {
      assert IsNearest(c as real, c as real, c, 0);
    } else {
      WholeIsDouble(2 * c);
      RoundsHalved((2 * c) as real, (2 * c) as real);
    }
  }

  lemma {:induction false} WholePower(e: int) returns (t: nat)
    requires e >= 0
    ensures Pow2(e) == t as real
  {
    t := 1;
    if e > 0 {
      var half := WholePower(e - 1);
      t := 2 * half;
    }
  }

  /** Of the doubles from 2^53 on, none is odd. */
  lemma LargeDoubleIsEven(x: real, k: nat)
    requires RoundsTo(x, k as real) && k >= 2 * HIDDEN_BIT
    ensures k % 2 == 0
  {
    var m: nat, e: int :| IsNearest(x, k as real, m, e);
    Magnitude(m, k as real, Pow2(e));
    if e <= 0 { Pow2Grows(e, 0); }
    Pow2Step(e);
    var t := WholePower(e - 1);
    WholeProduct(k, m, Pow2(e), t);
  }

  lemma WholeProduct(k: nat, m: nat, u: real, t: nat)
    requires u == 2.0 * t as real && k as real == m as real * u
    ensures k % 2 == 0
  {
    assert k as real == (2 * (m * t)) as real;
  }
}
