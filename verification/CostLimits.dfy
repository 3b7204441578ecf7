/** What the check of costs lets through, for costs written in thousandths. */
module CostLimits {
  import opened Wrappers
  import opened Bets
  import opened Doubles
  import opened Costs

  /** The cost written as `k` thousandths, read and multiplied in doubles. */
  ghost predicate Reads(k: nat, cost: Cost) {
    RoundsTo(k as real / 1000.0, cost.value) && cost.scaled.Some? && RoundsTo(cost.value * 1000.0, cost.scaled.value)
  }

  /** `x` thousandths come back: the double read, times 1000, rounds to `x`. */
  ghost predicate RoundTrips(x: real) {
    exists v :: ComesBack(x, v)
  }

  ghost predicate ComesBack(x: real, v: real) {
    RoundsTo(x / 1000.0, v) && RoundsTo(v * 1000.0, x)
  }

  /** At any size the product is what was written exactly when that comes back. */
  lemma ProductIsAsWritten(k: nat, cost: Cost)
    requires k > 0 && Reads(k, cost)
    ensures cost.scaled == Some(k as real) <==> RoundTrips(k as real)
  {
    if RoundTrips(k as real) {
      var v :| ComesBack(k as real, v);
      RoundsToOne(k as real / 1000.0, v, cost.value);
      RoundsToOne(v * 1000.0, k as real, cost.scaled.value);
    } else {
      assert !ComesBack(k as real, cost.value);
    }
  }

  // --- Which thousandths come back -----------------------------------------------------------------

  /** Thousandths whose thousandth part is a double with the unit one start here: 1000 * 2^52. */
  const UNIT_ONE: nat := 4_503_599_627_370_496_000

  /** Where those numbers pass from the unit 512 to the unit 1024: 2^62. */
  const UNIT_1024: nat := 4_611_686_018_427_387_904

  /** Where the double of the thousandth part is a whole number, `n` comes back when it is a double within
      half a unit of a multiple of 1000; half a unit of 1024 reaches every number. */
  predicate NearThousands(n: nat) {
    if n >= UNIT_1024 then n % 1024 == 0
    else n % 512 == 0 && (n % 1000 < 256 || n % 1000 > 744 || (n % 1000 in {256, 744} && n % 1024 == 0))
  }

  /** The same for any number, doubled or halved until it lies there. */
  predicate ComesBackWhole(k: nat)
    requires k > 0
    decreases if k >= 2 * UNIT_ONE then k else 0, if k < UNIT_ONE then UNIT_ONE - k else 0
  {
    if k >= 2 * UNIT_ONE then k % 2 == 0 && ComesBackWhole(k / 2)
    else if k < UNIT_ONE then ComesBackWhole(2 * k)
    else NearThousands(k)
  }

  lemma DoublingComesBack(x: real)
    ensures RoundTrips(x) <==> RoundTrips(2.0 * x)
  {
    if RoundTrips(x) {
      var v :| ComesBack(x, v);
      RoundsDoubled(x / 1000.0, v);
      RoundsDoubled(v * 1000.0, x);
      assert ComesBack(2.0 * x, 2.0 * v);
    }
    if RoundTrips(2.0 * x) {
      var v :| ComesBack(2.0 * x, v);
      RoundsHalved(2.0 * x / 1000.0, v);
      RoundsHalved(v * 1000.0, 2.0 * x);
      assert ComesBack(x, v / 2.0);
    }
  }

  /** The nearest whole number to `n` / 1000, the even one of two. */
  function Nearest(n: nat): nat {
    var q := n / 1000;
    if n % 1000 < 500 || (n % 1000 == 500 && q % 2 == 0) then q else q + 1
  }

  lemma NearestIsDouble(n: nat)
    requires UNIT_ONE <= n < 2 * UNIT_ONE
    ensures RoundsTo(n as real / 1000.0, Nearest(n) as real)
  {
    var m := Nearest(n);
    assert Pow2(1) == 2.0;
    if m == 2 * HIDDEN_BIT {
      assert IsNearest(n as real / 1000.0, m as real, HIDDEN_BIT, 1);
    } else {
      assert IsNearest(n as real / 1000.0, m as real, m, 0);
    }
  }

  lemma ProductUnits()
    ensures Pow2(9) == 512.0 && Pow2(10) == 1024.0
  {
    assert Pow2(3) == 8.0;
    assert Pow2(6) == 64.0;
  }

  /** `p` is the thousandfold of the whole number nearest to `n` / 1000. */
  predicate IsMultiple(n: nat, p: nat) { p == Nearest(n) * 1000 }

  lemma MissIsSmall(n: nat, p: nat)
    requires IsMultiple(n, p)
    ensures -500 <= p - n <= 500 && (-256 < p - n < 256 <==> n % 1000 < 256 || n % 1000 > 744)
    ensures p - n == -256 || p - n == 256 <==> n % 1000 in {256, 744}
  {
  }

  lemma FitsWhole(p: int, n: int, m: nat, u: int)
    requires u > 0 && HIDDEN_BIT <= m < 2 * HIDDEN_BIT && (m == HIDDEN_BIT ==> n <= p)
    ensures Fits(p as real, n as real, m, u as real)
       <==> (-u <= 2 * (p - n) <= u && (2 * (p - n) in {u, -u} ==> m % 2 == 0))
  {
    assert (p - n) as real == p as real - n as real;
  }

  lemma NearMultiple(n: nat, p: nat, m: nat)
    requires n < UNIT_1024 && n == 512 * m && IsMultiple(n, p)
    ensures NearThousands(n) <==> -256 <= p - n <= 256 && (p - n == 256 || p - n == -256 ==> m % 2 == 0)
  {
    MissIsSmall(n, p);
    Halves(n, m);
  }

  lemma Halves(n: nat, m: nat)
    requires n == 512 * m
    ensures n % 512 == 0 && (n % 1024 == 0 <==> m % 2 == 0)
  {
    assert n == 1024 * (m / 2) + 512 * (m % 2);
  }

  lemma HalfFits(n: nat, p: nat, m: nat)
    requires UNIT_ONE <= n < UNIT_1024 && n == 512 * m && IsMultiple(n, p)
    ensures Fits(p as real, n as real, m, 512.0) <==> NearThousands(n)
  {
    NearMultiple(n, p, m);
    FitsWhole(p, n, m, 512);
  }

  lemma AllFit(n: nat, p: nat, m: nat)
    requires UNIT_1024 <= n < 2 * UNIT_ONE && n == 1024 * m && IsMultiple(n, p)
    ensures Fits(p as real, n as real, m, 1024.0)
  {
    MissIsSmall(n, p);
    FitsWhole(p, n, m, 1024);
  }

  /** The product comes to `n` exactly when `n` is a double and the nearest one. */
  lemma ProductComesBack(n: nat, p: nat)
    requires UNIT_ONE <= n < 2 * UNIT_ONE && IsMultiple(n, p)
    ensures NearThousands(n) <==> RoundsTo(p as real, n as real)
  {
    if NearThousands(n) { ProductRounds(n, p); }
    if RoundsTo(p as real, n as real) { ProductIsNearThousands(n, p); }
  }

  lemma ProductIsNearThousands(n: nat, p: nat)
    requires UNIT_ONE <= n < 2 * UNIT_ONE && IsMultiple(n, p) && RoundsTo(p as real, n as real)
    ensures NearThousands(n)
  {
    var m: nat, e: int :| IsNearest(p as real, n as real, m, e);
    ProductExponent(n, m, e);
    ProductUnits();
    if n < UNIT_1024 {
      WholeUnits(n, m, 512);
      HalfFits(n, p, m);
    } else {
      WholeUnits(n, m, 1024);
    }
  }

  lemma WholeUnits(n: nat, m: nat, u: nat)
    requires u > 0 && n as real == m as real * u as real
    ensures n == m * u && n % u == 0
  {
    assert (m * u) as real == m as real * u as real;
  }

  lemma ProductRounds(n: nat, p: nat)
    requires UNIT_ONE <= n < 2 * UNIT_ONE && IsMultiple(n, p) && NearThousands(n)
    ensures RoundsTo(p as real, n as real)
  {
    ProductUnits();
    if n >= UNIT_1024 {
      AllFit(n, p, n / 1024);
      assert IsNearest(p as real, n as real, n / 1024, 10);
    } else {
      HalfFits(n, p, n / 512);
      assert IsNearest(p as real, n as real, n / 512, 9);
    }
  }

  lemma ProductExponent(n: nat, m: nat, e: int)
    requires UNIT_ONE <= n < 2 * UNIT_ONE && HIDDEN_BIT <= m < 2 * HIDDEN_BIT && n as real == m as real * Pow2(e)
    ensures e == if n >= UNIT_1024 then 10 else 9
  {
    ProductUnits();
    Magnitude(m, n as real, Pow2(e));
    if e <= 8 { Pow2Grows(e, 8); }
    if e >= 11 { Pow2Grows(11, e); }
    assert Pow2(9) == 2.0 * Pow2(8) && Pow2(11) == 2.0 * Pow2(10);
  }

  /** The thousandths that come back, by arithmetic on the number alone. */
  lemma {:induction false} ComesBackExactlyWhen(k: nat)
    requires k > 0
    ensures RoundTrips(k as real) <==> ComesBackWhole(k)
    decreases if k >= 2 * UNIT_ONE then k else 0, if k < UNIT_ONE then UNIT_ONE - k else 0
  {
    if k >= 2 * UNIT_ONE {
      if RoundTrips(k as real) {
        var v :| ComesBack(k as real, v);
        LargeDoubleIsEven(v * 1000.0, k);
      }
      if k % 2 == 0 {
        ComesBackExactlyWhen(k / 2);
        DoublingComesBack((k / 2) as real);
      }
    } else if k < UNIT_ONE {
      ComesBackExactlyWhen(2 * k);
      DoublingComesBack(k as real);
    } else {
      NearestIsDouble(k);
      ProductComesBack(k, Nearest(k) * 1000);
      if RoundTrips(k as real) {
        var v :| ComesBack(k as real, v);
        RoundsToOne(k as real / 1000.0, v, Nearest(k) as real);
      } else {
        assert !ComesBack(k as real, Nearest(k) as real);
      }
    }
  }

  // --- Which costs are accepted --------------------------------------------------------------------

  /** The largest number of thousandths up to which a cost is refused or held as written: 1000 * 2^43. */
  const SAFE_THOUSANDTHS: nat := 8_796_093_022_208_000

  /** `k` doubled until a double near its thousandth part is a whole number. */
  function Scaled(k: nat): nat
    requires k > 0
    decreases if k < UNIT_ONE then UNIT_ONE - k else 0
  {
    if k < UNIT_ONE then Scaled(2 * k) else k
  }

  /** Within reach of a multiple of 1000. */
  predicate InReach(n: nat) { n >= UNIT_1024 || n % 1000 <= 256 || n % 1000 >= 744 }

  lemma MultipleOf1024(k: nat, q: nat)
    requires k == 1024 * q
    ensures k % 1024 == 0
  {
  }

  lemma MultipleOf512(k: nat, q: nat)
    requires k == 512 * q
    ensures k % 512 == 0
  {
  }

  lemma {:induction false} ScaledMultiple(k: nat, q: nat)
    requires 0 < k < 2 * UNIT_ONE && k == 1024 * q
    ensures ComesBackWhole(k) <==> InReach(Scaled(k))
    decreases if k < UNIT_ONE then UNIT_ONE - k else 0
  {
    MultipleOf1024(k, q);
    MultipleOf512(k, 2 * q);
    if k < UNIT_ONE {
      Doubling(k);
      ScaledMultiple(2 * k, 2 * q);
    } else {
      NearWhenMultiple(k);
    }
  }

  lemma NearWhenMultiple(n: nat)
    requires n % 1024 == 0 && n % 512 == 0
    ensures NearThousands(n) <==> InReach(n)
  {
  }

  lemma Doubling(k: nat)
    requires 0 < k < UNIT_ONE
    ensures ComesBackWhole(k) == ComesBackWhole(2 * k) && Scaled(k) == Scaled(2 * k)
  {
  }

  lemma FiveDoublings(k: nat)
    requires 0 < k && 16 * k < UNIT_ONE
    ensures ComesBackWhole(k) == ComesBackWhole(32 * k) && Scaled(k) == Scaled(32 * k)
  {
    Doubling(k);
    Doubling(2 * k);
    Doubling(4 * k);
    Doubling(8 * k);
    Doubling(16 * k);
  }

  /** A number that can be doubled ten times is a double after that, and `InReach` is the whole condition. */
  lemma SafeComesBack(k: nat)
    requires 0 < k <= SAFE_THOUSANDTHS
    ensures ComesBackWhole(k) <==> InReach(Scaled(k))
  {
    if k == SAFE_THOUSANDTHS {
      ScaledMultiple(k, 8_589_934_592_000);
    } else {
      FiveDoublings(k);
      FiveDoublings(32 * k);
      ScaledMultiple(1024 * k, k);
    }
  }

  /** Up to that number, a cost is accepted exactly when its thousandths, scaled, are within 256 of a
      multiple of 1000 or lie above 2^62, and then it is held as written. */
  lemma AcceptedExactlyWhen(k: nat, cost: Cost)
    requires 0 < k <= SAFE_THOUSANDTHS && Reads(k, cost)
    ensures Accepted(cost) <==> InReach(Scaled(k))
    ensures Accepted(cost) ==> CostMilli(cost) == k
  {
    ProductIsAsWritten(k, cost);
    ComesBackExactlyWhen(k);
    SafeComesBack(k);
    ProductIsNear(k, cost);
    if IsWhole(cost.scaled.value) { WholeAndNear(k, cost.scaled.value); }
    if Accepted(cost) { CostIsItsProduct(cost); }
  }

  /** So every whole cost up to there is accepted as written. */
  lemma WholeCostsAreKept(c: nat, cost: Cost)
    requires 0 < c && 1000 * c <= SAFE_THOUSANDTHS && Reads(1000 * c, cost)
    ensures Accepted(cost) && CostMilli(cost) == 1000 * c
  {
    WholeIsDouble(c);
    WholeIsDouble(1000 * c);
    ThousandFold(c, (1000 * c) as real);
    assert ComesBack((1000 * c) as real, c as real);
    ProductIsAsWritten(1000 * c, cost);
    ComesBackExactlyWhen(1000 * c);
    SafeComesBack(1000 * c);
    AcceptedExactlyWhen(1000 * c, cost);
  }

  lemma ThousandFold(c: nat, x: real)
    requires x == (1000 * c) as real
    ensures x / 1000.0 == c as real && c as real * 1000.0 == x
  {
  }

  lemma WholeAndNear(k: nat, s: real)
    requires IsWhole(s) && -1.0 < k as real - s < 1.0
    ensures s == k as real
  {
    assert -1 < k - s.Floor < 1;
  }

  /** Both roundings together move less than one thousandth. */
  lemma ProductIsNear(k: nat, cost: Cost)
    requires 0 < k <= SAFE_THOUSANDTHS && Reads(k, cost)
    ensures -1.0 < k as real - cost.scaled.value < 1.0 && cost.scaled.value > 0.0
  {
    var x, v, s := k as real / 1000.0, cost.value, cost.scaled.value;
    NinthUnit();
    RoundingError(x, v, -9);
    assert Pow2(1) == 2.0;
    RoundingError(v * 1000.0, s, 1);
  }

  lemma NinthUnit()
    ensures Pow2(-9) * 512.0 == 1.0
  {
    Pow2Down(0);
    Pow2Down(-4);
    assert Pow2(-9) == Pow2(-8) / 2.0;
  }

  /** At any size: an accepted cost is held as the thousandths written exactly when they come back. */
  lemma WrittenCostIsKept(k: nat, cost: Cost)
    requires 0 < k < U64_MAX && Reads(k, cost)
    ensures Accepted(cost) && CostMilli(cost) == k <==> ComesBackWhole(k)
  {
    ProductIsAsWritten(k, cost);
    ComesBackExactlyWhen(k);
    if Accepted(cost) { CostIsItsProduct(cost); }
  }

  // --- Where the doubles show ------------------------------------------------------------------

  lemma Pow2Down(e: int)
    requires e <= 0
    ensures Pow2(e - 4) * 16.0 == Pow2(e)
  {
    assert Pow2(e - 4) == Pow2(e - 3) / 2.0 && Pow2(e - 3) == Pow2(e - 2) / 2.0;
    assert Pow2(e - 2) == Pow2(e - 1) / 2.0 && Pow2(e - 1) == Pow2(e) / 2.0;
  }

  lemma SmallUnits()
    ensures Pow2(-52) * 4503599627370496.0 == 1.0 && Pow2(-43) * 8796093022208.0 == 1.0
  {
    Pow2Down(0); Pow2Down(-4); Pow2Down(-8); Pow2Down(-12); Pow2Down(-16); Pow2Down(-20); Pow2Down(-24);
    Pow2Down(-28); Pow2Down(-32); Pow2Down(-36); Pow2Down(-40); Pow2Down(-44); Pow2Down(-48);
    assert Pow2(-43) == Pow2(-42) / 2.0 && Pow2(-42) == Pow2(-41) / 2.0 && Pow2(-41) == Pow2(-40) / 2.0;
  }

  /** A cost of three decimals can be refused: 1.001 reads as a product just under 1001. */
  lemma ThreeDecimalsCanBeRefused() returns (cost: Cost)
    ensures Reads(1001, cost) && !Accepted(cost) && !InReach(Scaled(1001))
  {
    SmallUnits();
    var v, s := 4508103226997866.0 / 4503599627370496.0, 8804889115230207.0 / 8796093022208.0;
    assert IsNearest(1001 as real / 1000.0, v, 4508103226997866, -52);
    assert IsNearest(v * 1000.0, s, 8804889115230207, -43);
    cost := Product(v, Some(s));
    AcceptedExactlyWhen(1001, cost);
  }

  /** One thousandth further a cost is accepted as another: the limit is sharp. */
  lemma NextCostChanges() returns (cost: Cost)
    ensures Reads(SAFE_THOUSANDTHS + 1, cost) && Accepted(cost) && CostMilli(cost) == SAFE_THOUSANDTHS + 2
  {
    var v := 4503599627370497.0 / 512.0;
    NinthUnit();
    assert IsNearest((SAFE_THOUSANDTHS + 1) as real / 1000.0, v, 4503599627370497, -9);
    assert IsNearest(v * 1000.0, 8796093022208002.0, 8796093022208002, 0);
    cost := Product(v, Some(8796093022208002.0));
  }

  lemma LargeUnits()
    ensures Pow2(2) == 4.0 && Pow2(10) == 1024.0 && Pow2(12) == 4096.0
  {
    assert Pow2(4) == 2.0 * Pow2(3) && Pow2(3) == 2.0 * Pow2(2) && Pow2(2) == 2.0 * Pow2(1);
    assert Pow2(8) == 2.0 * Pow2(7) && Pow2(7) == 2.0 * Pow2(6) && Pow2(6) == 2.0 * Pow2(5) && Pow2(5) == 2.0 * Pow2(4);
    assert Pow2(12) == 2.0 * Pow2(11) && Pow2(11) == 2.0 * Pow2(10) && Pow2(10) == 2.0 * Pow2(9) &&
      Pow2(9) == 2.0 * Pow2(8);
  }

  /** And the largest product let through is one more than 64 bits hold. */
  lemma LargestProductSaturates() returns (cost: Cost)
    ensures Reads(18446744073709552000, cost) && Accepted(cost) && CostMilli(cost) == U64_MAX
  {
    var v := 18446744073709552.0;
    LargeUnits();
    assert IsNearest(18446744073709552000 as real / 1000.0, v, 4611686018427388, 2);
    assert IsNearest(v * 1000.0, 18446744073709551616.0, HIDDEN_BIT, 12);
    cost := Product(v, Some(18446744073709551616.0));
  }
}
