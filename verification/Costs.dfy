/** The cost of a mode: a double, and the thousandths the code takes from it. */
module Costs {
  import opened Wrappers
  import opened Bets

  /** The double, and the double its product with 1000 gives; no product when that overflows. */
  datatype Product = Product(value: real, scaled: Option<real>)

  /** The product keeps the sign, and does not vanish. */
  predicate SameSign(p: Product) {
    p.scaled.Some? ==> (p.value > 0.0 <==> p.scaled.value > 0.0)
  }

  type Cost = p: Product | SameSign(p) witness Product(1.0, Some(1000.0))

  predicate IsWhole(x: real) { x.Floor as real == x }

  /** Half away from zero, as `f64::round`. */
  function RoundAway(x: real): int {
    if x >= 0.0 then (x + 0.5).Floor else -(0.5 - x).Floor
  }

  /** What `de_cost` lets through. `u64::MAX as f64` is 2^64. */
  predicate Accepted(cost: Cost) {
    && cost.value > 0.0 && cost.scaled.Some?
    && IsWhole(cost.scaled.value) && cost.scaled.value <= (U64_MAX + 1) as real
  }

  /** `as u64`: saturating. */
  function AsU64(n: int): u64 { if n < 0 then 0 else Saturate(n) }

  function CostMilli(cost: Cost): (c: u64)
    ensures c >= 1
  {
    if cost.scaled.Some? && RoundAway(cost.scaled.value) >= 1 then AsU64(RoundAway(cost.scaled.value)) else COST_SCALE
  }

  /** An accepted cost is held as its product, except the product 2^64, which saturates. */
  lemma CostIsItsProduct(cost: Cost)
    requires Accepted(cost)
    ensures CostMilli(cost) as real == cost.scaled.value <==> cost.scaled.value <= U64_MAX as real
  {
    var scaled := cost.scaled.value;
    assert scaled.Floor >= 1;
    assert RoundAway(scaled) == scaled.Floor;
  }

  /** Accepted or not, a cost is held as the whole number of thousandths nearest to its product, halves up;
      as one unit when that is zero or the product is none, and as the largest number when it is too big. */
  lemma CostIsNearest(cost: Cost)
    ensures cost.scaled.None? || cost.scaled.value < 0.5 ==> CostMilli(cost) == 1000
    ensures cost.scaled.Some? && 0.5 <= cost.scaled.value <= U64_MAX as real ==>
      -1.0 < 2.0 * (CostMilli(cost) as real - cost.scaled.value) <= 1.0
    ensures cost.scaled.Some? && cost.scaled.value > U64_MAX as real ==> CostMilli(cost) == U64_MAX
  {
    if cost.scaled.Some? {
      var x := cost.scaled.value;
      var n := (x + 0.5).Floor;
      assert n as real <= x + 0.5 < n as real + 1.0;
    }
  }
}
