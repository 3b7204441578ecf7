/** Fixed-point bet arithmetic: the two maps between a base bet and what it costs in a mode, given
    the cost in thousandths. */
module Bets {
  const COST_SCALE: nat := 1000
  const U64_MAX: nat := 0xFFFF_FFFF_FFFF_FFFF
  const STEP_BET: nat := 10_000

  type u64 = n: nat | n <= U64_MAX

  /** `u64::try_from(..).unwrap_or(u64::MAX)` */
  function Saturate(n: nat): u64 {
    if n <= U64_MAX then n else U64_MAX
  }

  function TotalBet(baseBet: nat, c: nat): u64 {
    Saturate(baseBet * c / COST_SCALE)
  }

  function BaseBet(totalBet: nat, c: nat): u64
    requires c >= 1
  {
    Saturate(totalBet * COST_SCALE / c)
  }

  /** A payout multiplier is in hundredths of the base bet. */
  function Payout(baseBet: nat, multiplier: nat): u64 {
    Saturate(baseBet * multiplier) / 100
  }

  function CeilDiv(n: nat, d: nat): nat
    requires d > 0
  {
    (n + d - 1) / d
  }

  // --- Division ----------------------------------------------------------------------------

  lemma DivIs(n: nat, d: nat, q: nat)
    requires d > 0 && q * d <= n < (q + 1) * d
    ensures n / d == q
  {
    var k := n / d;
    assert k * d <= n < k * d + d;
    if k < q {
      assert (k + 1) * d <= q * d by { MulMono(k + 1, q, d); }
    } else if k > q {
      MulMono(q + 1, k, d);
    }
  }

  lemma MulMono(a: nat, b: nat, d: nat)
    requires a <= b
    ensures a * d <= b * d
  {
  }

  lemma DivMono(a: nat, b: nat, d: nat)
    requires a <= b && d > 0
    ensures a / d <= b / d
  {
    var p, q := a / d, b / d;
    if p > q {
      MulMono(q + 1, p, d);
    }
  }

  lemma CeilDivIs(n: nat, d: nat, g: nat)
    requires d > 0 && g == CeilDiv(n, d)
    ensures n <= g * d < n + d
  {
    assert g * d <= n + d - 1 < g * d + d;
  }

  // --- Round trips ------------------------------------------------------------------------------

  /** What the round trip loses: the thousandths the stake drops, in base bets, rounded up. */
  lemma RoundTripLoss(b: nat, c: nat)
    requires c >= 1 && b <= U64_MAX && b * c / COST_SCALE <= U64_MAX
    ensures BaseBet(TotalBet(b, c), c) + CeilDiv(b * c % COST_SCALE, c) == b
  {
    var n := b * c;
    var t, r := n / COST_SCALE, n % COST_SCALE;
    var g := CeilDiv(r, c);
    CeilDivIs(r, c, g);
    assert t * COST_SCALE == n - r;
    assert g <= b by {
      if g > b {
        assert (g - 1) * c < r by { assert (g - 1) * c == g * c - c; }
        MulMono(b, g - 1, c);
      }
    }
    assert (b - g) * c == n - g * c;
    assert (b - g + 1) * c == n - g * c + c;
    DivIs(t * COST_SCALE, c, b - g);
  }

  /** At most ceil(999/c) base units are lost. */
  lemma RoundTripBound(b: nat, c: nat)
    requires c >= 1 && b <= U64_MAX && b * c / COST_SCALE <= U64_MAX
    ensures 0 <= b - BaseBet(TotalBet(b, c), c) <= CeilDiv(COST_SCALE - 1, c)
  {
    RoundTripLoss(b, c);
    DivMono(b * c % COST_SCALE + c - 1, COST_SCALE - 1 + c - 1, c);
  }

  /** The round trip is exact exactly when the stake needs no fraction of a thousandth. */
  lemma RoundTripExact(b: nat, c: nat)
    requires c >= 1 && b <= U64_MAX && b * c / COST_SCALE <= U64_MAX
    ensures BaseBet(TotalBet(b, c), c) == b <==> b * c % COST_SCALE == 0
  {
    RoundTripLoss(b, c);
    var r := b * c % COST_SCALE;
    var g := CeilDiv(r, c);
    CeilDivIs(r, c, g);
    if r == 0 {
      DivIs(c - 1, c, 0);
    }
  }

  /** Every multiple of the bet step survives at any cost. */
  lemma StepBetsRoundTrip(k: nat, c: nat)
    requires c >= 1 && k * STEP_BET <= U64_MAX && k * STEP_BET * c / COST_SCALE <= U64_MAX
    ensures BaseBet(TotalBet(k * STEP_BET, c), c) == k * STEP_BET
  {
    var b := k * STEP_BET;
    var m := 10 * (k * c);
    assert b * c == m * COST_SCALE by {
      assert b * c == STEP_BET * (k * c);
    }
    assert m * COST_SCALE % COST_SCALE == 0;
    RoundTripExact(b, c);
  }

  /** A base bet never buys more than the stake it came from. */
  lemma StakeOfBaseBet(t: nat, c: nat)
    requires c >= 1 && t <= U64_MAX
    ensures TotalBet(BaseBet(t, c), c) <= t
  {
    var q := t * COST_SCALE / c;
    var b := BaseBet(t, c);
    assert q * c <= t * COST_SCALE;
    MulMono(b, q, c);
    DivMono(b * c, t * COST_SCALE, COST_SCALE);
    assert t * COST_SCALE / COST_SCALE == t;
  }

  lemma BetsAreMonotone(a: nat, b: nat, c: nat)
    requires a <= b && c >= 1
    ensures TotalBet(a, c) <= TotalBet(b, c) && BaseBet(a, c) <= BaseBet(b, c)
  {
    MulMono(a, b, c);
    DivMono(a * c, b * c, COST_SCALE);
    DivMono(a * COST_SCALE, b * COST_SCALE, c);
  }
}
