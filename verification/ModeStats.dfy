/** Two aggregations of one weights table: the basic statistics and the compliance analysis.
    Floating-point numbers are reals. */
module ModeStats {
  import opened Wrappers
  import opened Bets
  import opened Costs

  datatype Weighted = Weighted(weight: nat, payout: nat)

  /** A cost that is not positive counts as one. */
  function CostOf(cost: Cost): (c: real)
    ensures c > 0.0
  {
    if cost.value > 0.0 then cost.value else 1.0
  }

  /** That cost in thousandths, as `round() as u64`. */
  function CostThousandths(cost: Cost): u64 {
    if cost.value <= 0.0 then COST_SCALE
    else if cost.scaled.None? then U64_MAX
    else AsU64(RoundAway(cost.scaled.value))
  }

  function TotalWeight(rows: seq<Weighted>): nat {
    if rows == [] then 0 else TotalWeight(rows[..|rows| - 1]) + rows[|rows| - 1].weight
  }

  function WeightedPayout(rows: seq<Weighted>): nat {
    if rows == [] then 0
    else WeightedPayout(rows[..|rows| - 1]) + rows[|rows| - 1].weight * rows[|rows| - 1].payout
  }

  function MaxPayout(rows: seq<Weighted>): nat {
    if rows == [] then 0
    else
      var m := MaxPayout(rows[..|rows| - 1]);
      if rows[|rows| - 1].payout > m then rows[|rows| - 1].payout else m
  }

  /** Ranges of multipliers relative to the cost, in the exact integer comparison `payout * 10` to
      thousandths. */
  datatype Band = Zero | Positive | SubBet | Win | Profit | BelowCost | AtMostCost
                | From5000 | From10000 | Above40Costs | Above10000

  predicate InBand(b: Band, payout: nat, costM: nat) {
    match b
    case Zero => payout == 0
    case Positive => payout > 0
    case SubBet => payout > 0 && payout * 10 < costM
    case Win => payout * 10 >= costM
    case Profit => payout * 10 > costM
    case BelowCost => payout * 10 < costM
    case AtMostCost => payout * 10 <= costM
    case From5000 => payout >= 500_000
    case From10000 => payout >= 1_000_000
    case Above40Costs => payout * 10 > Saturate(costM * 40)
    case Above10000 => payout > 1_000_000
  }

  function WeightIn(rows: seq<Weighted>, b: Band, costM: nat): nat {
    if rows == [] then 0
    else
      var r := rows[|rows| - 1];
      WeightIn(rows[..|rows| - 1], b, costM) + if InBand(b, r.payout, costM) then r.weight else 0
  }

  function PayoutWeight(rows: seq<Weighted>, payout: nat): nat {
    if rows == [] then 0
    else
      var r := rows[|rows| - 1];
      PayoutWeight(rows[..|rows| - 1], payout) + if r.payout == payout then r.weight else 0
  }

  function Probability(w: nat, total: nat): real
    requires total > 0
  {
    w as real / total as real
  }

  function Multiple(payout: nat, cost: real): real
    requires cost > 0.0
  {
    payout as real / 100.0 / cost
  }

  /** The sum of p * x over the rows. */
  function Rtp(rows: seq<Weighted>, total: nat, cost: real): real
    requires total > 0 && cost > 0.0
  {
    if rows == [] then 0.0
    else
      var r := rows[|rows| - 1];
      Rtp(rows[..|rows| - 1], total, cost) + Probability(r.weight, total) * Multiple(r.payout, cost)
  }

  /** The part of that sum in one band. */
  function ReturnIn(rows: seq<Weighted>, b: Band, costM: nat, total: nat, cost: real): real
    requires total > 0 && cost > 0.0
  {
    if rows == [] then 0.0
    else
      var r := rows[|rows| - 1];
      ReturnIn(rows[..|rows| - 1], b, costM, total, cost)
      + if InBand(b, r.payout, costM) then Probability(r.weight, total) * Multiple(r.payout, cost) else 0.0
  }

  /** The sum of p * x * x. */
  function SecondMoment(rows: seq<Weighted>, total: nat, cost: real): real
    requires total > 0 && cost > 0.0
  {
    if rows == [] then 0.0
    else
      var r := rows[|rows| - 1];
      var x := Multiple(r.payout, cost);
      SecondMoment(rows[..|rows| - 1], total, cost) + Probability(r.weight, total) * x * x
  }

  function MinPayout(rows: seq<Weighted>): nat
    requires rows != []
  {
    if |rows| == 1 then rows[0].payout
    else
      var m := MinPayout(rows[..|rows| - 1]);
      if rows[|rows| - 1].payout < m then rows[|rows| - 1].payout else m
  }

  function Payouts(rows: seq<Weighted>): set<nat> { set k | 0 <= k < |rows| :: rows[k].payout }

  // --- The basic statistics --------------------------------------------------------------

  datatype Stats = Stats(cost: real, rtp: real, maxWin: real, entries: nat, hitRate: real)

  function PayoutToRtp(weighted: nat, total: nat, cost: real): real
    requires total > 0 && cost > 0.0
  {
    weighted as real / 100.0 / total as real / cost
  }

  /** `mode_stats_from_rows`: refused exactly when there is no row or no weight. */
  method ModeStatsFromRows(cost: Cost, rows: seq<Weighted>) returns (r: Result<Stats, string>)
    ensures r.Err? <==> TotalWeight(rows) == 0
    ensures r.Ok? ==> r.value == Stats(
      CostOf(cost), PayoutToRtp(WeightedPayout(rows), TotalWeight(rows), CostOf(cost)),
      MaxPayout(rows) as real / 100.0, |rows|, Probability(WeightIn(rows, Positive, 0), TotalWeight(rows)))
  {
    if rows == [] { return Err("lookup table has no rows"); }
    var totalWeight, weightedPayout, winWeight, maxPayout: nat := 0, 0, 0, 0;
    for i := 0 to |rows|
      invariant totalWeight == TotalWeight(rows[..i]) && weightedPayout == WeightedPayout(rows[..i])
      invariant winWeight == WeightIn(rows[..i], Positive, 0) && maxPayout == MaxPayout(rows[..i])
    {
      assert rows[..i + 1][..i] == rows[..i];
      totalWeight := totalWeight + rows[i].weight;
      weightedPayout := weightedPayout + rows[i].weight * rows[i].payout;
      if rows[i].payout > 0 { winWeight := winWeight + rows[i].weight; }
      if rows[i].payout > maxPayout { maxPayout := rows[i].payout; }
    }
    assert rows[..|rows|] == rows;
    if totalWeight == 0 { return Err("lookup table has zero total weight"); }
    var costF := CostOf(cost);
    r := Ok(Stats(costF, PayoutToRtp(weightedPayout, totalWeight, costF), maxPayout as real / 100.0, |rows|,
                  Probability(winWeight, totalWeight)));
  }

  // --- The analysis pass ---------------------------------------------------------------------

  datatype Analysis = Analysis(
    cost: real, rtp: real, variance: real, maxWin: real, minWin: real, entries: nat, hitRate: real,
    weights: BandWeights, etl40: real, etl10000: real, maxWinOdds: real, uniquePayouts: nat)

  /** The weight of each band the pass tells apart. */
  datatype BandWeights = BandWeights(
    zero: nat, subBet: nat, win: nat, profit: nat, belowCost: nat, atMostCost: nat, from5000: nat, from10000: nat)

  function BandsOf(rows: seq<Weighted>, costM: nat): BandWeights {
    BandWeights(WeightIn(rows, Zero, costM), WeightIn(rows, SubBet, costM), WeightIn(rows, Win, costM),
                WeightIn(rows, Profit, costM), WeightIn(rows, BelowCost, costM), WeightIn(rows, AtMostCost, costM),
                WeightIn(rows, From5000, costM), WeightIn(rows, From10000, costM))
  }

  /** One row's weight added to the bands it falls in. */
  method AddToBands(b: BandWeights, r: Weighted, costM: nat, ghost rows: seq<Weighted>) returns (next: BandWeights)
    requires b == BandsOf(rows, costM)
    ensures next == BandsOf(rows + [r], costM)
  {
    assert (rows + [r])[..|rows|] == rows;
    var payM := r.payout * 10;
    next := b;
    if r.payout == 0 { next := next.(zero := next.zero + r.weight); }
    if r.payout > 0 && payM < costM { next := next.(subBet := next.subBet + r.weight); }
    if payM >= costM { next := next.(win := next.win + r.weight); }
    if payM > costM { next := next.(profit := next.profit + r.weight); }
    if payM < costM { next := next.(belowCost := next.belowCost + r.weight); }
    if payM <= costM { next := next.(atMostCost := next.atMostCost + r.weight); }
    if r.payout >= 500_000 { next := next.(from5000 := next.from5000 + r.weight); }
    if r.payout >= 1_000_000 { next := next.(from10000 := next.from10000 + r.weight); }
  }

  /** The sums of the pass: the return, its second moment, and its parts in the two far tails. */
  datatype Sums = Sums(rtp: real, px2: real, etl40: real, etl10000: real)

  function SumsOf(rows: seq<Weighted>, costM: nat, total: nat, cost: real): Sums
    requires total > 0 && cost > 0.0
  {
    Sums(Rtp(rows, total, cost), SecondMoment(rows, total, cost),
         ReturnIn(rows, Above40Costs, costM, total, cost), ReturnIn(rows, Above10000, costM, total, cost))
  }

  function Variance(s: Sums): real { s.px2 - s.rtp * s.rtp }

  method AddToSums(s: Sums, r: Weighted, costM: nat, total: nat, cost: real, ghost rows: seq<Weighted>)
    returns (next: Sums)
    requires total > 0 && cost > 0.0 && s == SumsOf(rows, costM, total, cost)
    ensures next == SumsOf(rows + [r], costM, total, cost)
  {
    assert (rows + [r])[..|rows|] == rows;
    var x := Multiple(r.payout, cost);
    var px := Probability(r.weight, total) * x;
    var px2 := px * x;
    next := s.(rtp := s.rtp + px, px2 := s.px2 + px2);
    if r.payout * 10 > Saturate(costM * 40) { next := next.(etl40 := next.etl40 + px); }
    if r.payout > 1_000_000 { next := next.(etl10000 := next.etl10000 + px); }
  }

  /** The top payout, the weight that sits on it, and the distinct payouts. */
  datatype Tops = Tops(payout: nat, weight: nat, unique: set<nat>)

  function TopsOf(rows: seq<Weighted>): Tops {
    Tops(MaxPayout(rows), PayoutWeight(rows, MaxPayout(rows)), Payouts(rows))
  }

  method AddToTops(t: Tops, r: Weighted, ghost rows: seq<Weighted>) returns (next: Tops)
    requires t == TopsOf(rows)
    ensures next == TopsOf(rows + [r])
  {
    assert (rows + [r])[..|rows|] == rows;
    PayoutsSnoc(rows, r);
    next := t.(unique := t.unique + {r.payout});
    if r.payout > t.payout {
      NoneAboveMax(rows, r.payout);
      next := next.(payout := r.payout, weight := r.weight);
    } else if r.payout == t.payout {
      next := next.(weight := t.weight + r.weight);
    }
  }

  lemma PayoutsSnoc(rows: seq<Weighted>, r: Weighted)
    ensures Payouts(rows + [r]) == Payouts(rows) + {r.payout}
  {
    var all := rows + [r];
    assert forall k :: 0 <= k < |rows| ==> all[k] == rows[k];
    assert all[|rows|] == r;
  }

  /** The single pass of `mode_analysis` over its rows. */
  method PassOver(rows: seq<Weighted>, costM: nat, total: nat, cost: real) returns (b: BandWeights, s: Sums, t: Tops)
    requires total > 0 && cost > 0.0
    ensures b == BandsOf(rows, costM) && s == SumsOf(rows, costM, total, cost) && t == TopsOf(rows)
  {
    b, s, t := BandWeights(0, 0, 0, 0, 0, 0, 0, 0), Sums(0.0, 0.0, 0.0, 0.0), Tops(0, 0, {});
    for i := 0 to |rows|
      invariant b == BandsOf(rows[..i], costM) && s == SumsOf(rows[..i], costM, total, cost) && t == TopsOf(rows[..i])
    {
      assert rows[..i + 1] == rows[..i] + [rows[i]];
      b := AddToBands(b, rows[i], costM, rows[..i]);
      s := AddToSums(s, rows[i], costM, total, cost, rows[..i]);
      t := AddToTops(t, rows[i], rows[..i]);
    }
    assert rows[..|rows|] == rows;
  }

  method LeastPayout(rows: seq<Weighted>) returns (m: nat)
    requires rows != []
    ensures m == MinPayout(rows)
  {
    m := rows[0].payout;
    for i := 1 to |rows|
      invariant m == MinPayout(rows[..i])
    {
      assert rows[..i + 1][..i] == rows[..i];
      if rows[i].payout < m { m := rows[i].payout; }
    }
    assert rows[..|rows|] == rows;
  }

  /** `mode_analysis`; the caller has checked the total weight. */
  method AnalyseRows(cost: Cost, rows: seq<Weighted>) returns (a: Analysis)
    requires TotalWeight(rows) > 0
    ensures a.cost == CostOf(cost) && a.entries == |rows| && a.uniquePayouts == |Payouts(rows)|
    ensures a.maxWin == MaxPayout(rows) as real / 100.0 && a.minWin == MinPayout(rows) as real / 100.0
    ensures a.weights == BandsOf(rows, CostThousandths(cost)) && a.weights.zero <= TotalWeight(rows)
    ensures var s := SumsOf(rows, CostThousandths(cost), TotalWeight(rows), CostOf(cost));
      a.rtp == s.rtp && a.variance == Variance(s) >= 0.0 && a.etl40 == s.etl40 && a.etl10000 == s.etl10000
    ensures a.hitRate == Probability(TotalWeight(rows) - a.weights.zero, TotalWeight(rows))
    ensures a.maxWinOdds == Odds(TotalWeight(rows), PayoutWeight(rows, MaxPayout(rows)))
  {
    var costF, costM := CostOf(cost), CostThousandths(cost);
    var total := SumWeights(rows);
    var b, s, t := PassOver(rows, costM, total, costF);
    var least := LeastPayout(rows);
    BandsPartition(rows, costM);
    VarianceIsNonNegative(rows, costM, costF);
    var variance := if Variance(s) > 0.0 then Variance(s) else 0.0;
    a := Analysis(costF, s.rtp, variance, t.payout as real / 100.0, least as real / 100.0, |rows|,
                  Probability(total - b.zero, total), b, s.etl40, s.etl10000, Odds(total, t.weight), |t.unique|);
  }

  /** One in how many. */
  function Odds(total: nat, w: nat): real { if w > 0 then total as real / w as real else 0.0 }

  method SumWeights(rows: seq<Weighted>) returns (total: nat)
    ensures total == TotalWeight(rows)
  {
    total := 0;
    for i := 0 to |rows|
      invariant total == TotalWeight(rows[..i])
    {
      assert rows[..i + 1][..i] == rows[..i];
      total := total + rows[i].weight;
    }
    assert rows[..|rows|] == rows;
  }

  lemma {:induction false} NoneAboveMax(rows: seq<Weighted>, payout: nat)
    requires payout > MaxPayout(rows)
    ensures PayoutWeight(rows, payout) == 0
  {
    if rows != [] {
      NoneAboveMax(rows[..|rows| - 1], payout);
    }
  }

  // --- What the weights add up to --------------------------------------------------------------

  /** Each pair of opposite bands covers the table once. */
  lemma {:induction false} BandsPartition(rows: seq<Weighted>, costM: nat)
    ensures WeightIn(rows, Zero, costM) + WeightIn(rows, Positive, costM) == TotalWeight(rows)
    ensures WeightIn(rows, BelowCost, costM) + WeightIn(rows, Win, costM) == TotalWeight(rows)
    ensures WeightIn(rows, AtMostCost, costM) + WeightIn(rows, Profit, costM) == TotalWeight(rows)
  {
    if rows != [] {
      BandsPartition(rows[..|rows| - 1], costM);
    }
  }

  /** Zero, sub-bet and winning weights cover the table once exactly when the cost does not round to
      zero thousandths, or no weight pays zero: at cost zero a zero payout also counts as a win. */
  lemma ZeroSubBetWinPartition(rows: seq<Weighted>, costM: nat)
    ensures (WeightIn(rows, Zero, costM) + WeightIn(rows, SubBet, costM) + WeightIn(rows, Win, costM)
             == TotalWeight(rows))
       <==> (costM > 0 || WeightIn(rows, Zero, costM) == 0)
  {
    BandsOverlap(rows, costM);
  }

  lemma {:induction false} BandsOverlap(rows: seq<Weighted>, costM: nat)
    ensures WeightIn(rows, Zero, costM) + WeightIn(rows, SubBet, costM) + WeightIn(rows, Win, costM)
         == TotalWeight(rows) + if costM == 0 then WeightIn(rows, Zero, costM) else 0
  {
    if rows != [] {
      BandsOverlap(rows[..|rows| - 1], costM);
    }
  }

  /** For every cost the deserialiser of a mode accepts, zero, sub-bet and winning weights cover the
      table once: it keeps at least one thousandth. */
  lemma AcceptedCostsPartition(cost: Cost, rows: seq<Weighted>)
    requires Accepted(cost)
    ensures var c := CostThousandths(cost);
      WeightIn(rows, Zero, c) + WeightIn(rows, SubBet, c) + WeightIn(rows, Win, c) == TotalWeight(rows)
  {
    assert cost.scaled.value.Floor >= 1;
    ZeroSubBetWinPartition(rows, CostThousandths(cost));
  }

  /** Both crates take the same thousandths from an accepted cost; one that is not positive counts as one. */
  lemma SameThousandths(cost: Cost)
    ensures Accepted(cost) ==> CostThousandths(cost) == CostMilli(cost) >= 1 && CostOf(cost) == cost.value
    ensures cost.value <= 0.0 ==> CostThousandths(cost) == 1000 && CostOf(cost) == 1.0
  {
    if Accepted(cost) { assert cost.scaled.value.Floor >= 1; }
  }

  /** The odds times the weight are the whole. */
  lemma OddsOfWeight(total: nat, w: nat)
    ensures w > 0 ==> Odds(total, w) * w as real == total as real
    ensures w == 0 ==> Odds(total, w) == 0.0
  {
  }

  /** p * (x - mu) * (x - mu). */
  function Deviation(p: real, x: real, mu: real): real { p * ((x - mu) * (x - mu)) }

  function Spread(rows: seq<Weighted>, total: nat, cost: real, mu: real): real
    requires total > 0 && cost > 0.0
  {
    if rows == [] then 0.0
    else
      var r := rows[|rows| - 1];
      Spread(rows[..|rows| - 1], total, cost, mu)
        + Deviation(Probability(r.weight, total), Multiple(r.payout, cost), mu)
  }

  /** A second moment about `mu`, from the one about zero, the mean and the mass. */
  function Around(mu: real, q: real, m: real, p: real): real { q - 2.0 * mu * m + mu * mu * p }

  lemma {:induction false} SpreadExpands(rows: seq<Weighted>, total: nat, cost: real, mu: real)
    requires total > 0 && cost > 0.0
    ensures 0.0 <= Spread(rows, total, cost, mu)
         == Around(mu, SecondMoment(rows, total, cost), Rtp(rows, total, cost), Probability(TotalWeight(rows), total))
  {
    if rows != [] {
      var front, r := rows[..|rows| - 1], rows[|rows| - 1];
      SpreadExpands(front, total, cost, mu);
      DivAdd(TotalWeight(front) as real, r.weight as real, total as real);
      OneMore(mu, Probability(r.weight, total), Multiple(r.payout, cost),
              Spread(front, total, cost, mu), SecondMoment(front, total, cost), Rtp(front, total, cost),
              Probability(TotalWeight(front), total),
              Spread(rows, total, cost, mu), SecondMoment(rows, total, cost), Rtp(rows, total, cost),
              Probability(TotalWeight(rows), total));
    }
  }

  lemma OneMore(mu: real, p: real, x: real, s: real, q: real, m: real, mass: real, s': real, q': real, m': real,
                mass': real)
    requires p >= 0.0 && 0.0 <= s == Around(mu, q, m, mass)
    requires s' == s + Deviation(p, x, mu) && q' == q + p * x * x && m' == m + p * x && mass' == mass + p
    ensures 0.0 <= s' == Around(mu, q', m', mass')
  {
    SquareExpands(p, x, mu);
    Gather(mu, q, m, mass, p * x * x, p * x, p);
  }

  lemma SquareExpands(p: real, x: real, mu: real)
    requires p >= 0.0
    ensures 0.0 <= Deviation(p, x, mu) == Around(mu, p * x * x, p * x, p)
  {
    var square := (x - mu) * (x - mu);
    assert square >= 0.0;
    assert p * square >= 0.0;
  }

  lemma Gather(mu: real, q: real, m: real, p: real, q': real, m': real, p': real)
    ensures Around(mu, q, m, p) + Around(mu, q', m', p') == Around(mu, q + q', m + m', p + p')
  {
  }

  /** The variance is the mean square distance from the return, so that clamping it at zero changes
      nothing. */
  lemma VarianceIsNonNegative(rows: seq<Weighted>, costM: nat, cost: real)
    requires TotalWeight(rows) > 0 && cost > 0.0
    ensures var total := TotalWeight(rows);
      0.0 <= Variance(SumsOf(rows, costM, total, cost)) == Spread(rows, total, cost, Rtp(rows, total, cost))
  {
    var s, q, m, p := SpreadOfAll(rows, cost);
    AroundTheMean(s, q, m, p);
  }

  /** The spread about the return, from the second moment, the return and the whole mass. */
  lemma SpreadOfAll(rows: seq<Weighted>, cost: real) returns (s: real, q: real, m: real, p: real)
    requires TotalWeight(rows) > 0 && cost > 0.0
    ensures s >= 0.0 && p == 1.0 && s == Spread(rows, TotalWeight(rows), cost, m) == Around(m, q, m, p)
    ensures q == SecondMoment(rows, TotalWeight(rows), cost) && m == Rtp(rows, TotalWeight(rows), cost)
  {
    var t := TotalWeight(rows);
    q, m, p := SecondMoment(rows, t, cost), Rtp(rows, t, cost), Probability(t, t);
    s := Spread(rows, t, cost, m);
    SpreadExpands(rows, t, cost, m);
    WholeIsOne(t);
  }

  lemma WholeIsOne(total: nat)
    requires total > 0
    ensures Probability(total, total) == 1.0
  {
    DivMul(1.0, total as real);
  }

  lemma AroundTheMean(s: real, q: real, m: real, p: real)
    requires p == 1.0 && s >= 0.0 && s == Around(m, q, m, p)
    ensures 0.0 <= q - m * m == s
  {
    var square := m * m;
    assert 2.0 * m * m == 2.0 * square && square * p == square;
  }

  // --- What the figures say of the rows --------------------------------------------------------

  /** The top and the least payout are payouts of the table, and bound all. */
  lemma {:induction false} ExtremesAreRows(rows: seq<Weighted>)
    requires rows != []
    ensures MaxPayout(rows) in Payouts(rows) && MinPayout(rows) in Payouts(rows)
    ensures forall p :: p in Payouts(rows) ==> MinPayout(rows) <= p <= MaxPayout(rows)
  {
    var front, last := rows[..|rows| - 1], rows[|rows| - 1];
    assert rows == front + [last];
    PayoutsSnoc(front, last);
    if front != [] { ExtremesAreRows(front); }
  }

  /** The weights of two tables in one are added, and a table of one row has that row's. */
  lemma {:induction false} WeightsAdd(a: seq<Weighted>, c: seq<Weighted>, b: Band, costM: nat, payout: nat)
    ensures TotalWeight(a + c) == TotalWeight(a) + TotalWeight(c)
    ensures WeightedPayout(a + c) == WeightedPayout(a) + WeightedPayout(c)
    ensures WeightIn(a + c, b, costM) == WeightIn(a, b, costM) + WeightIn(c, b, costM)
    ensures PayoutWeight(a + c, payout) == PayoutWeight(a, payout) + PayoutWeight(c, payout)
  {
    if c == [] {
      assert a + c == a;
    } else {
      WeightsAdd(a, c[..|c| - 1], b, costM, payout);
      assert (a + c)[..|a + c| - 1] == a + c[..|c| - 1];
    }
  }

  lemma WeightsOfOne(r: Weighted, b: Band, costM: nat, payout: nat)
    ensures TotalWeight([r]) == r.weight && WeightedPayout([r]) == r.weight * r.payout
    ensures WeightIn([r], b, costM) == if InBand(b, r.payout, costM) then r.weight else 0
    ensures PayoutWeight([r], payout) == if r.payout == payout then r.weight else 0
  {
    assert [r][..0] == [];
  }

  /** The bands in multiples of the cost, when the thousandths are the cost's own. */
  lemma BandsAreMultiples(payout: nat, costM: nat, cost: real)
    requires costM > 0 && cost * 1000.0 == costM as real && costM * 40 <= U64_MAX
    ensures InBand(BelowCost, payout, costM) <==> Multiple(payout, cost) < 1.0
    ensures InBand(AtMostCost, payout, costM) <==> Multiple(payout, cost) <= 1.0
    ensures InBand(SubBet, payout, costM) <==> 0.0 < Multiple(payout, cost) < 1.0
    ensures InBand(Above40Costs, payout, costM) <==> Multiple(payout, cost) > 40.0
    ensures InBand(From5000, payout, costM) <==> payout as real / 100.0 >= 5000.0
    ensures InBand(From10000, payout, costM) <==> payout as real / 100.0 >= 10000.0
    ensures InBand(Above10000, payout, costM) <==> payout as real / 100.0 > 10000.0
  {
    MultipleAgainst(payout, cost, 0.0);
    MultipleAgainst(payout, cost, 1.0);
    MultipleAgainst(payout, cost, 40.0);
    assert (payout * 10) as real == payout as real * 10.0 && (costM * 40) as real == costM as real * 40.0;
  }

  lemma MultipleAgainst(payout: nat, cost: real, k: real)
    requires cost > 0.0
    ensures Multiple(payout, cost) < k <==> payout as real < 100.0 * k * cost
    ensures Multiple(payout, cost) == k <==> payout as real == 100.0 * k * cost
  {
    var x, y := Multiple(payout, cost), payout as real / 100.0;
    assert x * cost == y;
    if x < k { LessTimes(x, k, cost); } else if x > k { LessTimes(k, x, cost); }
  }

  lemma LessTimes(a: real, b: real, c: real)
    requires a < b && c > 0.0
    ensures a * c < b * c
  {
  }

  // --- The two aggregations agree ----------------------------------------------------------------

  lemma OneRow(w: nat, payout: nat, total: nat, cost: real)
    requires total > 0 && cost > 0.0
    ensures Probability(w, total) * Multiple(payout, cost) == PayoutToRtp(w * payout, total, cost)
  {
    var a, b, t := w as real, payout as real, total as real;
    assert (w * payout) as real == a * b;
    Combine(a, t, b, 100.0, cost);
  }

  lemma Combine(a: real, t: real, b: real, h: real, c: real)
    requires t > 0.0 && h > 0.0 && c > 0.0
    ensures (a / t) * (b / h / c) == (a * b) / h / t / c
  {
    var y := b / h;
    assert a * y == (a * b) / h;
  }

  lemma MulAssoc(a: real, b: real, c: real)
    ensures a * (b * c) == (a * b) * c
  {
  }

  lemma DivMul(x: real, t: real)
    requires t > 0.0
    ensures x * t / t == x
  {
  }

  lemma AddRtp(m: nat, n: nat, total: nat, cost: real)
    requires total > 0 && cost > 0.0
    ensures PayoutToRtp(m + n, total, cost) == PayoutToRtp(m, total, cost) + PayoutToRtp(n, total, cost)
  {
    var a, b, t := m as real / 100.0, n as real / 100.0, total as real;
    DivAdd(a, b, t);
    DivAdd(a / t, b / t, cost);
  }

  lemma DivAdd(a: real, b: real, t: real)
    requires t > 0.0
    ensures (a + b) / t == a / t + b / t
  {
  }

  lemma {:induction false} RtpIsWeightedPayout(rows: seq<Weighted>, total: nat, cost: real)
    requires total > 0 && cost > 0.0
    ensures Rtp(rows, total, cost) == PayoutToRtp(WeightedPayout(rows), total, cost)
  {
    if rows == [] {
      assert 0.0 / 100.0 / total as real / cost == 0.0;
    } else {
      var front, r := rows[..|rows| - 1], rows[|rows| - 1];
      RtpIsWeightedPayout(front, total, cost);
      OneRow(r.weight, r.payout, total, cost);
      AddRtp(WeightedPayout(front), r.weight * r.payout, total, cost);
    }
  }

  lemma {:induction false} PositiveIgnoresCost(rows: seq<Weighted>, c: nat, d: nat)
    ensures WeightIn(rows, Positive, c) == WeightIn(rows, Positive, d)
  {
    if rows != [] {
      PositiveIgnoresCost(rows[..|rows| - 1], c, d);
    }
  }

  /** Whenever the basic path accepts a table, both report the same return, hit rate, top win, cost
      and number of entries. */
  method BothAgree(cost: Cost, rows: seq<Weighted>) returns (stats: Stats, analysis: Analysis)
    requires TotalWeight(rows) > 0
    ensures stats == Stats(analysis.cost, analysis.rtp, analysis.maxWin, analysis.entries, analysis.hitRate)
  {
    var r := ModeStatsFromRows(cost, rows);
    stats := r.value;
    analysis := AnalyseRows(cost, rows);
    RtpIsWeightedPayout(rows, TotalWeight(rows), CostOf(cost));
    BandsPartition(rows, CostThousandths(cost));
    PositiveIgnoresCost(rows, 0, CostThousandths(cost));
  }
}
