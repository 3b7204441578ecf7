/** The distribution of win multipliers over fixed buckets, and what it conserves. */
module Distribution {
  import opened Wrappers
  import opened ModeStats

  /** Lower edges; bucket `i` is (EDGES[i], EDGES[i+1]], the last one is open. */
  const EDGES: seq<real> := [0.0, 0.1, 1.0, 2.0, 5.0, 10.0, 20.0, 50.0, 100.0, 200.0, 500.0, 1000.0, 2000.0, 5000.0,
                             10000.0]

  const N: nat := 15

  /** `i` is the bucket of the multiplier `m`. */
  predicate InBucket(m: real, i: nat) {
    i < N && EDGES[i] < m && (i + 1 < N ==> m <= EDGES[i + 1])
  }

  /** No multiplier has two buckets. */
  lemma BucketIsUnique(m: real, i: nat, j: nat)
    requires InBucket(m, i) && InBucket(m, j)
    ensures i == j
  {
    if i + 1 < j {
    } else if j + 1 < i {
    }
  }

  /** Every positive multiplier has one: the first whose upper edge reaches it. */
  method BucketIndex(m: real) returns (i: nat)
    requires m > 0.0
    ensures InBucket(m, i)
  {
    i := 0;
    while i < N - 1
      invariant 0 <= i <= N - 1 && EDGES[i] < m
    {
      if m <= EDGES[i + 1] { return; }
      i := i + 1;
    }
  }

  /** What a bucket accumulates. */
  datatype Acc = Acc(weight: nat, px: real, payouts: set<nat>)

  datatype DistBucket = DistBucket(
    from: real, to: Option<real>, count: nat, probability: real, effectiveHitRate: Option<real>, rtpContribution: real)

  function Multiplier(payout: nat): real { payout as real / 100.0 }

  /** The edges in payouts, which are hundredths. */
  const HUNDREDTHS: seq<nat> := [0, 10, 100, 200, 500, 1000, 2000, 5000, 10000, 20000, 50000, 100000, 200000, 500000,
                                 1000000]

  /** Which payouts a bucket takes. */
  lemma BucketOfPayout(payout: nat, i: nat)
    requires i < 15
    ensures InBucket(Multiplier(payout), i)
       <==> (HUNDREDTHS[i] < payout && (i < 14 ==> payout <= HUNDREDTHS[i + 1]))
  {
    assert forall k :: 0 <= k < 15 ==> EDGES[k] * 100.0 == HUNDREDTHS[k] as real;
  }

  /** The weight of the rows whose multiplier falls in bucket `i`. */
  function BucketWeight(rows: seq<Weighted>, i: nat): nat {
    if rows == [] then 0
    else
      var r := rows[|rows| - 1];
      BucketWeight(rows[..|rows| - 1], i) + if InBucket(Multiplier(r.payout), i) then r.weight else 0
  }

  function BucketPayouts(rows: seq<Weighted>, i: nat): set<nat> {
    set k | 0 <= k < |rows| && InBucket(Multiplier(rows[k].payout), i) :: rows[k].payout
  }

  /** The return of those rows. */
  function BucketReturn(rows: seq<Weighted>, i: nat, total: nat, cost: real): real
    requires total > 0 && cost > 0.0
  {
    if rows == [] then 0.0
    else
      var r := rows[|rows| - 1];
      BucketReturn(rows[..|rows| - 1], i, total, cost)
      + if InBucket(Multiplier(r.payout), i) then Probability(r.weight, total) * Multiple(r.payout, cost) else 0.0
  }

  function SumWeight(b: seq<Acc>): nat { if b == [] then 0 else SumWeight(b[..|b| - 1]) + b[|b| - 1].weight }

  function SumPx(b: seq<Acc>): real { if b == [] then 0.0 else SumPx(b[..|b| - 1]) + b[|b| - 1].px }

  lemma {:induction false} SumUpdate(b: seq<Acc>, i: nat, a: Acc)
    requires i < |b|
    ensures SumWeight(b[i := a]) == SumWeight(b) - b[i].weight + a.weight
    ensures SumPx(b[i := a]) == SumPx(b) - b[i].px + a.px
  {
    var front := b[..|b| - 1];
    if i == |b| - 1 {
      assert b[i := a][..|b| - 1] == front;
    } else {
      SumUpdate(front, i, a);
      assert b[i := a][..|b| - 1] == front[i := a];
    }
  }

  /** Each bucket holds the weight and the distinct payouts of its own rows. */
  ghost predicate Filled(b: seq<Acc>, rows: seq<Weighted>) {
    |b| == N && forall i :: 0 <= i < N ==>
      b[i].weight == BucketWeight(rows, i) && b[i].payouts == BucketPayouts(rows, i)
  }

  /** All together hold a weight and a return, an empty one no return. */
  ghost predicate AddUpTo(b: seq<Acc>, weight: nat, px: real) {
    && (forall i :: 0 <= i < |b| ==> b[i].weight == 0 ==> b[i].px == 0.0)
    && SumWeight(b) == weight && SumPx(b) == px
  }

  /** All together hold the winning weight and the return. */
  ghost predicate SumsTo(b: seq<Acc>, rows: seq<Weighted>, total: nat, cost: real)
    requires total > 0 && cost > 0.0
  {
    AddUpTo(b, WeightIn(rows, Positive, 0), Rtp(rows, total, cost))
  }

  lemma PlaceOne(b: seq<Acc>, idx: nat, a: Acc, weight: nat, px: real, w: nat, x: real)
    requires AddUpTo(b, weight, px) && idx < |b| && (b[idx].weight + w == 0 ==> x == 0.0)
    requires a.weight == b[idx].weight + w && a.px == b[idx].px + x
    ensures AddUpTo(b[idx := a], weight + w, px + x)
  {
    SumUpdate(b, idx, a);
  }

  /** Each bucket holds the return of its own rows. */
  ghost predicate Returns(b: seq<Acc>, rows: seq<Weighted>, total: nat, cost: real)
    requires total > 0 && cost > 0.0
  {
    |b| == N && forall i :: 0 <= i < N ==> b[i].px == BucketReturn(rows, i, total, cost)
  }

  /** The buckets describe the rows. */
  ghost predicate Describe(b: seq<Acc>, rows: seq<Weighted>, total: nat, cost: real)
    requires total > 0 && cost > 0.0
  {
    Filled(b, rows) && Returns(b, rows, total, cost) && SumsTo(b, rows, total, cost)
  }

  lemma {:induction false} SumOfZeros(b: seq<Acc>)
    requires forall i :: 0 <= i < |b| ==> b[i].weight == 0 && b[i].px == 0.0
    ensures SumWeight(b) == 0 && SumPx(b) == 0.0
  {
    if b != [] {
      SumOfZeros(b[..|b| - 1]);
    }
  }

  function Added(acc: Acc, r: Weighted, total: nat, cost: real): Acc
    requires total > 0 && cost > 0.0
  {
    Acc(acc.weight + r.weight, acc.px + Probability(r.weight, total) * Multiple(r.payout, cost),
        acc.payouts + {r.payout})
  }

  lemma PlacedFills(b: seq<Acc>, a: Acc, r: Weighted, idx: nat, rows: seq<Weighted>)
    requires Filled(b, rows) && InBucket(Multiplier(r.payout), idx)
    requires a.weight == b[idx].weight + r.weight && a.payouts == b[idx].payouts + {r.payout}
    ensures Filled(b[idx := a], rows + [r])
  {
    forall i | 0 <= i < N && InBucket(Multiplier(r.payout), i) ensures i == idx {
      BucketIsUnique(Multiplier(r.payout), i, idx);
    }
  }

  lemma ReturnSnoc(rows: seq<Weighted>, r: Weighted, i: nat, total: nat, cost: real)
    requires total > 0 && cost > 0.0
    ensures BucketReturn(rows + [r], i, total, cost) == BucketReturn(rows, i, total, cost)
      + if InBucket(Multiplier(r.payout), i) then Probability(r.weight, total) * Multiple(r.payout, cost) else 0.0
  {
    assert (rows + [r])[..|rows|] == rows;
  }

  lemma PlacedReturns(b: seq<Acc>, r: Weighted, idx: nat, rows: seq<Weighted>, total: nat, cost: real)
    requires total > 0 && cost > 0.0 && Returns(b, rows, total, cost) && InBucket(Multiplier(r.payout), idx)
    ensures Returns(b[idx := Added(b[idx], r, total, cost)], rows + [r], total, cost)
  {
    forall i | 0 <= i < N
      ensures b[idx := Added(b[idx], r, total, cost)][i].px == BucketReturn(rows + [r], i, total, cost)
    {
      ReturnSnoc(rows, r, i, total, cost);
      if i != idx && InBucket(Multiplier(r.payout), i) { BucketIsUnique(Multiplier(r.payout), i, idx); }
    }
  }

  /** A row that pays nothing changes nothing. */
  lemma ZeroRow(b: seq<Acc>, r: Weighted, rows: seq<Weighted>, total: nat, cost: real)
    requires total > 0 && cost > 0.0 && Describe(b, rows, total, cost) && r.payout == 0
    ensures Describe(b, rows + [r], total, cost)
  {
    forall i | 0 <= i < N ensures BucketReturn(rows + [r], i, total, cost) == BucketReturn(rows, i, total, cost) {
      ReturnSnoc(rows, r, i, total, cost);
    }
  }

  lemma PlacedSums(b: seq<Acc>, r: Weighted, idx: nat, rows: seq<Weighted>, total: nat, cost: real)
    requires total > 0 && cost > 0.0 && SumsTo(b, rows, total, cost) && idx < |b| && r.payout > 0
    ensures SumsTo(b[idx := Added(b[idx], r, total, cost)], rows + [r], total, cost)
  {
    PlaceOne(b, idx, Added(b[idx], r, total, cost), WeightIn(rows, Positive, 0), Rtp(rows, total, cost),
             r.weight, Probability(r.weight, total) * Multiple(r.payout, cost));
  }

  /** One row goes to its bucket, or nowhere when it pays nothing. */
  method AddRow(b: seq<Acc>, r: Weighted, ghost rows: seq<Weighted>, total: nat, cost: real) returns (next: seq<Acc>)
    requires total > 0 && cost > 0.0 && Describe(b, rows, total, cost)
    ensures Describe(next, rows + [r], total, cost)
  {
    if r.payout == 0 {
      ZeroRow(b, r, rows, total, cost);
      next := b;
    } else {
      var idx := BucketIndex(Multiplier(r.payout));
      PlacedFills(b, Added(b[idx], r, total, cost), r, idx, rows);
      PlacedReturns(b, r, idx, rows, total, cost);
      PlacedSums(b, r, idx, rows, total, cost);
      next := b[idx := Added(b[idx], r, total, cost)];
    }
  }

  function ToBucket(b: seq<Acc>, i: nat, total: nat): DistBucket
    requires i < |b| == N && total > 0
  {
    var p := Probability(b[i].weight, total);
    DistBucket(EDGES[i], if i + 1 < N then Some(EDGES[i + 1]) else None, |b[i].payouts|, p,
               if p > 0.0 then Some(1.0 / p) else None, b[i].px)
  }

  function SumProbability(d: seq<DistBucket>): real {
    if d == [] then 0.0 else SumProbability(d[..|d| - 1]) + d[|d| - 1].probability
  }

  function SumContribution(d: seq<DistBucket>): real {
    if d == [] then 0.0 else SumContribution(d[..|d| - 1]) + d[|d| - 1].rtpContribution
  }

  function Buckets(b: seq<Acc>, keep: nat, total: nat): seq<DistBucket>
    requires keep <= |b| == N && total > 0
  {
    seq(keep, i requires 0 <= i < keep => ToBucket(b, i, total))
  }

  lemma {:induction false} SumBuckets(b: seq<Acc>, keep: nat, total: nat)
    requires keep <= |b| == N && total > 0
    ensures SumProbability(Buckets(b, keep, total)) == Probability(SumWeight(b[..keep]), total)
    ensures SumContribution(Buckets(b, keep, total)) == SumPx(b[..keep])
  {
    if keep > 0 {
      SumBuckets(b, keep - 1, total);
      assert b[..keep][..keep - 1] == b[..keep - 1];
      assert Buckets(b, keep, total)[..keep - 1] == Buckets(b, keep - 1, total);
      DivAdd(SumWeight(b[..keep - 1]) as real, b[keep - 1].weight as real, total as real);
    }
  }

  /** Dropping buckets that are empty to the end drops nothing from the sums. */
  lemma {:induction false} DropTrailing(b: seq<Acc>, keep: nat)
    requires keep <= |b| && forall i :: keep <= i < |b| ==> b[i].weight == 0 && b[i].px == 0.0
    ensures SumWeight(b[..keep]) == SumWeight(b) && SumPx(b[..keep]) == SumPx(b)
    decreases |b|
  {
    if keep == |b| {
      assert b[..keep] == b;
    } else {
      var front := b[..|b| - 1];
      DropTrailing(front, keep);
      assert front[..keep] == b[..keep];
    }
  }

  lemma KeptBuckets(b: seq<Acc>, keep: nat, rows: seq<Weighted>, total: nat, cost: real)
    requires total > 0 && cost > 0.0 && Describe(b, rows, total, cost)
    requires keep <= N && forall i :: keep <= i < N ==> b[i].weight == 0
    ensures SumProbability(Buckets(b, keep, total)) == Probability(WeightIn(rows, Positive, 0), total)
    ensures SumContribution(Buckets(b, keep, total)) == Rtp(rows, total, cost)
  {
    SumBuckets(b, keep, total);
    DropTrailing(b, keep);
  }

  /** `d` is what the rows of bucket `i` come to. */
  ghost predicate Summarises(d: DistBucket, rows: seq<Weighted>, i: nat, total: nat, cost: real)
    requires i < N && total > 0 && cost > 0.0
  {
    var w := BucketWeight(rows, i);
    && d.from == EDGES[i] && d.to == (if i + 1 < N then Some(EDGES[i + 1]) else None)
    && d.probability == Probability(w, total) && d.count == |BucketPayouts(rows, i)|
    && d.effectiveHitRate == (if w > 0 then Some(total as real / w as real) else None)
    && d.rtpContribution == BucketReturn(rows, i, total, cost)
  }

  lemma Reciprocal(w: nat, total: nat)
    requires total > 0
    ensures Probability(w, total) > 0.0 <==> w > 0
    ensures w > 0 ==> 1.0 / Probability(w, total) == total as real / w as real
  {
    if w > 0 {
      var p, t, v := Probability(w, total), total as real, w as real;
      assert p * t == v;
      assert p > 0.0;
      ReciprocalOf(p, t, v);
    }
  }

  lemma ReciprocalOf(p: real, t: real, v: real)
    requires p > 0.0 && t > 0.0 && p * t == v
    ensures v > 0.0 && 1.0 / p == t / v
  {
    var q := 1.0 / p;
    assert q * p == 1.0;
    assert q * v == q * p * t;
    DivMul(q, v);
  }

  lemma BucketsSummarise(b: seq<Acc>, keep: nat, rows: seq<Weighted>, total: nat, cost: real)
    requires total > 0 && cost > 0.0 && Filled(b, rows) && Returns(b, rows, total, cost) && keep <= N
    ensures forall i :: 0 <= i < keep ==> Summarises(Buckets(b, keep, total)[i], rows, i, total, cost)
  {
    forall i | 0 <= i < keep ensures Summarises(Buckets(b, keep, total)[i], rows, i, total, cost) {
      Reciprocal(b[i].weight, total);
    }
  }

  /** `distribution`: each bucket has the weight, the return and the number of distinct payouts of its rows; the
      probabilities add up to the hit rate and the contributions to the return, although the empty
      buckets past the top win are left out. */
  method Distribute(rows: seq<Weighted>, cost: real) returns (d: seq<DistBucket>)
    requires TotalWeight(rows) > 0 && cost > 0.0
    ensures |d| <= N && SumProbability(d) == Probability(WeightIn(rows, Positive, 0), TotalWeight(rows))
    ensures SumContribution(d) == Rtp(rows, TotalWeight(rows), cost)
    ensures forall i :: 0 <= i < |d| ==> Summarises(d[i], rows, i, TotalWeight(rows), cost)
    ensures forall i :: |d| <= i < N ==> BucketWeight(rows, i) == 0
    ensures d != [] ==> BucketWeight(rows, |d| - 1) > 0
  {
    var total := SumWeights(rows);
    var buckets := AddRows(rows, total, cost);
    var keep := TopBucket(buckets);
    KeptBuckets(buckets, keep, rows, total, cost);
    BucketsSummarise(buckets, keep, rows, total, cost);
    d := Buckets(buckets, keep, total);
  }

  /** One past the last bucket that holds weight. */
  method TopBucket(b: seq<Acc>) returns (keep: nat)
    ensures keep <= |b| && forall i :: keep <= i < |b| ==> b[i].weight == 0
    ensures keep > 0 ==> b[keep - 1].weight > 0
  {
    keep := |b|;
    while keep > 0 && b[keep - 1].weight == 0
      invariant 0 <= keep <= |b|
      invariant forall i :: keep <= i < |b| ==> b[i].weight == 0
    {
      keep := keep - 1;
    }
  }

  method AddRows(rows: seq<Weighted>, total: nat, cost: real) returns (buckets: seq<Acc>)
    requires total > 0 && cost > 0.0
    ensures Describe(buckets, rows, total, cost)
  {
    buckets := seq(N, _ => Acc(0, 0.0, {}));
    SumOfZeros(buckets);
    for i := 0 to |rows|
      invariant Describe(buckets, rows[..i], total, cost)
    {
      assert rows[..i + 1] == rows[..i] + [rows[i]];
      buckets := AddRow(buckets, rows[i], rows[..i], total, cost);
    }
    assert rows[..|rows|] == rows;
  }

  /** The two other statements of the hit rate: the share of weight that pays, and what the zero
      payouts leave. */
  lemma HitRate(rows: seq<Weighted>, costM: nat)
    requires TotalWeight(rows) > 0
    ensures Probability(WeightIn(rows, Positive, 0), TotalWeight(rows))
         == 1.0 - Probability(WeightIn(rows, Zero, costM), TotalWeight(rows))
  {
    var t := TotalWeight(rows);
    BandsPartition(rows, costM);
    PositiveIgnoresCost(rows, 0, costM);
    DivMul(1.0, t as real);
    DivAdd(WeightIn(rows, Positive, costM) as real, WeightIn(rows, Zero, costM) as real, t as real);
  }
}
