/** The mean multiplier of the best 0.1% of outcomes. */
module Cvar {
  import opened Sequences
  import opened ModeStats
  import opened TailOptimum

  const TAIL: real := 0.001

  function ItemOf(r: Weighted, total: nat, cost: real): Item
    requires total > 0 && cost > 0.0
  {
    Item(Probability(r.weight, total), Multiple(r.payout, cost))
  }

  function Items(rows: seq<Weighted>, total: nat, cost: real): (r: seq<Item>)
    requires total > 0 && cost > 0.0
    ensures |r| == |rows| && forall i :: 0 <= i < |rows| ==> r[i] == ItemOf(rows[i], total, cost)
  {
    seq(|rows|, i requires 0 <= i < |rows| => ItemOf(rows[i], total, cost))
  }

  predicate PayoutDescending(rows: seq<Weighted>) {
    forall i, j :: 0 <= i < j < |rows| ==> rows[i].payout >= rows[j].payout
  }

  /** `sort_by_key(Reverse(payout))`, as an insertion sort. */
  method SortDescending(rows: seq<Weighted>) returns (r: seq<Weighted>)
    ensures PayoutDescending(r) && multiset(r) == multiset(rows)
  {
    r := [];
    for i := 0 to |rows|
      invariant PayoutDescending(r) && multiset(r) == multiset(rows[..i])
    {
      assert rows[..i + 1] == rows[..i] + [rows[i]];
      r := InsertDescending(r, rows[i]);
    }
    assert rows[..|rows|] == rows;
  }

  method InsertDescending(rows: seq<Weighted>, e: Weighted) returns (r: seq<Weighted>)
    requires PayoutDescending(rows)
    ensures PayoutDescending(r) && multiset(r) == multiset(rows) + multiset{e}
  {
    var k := |rows|;
    while k > 0 && rows[k - 1].payout < e.payout
      invariant 0 <= k <= |rows|
      invariant forall j :: k <= j < |rows| ==> rows[j].payout < e.payout
    {
      k := k - 1;
    }
    InsertMultiset(rows, k, e);
    r := rows[..k] + [e] + rows[k..];
  }

  // --- Rows as outcomes ------------------------------------------------------------------

  lemma {:induction false} TotalIsPermuted(a: seq<Weighted>, b: seq<Weighted>)
    requires multiset(a) == multiset(b)
    ensures TotalWeight(a) == TotalWeight(b)
    decreases |a|
  {
    SameLength(a, b);
    if a != [] {
      var k := Find(a, b);
      DropMultiset(a, b, k);
      TotalDrop(b, k);
      TotalDrop(a, 0);
      assert Drop(a, 0) == a[1..];
      TotalIsPermuted(a[1..], Drop(b, k));
    }
  }

  lemma {:induction false} TotalDrop(rows: seq<Weighted>, k: nat)
    requires k < |rows|
    ensures TotalWeight(rows) == rows[k].weight + TotalWeight(Drop(rows, k))
  {
    if k == |rows| - 1 {
      assert Drop(rows, k) == rows[..k];
    } else {
      var front := rows[..|rows| - 1];
      TotalDrop(front, k);
      assert Drop(rows, k) == Drop(front, k) + [rows[|rows| - 1]];
      assert Drop(rows, k)[..|rows| - 2] == Drop(front, k);
    }
  }

  /** Reordered rows give reordered outcomes. */
  lemma {:induction false} ItemsArePermuted(a: seq<Weighted>, b: seq<Weighted>, total: nat, cost: real)
    requires multiset(a) == multiset(b) && total > 0 && cost > 0.0
    ensures multiset(Items(a, total, cost)) == multiset(Items(b, total, cost))
    decreases |a|
  {
    SameLength(a, b);
    if a != [] {
      var k := Find(a, b);
      DropMultiset(a, b, k);
      ItemsArePermuted(a[1..], Drop(b, k), total, cost);
      ItemsDrop(b, k, total, cost);
      ItemsDrop(a, 0, total, cost);
      assert Drop(a, 0) == a[1..];
    }
  }

  lemma ItemsDrop(b: seq<Weighted>, k: nat, total: nat, cost: real)
    requires k < |b| && total > 0 && cost > 0.0
    ensures multiset(Items(b, total, cost))
      == multiset(Items(Drop(b, k), total, cost)) + multiset{ItemOf(b[k], total, cost)}
  {
    var s := Items(b, total, cost);
    assert s == s[..k] + [s[k]] + s[k + 1..];
    assert Items(Drop(b, k), total, cost) == s[..k] + s[k + 1..];
  }

  lemma {:induction false} MassOfItems(rows: seq<Weighted>, total: nat, cost: real)
    requires total > 0 && cost > 0.0
    ensures Mass(Items(rows, total, cost)) == Probability(TotalWeight(rows), total)
  {
    if rows != [] {
      var front, last := rows[..|rows| - 1], rows[|rows| - 1];
      MassOfItems(front, total, cost);
      assert Items(rows, total, cost) == Items(front, total, cost) + [ItemOf(last, total, cost)];
      MassSnoc(Items(front, total, cost), ItemOf(last, total, cost));
      DivAdd(TotalWeight(front) as real, last.weight as real, total as real);
    }
  }

  lemma {:induction false} MassSnoc(items: seq<Item>, e: Item)
    ensures Mass(items + [e]) == Mass(items) + e.p
  {
    if items != [] {
      assert (items + [e])[1..] == items[1..] + [e];
      MassSnoc(items[1..], e);
    }
  }

  lemma MultipleIsMonotone(a: nat, b: nat, cost: real)
    requires a <= b && cost > 0.0
    ensures Multiple(a, cost) <= Multiple(b, cost)
  {
  }

  lemma ItemsAreSound(rows: seq<Weighted>, total: nat, cost: real)
    requires total > 0 && cost > 0.0
    ensures Masses(Items(rows, total, cost))
    ensures PayoutDescending(rows) ==> Descending(Items(rows, total, cost))
  {
    var items := Items(rows, total, cost);
    forall i | 0 <= i < |items| ensures items[i].p >= 0.0 {
    }
    if PayoutDescending(rows) {
      forall i, j | 0 <= i < j < |items| ensures items[i].x >= items[j].x {
        MultipleIsMonotone(rows[j].payout, rows[i].payout, cost);
      }
    }
  }

  // --- The computation ------------------------------------------------------------------------

  /** `value` is the best mean multiplier over a mass of `TAIL`. */
  ghost predicate IsTailMean(rows: seq<Weighted>, cost: real, value: real)
    requires TotalWeight(rows) > 0 && cost > 0.0
  {
    IsOptimum(Items(rows, TotalWeight(rows), cost), TAIL, value * TAIL)
  }

  /** As much of one item as still fits. */
  method TakeNext(item: Item, remaining: real, ghost items: seq<Item>, ghost i: nat) returns (take: real, gain: real)
    requires i < |items| && items[i] == item && remaining > 0.0
    ensures Greedy(items[i..], remaining) == gain + Greedy(items[i + 1..], remaining - take)
  {
    TakeOne(items, i, remaining);
    take := Min(item.p, remaining);
    gain := take * item.x;
  }

  /** The loop over the sorted rows, splitting the boundary row. */
  method TakeTail(sorted: seq<Weighted>, total: nat, cost: real) returns (acc: real)
    requires total > 0 && cost > 0.0
    ensures acc == Greedy(Items(sorted, total, cost), TAIL)
  {
    ghost var items := Items(sorted, total, cost);
    var remaining := TAIL;
    acc := 0.0;
    var i := 0;
    assert items[0..] == items;
    while i < |sorted| && remaining > 0.0
      invariant 0 <= i <= |sorted|
      invariant acc + Greedy(items[i..], remaining) == Greedy(items, TAIL)
    {
      var take, gain := TakeNext(ItemOf(sorted[i], total, cost), remaining, items, i);
      acc := acc + gain;
      remaining := remaining - take;
      i := i + 1;
    }
  }

  /** `cvar_top_tail`: sorts by payout and takes exactly the tail mass from the top. No other choice
      of that mass has a larger mean. */
  method CvarTopTail(rows: seq<Weighted>, cost: real) returns (value: real)
    requires TotalWeight(rows) > 0 && cost > 0.0
    ensures IsTailMean(rows, cost, value)
  {
    var total := SumWeights(rows);
    var sorted := SortDescending(rows);
    var acc := TakeTail(sorted, total, cost);
    value := acc / TAIL;
    SortedOptimum(rows, sorted, cost);
    assert value * TAIL == acc;
  }

  lemma TakeOne(items: seq<Item>, i: nat, remaining: real)
    requires i < |items| && remaining > 0.0
    ensures var take := Min(items[i].p, remaining);
      Greedy(items[i..], remaining) == take * items[i].x + Greedy(items[i + 1..], remaining - take)
  {
    assert items[i..][1..] == items[i + 1..];
  }

  lemma SortedIsOptimal(sorted: seq<Weighted>, total: nat, cost: real)
    requires total == TotalWeight(sorted) > 0 && cost > 0.0 && PayoutDescending(sorted)
    ensures IsOptimum(Items(sorted, total, cost), TAIL, Greedy(Items(sorted, total, cost), TAIL))
  {
    var items := Items(sorted, total, cost);
    ItemsAreSound(sorted, total, cost);
    MassIsOne(sorted, total, cost);
    GreedyIsOptimal(items, TAIL);
  }

  lemma MassIsOne(rows: seq<Weighted>, total: nat, cost: real)
    requires total == TotalWeight(rows) > 0 && cost > 0.0
    ensures Mass(Items(rows, total, cost)) == 1.0
  {
    MassOfItems(rows, total, cost);
  }

  lemma SortedOptimum(rows: seq<Weighted>, sorted: seq<Weighted>, cost: real)
    requires TotalWeight(rows) > 0 && cost > 0.0
    requires PayoutDescending(sorted) && multiset(sorted) == multiset(rows)
    ensures IsOptimum(Items(rows, TotalWeight(rows), cost), TAIL, Greedy(Items(sorted, TotalWeight(rows), cost), TAIL))
  {
    var total := TotalWeight(rows);
    TotalIsPermuted(sorted, rows);
    SortedIsOptimal(sorted, total, cost);
    ItemsArePermuted(sorted, rows, total, cost);
    OptimumOfReordered(Items(sorted, total, cost), Items(rows, total, cost), TAIL,
                       Greedy(Items(sorted, total, cost), TAIL));
  }

  /** The value does not depend on the order of the rows, nor on how equal payouts sort. */
  lemma TailMeanIgnoresOrder(a: seq<Weighted>, b: seq<Weighted>, cost: real, v: real, w: real)
    requires TotalWeight(a) > 0 && TotalWeight(b) > 0 && cost > 0.0
    requires multiset(a) == multiset(b) && IsTailMean(a, cost, v) && IsTailMean(b, cost, w)
    ensures v == w
  {
    TotalIsPermuted(a, b);
    var total := TotalWeight(a);
    ItemsArePermuted(a, b, total, cost);
    OptimumOfReordered(Items(a, total, cost), Items(b, total, cost), TAIL, v * TAIL);
    OptimumIsUnique(Items(b, total, cost), TAIL, v * TAIL, w * TAIL);
  }

  // --- Bounds -----------------------------------------------------------------------------------

  /** Taking a thousandth of every outcome. */
  function Share(items: seq<Item>): (r: seq<real>)
    ensures |r| == |items|
  {
    if items == [] then [] else [0.001 * items[0].p] + Share(items[1..])
  }

  lemma {:induction false} ShareSum(items: seq<Item>)
    ensures Sum(Share(items)) == 0.001 * Mass(items)
  {
    if items != [] {
      ShareSum(items[1..]);
      assert Share(items)[1..] == Share(items[1..]);
    }
  }

  /** The mean of all outcomes. */
  function Mean(items: seq<Item>): real {
    if items == [] then 0.0 else items[0].p * items[0].x + Mean(items[1..])
  }

  lemma {:induction false} ShareGain(items: seq<Item>)
    ensures Gain(items, Share(items)) == 0.001 * Mean(items)
  {
    if items != [] {
      ShareGain(items[1..]);
      assert Share(items)[1..] == Share(items[1..]);
      MulAssoc(0.001, items[0].p, items[0].x);
    }
  }

  lemma {:induction false} MeanSnoc(items: seq<Item>, e: Item)
    ensures Mean(items + [e]) == Mean(items) + e.p * e.x
  {
    if items != [] {
      assert (items + [e])[1..] == items[1..] + [e];
      MeanSnoc(items[1..], e);
    }
  }

  lemma {:induction false} MeanIsRtp(rows: seq<Weighted>, total: nat, cost: real)
    requires total > 0 && cost > 0.0
    ensures Mean(Items(rows, total, cost)) == Rtp(rows, total, cost)
  {
    if rows != [] {
      var front, last := rows[..|rows| - 1], rows[|rows| - 1];
      MeanIsRtp(front, total, cost);
      assert Items(rows, total, cost) == Items(front, total, cost) + [ItemOf(last, total, cost)];
      MeanSnoc(Items(front, total, cost), ItemOf(last, total, cost));
    }
  }

  lemma {:induction false} BelowMaxPayout(rows: seq<Weighted>, i: nat)
    requires i < |rows|
    ensures rows[i].payout <= MaxPayout(rows)
  {
    if i < |rows| - 1 {
      BelowMaxPayout(rows[..|rows| - 1], i);
    }
  }

  lemma {:induction false} ShareAt(items: seq<Item>, i: nat)
    requires i < |items|
    ensures Share(items)[i] == 0.001 * items[i].p
  {
    if i > 0 {
      ShareAt(items[1..], i - 1);
    }
  }

  lemma ShareFeasible(items: seq<Item>)
    requires Masses(items) && Mass(items) == 1.0
    ensures Feasible(items, Share(items), TAIL)
  {
    ShareSum(items);
    forall i | 0 <= i < |items| ensures 0.0 <= Share(items)[i] <= items[i].p {
      ShareAt(items, i);
    }
  }

  /** The tail mean lies between the return and the top multiple. */
  lemma TailMeanBounds(rows: seq<Weighted>, cost: real, value: real)
    requires TotalWeight(rows) > 0 && cost > 0.0 && IsTailMean(rows, cost, value)
    ensures Rtp(rows, TotalWeight(rows), cost) <= value <= Multiple(MaxPayout(rows), cost)
  {
    var items := Items(rows, TotalWeight(rows), cost);
    ItemsAreSound(rows, TotalWeight(rows), cost);
    MassIsOne(rows, TotalWeight(rows), cost);
    ShareFeasible(items);
    ShareGain(items);
    MeanIsRtp(rows, TotalWeight(rows), cost);
    var top := Multiple(MaxPayout(rows), cost);
    var t :| Feasible(items, t, TAIL) && Gain(items, t) == value * TAIL;
    WeakDuality(items, t, TAIL, top);
    forall i | 0 <= i < |items| ensures items[i].x <= top {
      BelowMaxPayout(rows, i);
      MultipleIsMonotone(rows[i].payout, MaxPayout(rows), cost);
    }
    NoExcess(items, top);
  }
}
