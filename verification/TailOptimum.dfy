/** Filling a fixed probability mass with the largest outcomes first is the best way to fill it:
    the fractional knapsack, by linear-programming duality. */
module TailOptimum {
  import opened Sequences

  /** An outcome: its probability mass and its value. */
  datatype Item = Item(p: real, x: real)

  ghost predicate Masses(items: seq<Item>) { forall i :: 0 <= i < |items| ==> items[i].p >= 0.0 }

  predicate Descending(items: seq<Item>) { forall i, j :: 0 <= i < j < |items| ==> items[i].x >= items[j].x }

  function Min(a: real, b: real): real { if a <= b then a else b }

  function Mass(items: seq<Item>): real { if items == [] then 0.0 else items[0].p + Mass(items[1..]) }

  function Sum(t: seq<real>): real { if t == [] then 0.0 else t[0] + Sum(t[1..]) }

  /** The value of taking mass `t[i]` of each outcome. */
  function Gain(items: seq<Item>, t: seq<real>): real
    requires |t| == |items|
  {
    if items == [] then 0.0 else t[0] * items[0].x + Gain(items[1..], t[1..])
  }

  /** A choice of masses within the outcomes' own, adding up to `m`. */
  ghost predicate Feasible(items: seq<Item>, t: seq<real>, m: real) {
    |t| == |items| && Sum(t) == m && forall i :: 0 <= i < |t| ==> 0.0 <= t[i] <= items[i].p
  }

  /** `g` is the largest value of any choice of total mass `m`. */
  ghost predicate IsOptimum(items: seq<Item>, m: real, g: real) {
    && (exists t :: Feasible(items, t, m) && Gain(items, t) == g)
    && (forall t :: Feasible(items, t, m) ==> Gain(items, t) <= g)
  }

  /** Takes from the front until `m` is used up. */
  function Greedy(items: seq<Item>, m: real): real {
    if items == [] || m <= 0.0 then 0.0
    else
      var take := Min(items[0].p, m);
      take * items[0].x + Greedy(items[1..], m - take)
  }

  // --- Duality --------------------------------------------------------------------------

  /** What the outcomes are worth above the price `y`. */
  function Excess(items: seq<Item>, y: real): real {
    if items == [] then 0.0
    else (if items[0].x > y then items[0].p * (items[0].x - y) else 0.0) + Excess(items[1..], y)
  }

  lemma OneItem(t: real, p: real, x: real, y: real)
    requires 0.0 <= t <= p
    ensures t * x <= y * t + if x > y then p * (x - y) else 0.0
  {
    var d := x - y;
    assert t * x == y * t + t * d;
    if d > 0.0 { MulLe(t, p, d); } else { MulSign(t, d); }
  }

  lemma MulLe(a: real, b: real, d: real)
    requires a <= b && d >= 0.0
    ensures a * d <= b * d
  {
  }

  lemma MulSign(a: real, d: real)
    requires a >= 0.0 && d <= 0.0
    ensures a * d <= 0.0
  {
  }

  lemma SplitMass(y: real, first: real, m: real)
    ensures y * m == y * first + y * (m - first)
  {
  }

  /** Weak duality: at any price, no choice beats the price of its mass plus the excess. */
  lemma {:induction false} WeakDuality(items: seq<Item>, t: seq<real>, m: real, y: real)
    requires Feasible(items, t, m)
    ensures Gain(items, t) <= y * m + Excess(items, y)
    decreases |items|
  {
    if items != [] {
      OneItem(t[0], items[0].p, items[0].x, y);
      assert Sum(t[1..]) == m - t[0];
      WeakDuality(items[1..], t[1..], m - t[0], y);
      SplitMass(y, t[0], m);
    }
  }

  lemma {:induction false} NoExcess(items: seq<Item>, y: real)
    requires forall i :: 0 <= i < |items| ==> items[i].x <= y
    ensures Excess(items, y) == 0.0
  {
    if items != [] {
      NoExcess(items[1..], y);
    }
  }

  lemma GreedyFront(items: seq<Item>, m: real)
    requires items != [] && 0.0 < m <= items[0].p
    ensures Greedy(items, m) == m * items[0].x
  {
    assert m - m == 0.0;
    assert Greedy(items[1..], 0.0) == 0.0;
  }

  lemma GreedyStep(items: seq<Item>, m: real, y: real)
    requires items != [] && 0.0 <= items[0].p < m && y <= items[0].x
    ensures Greedy(items, m) == items[0].p * items[0].x + Greedy(items[1..], m - items[0].p)
    ensures Excess(items, y) == items[0].p * (items[0].x - y) + Excess(items[1..], y)
  {
  }

  /** Strong duality: at the price of the last outcome taken, the greedy choice is worth exactly
      that much. */
  lemma {:induction false} StrongDuality(items: seq<Item>, m: real) returns (k: nat)
    requires Masses(items) && Descending(items) && 0.0 < m <= Mass(items)
    ensures k < |items| && Greedy(items, m) == items[k].x * m + Excess(items, items[k].x)
  {
    var p, x := items[0].p, items[0].x;
    if m <= p {
      k := 0;
      GreedyFront(items, m);
      NoExcess(items, x);
    } else {
      var j := StrongDuality(items[1..], m - p);
      k := j + 1;
      var y := items[k].x;
      GreedyStep(items, m, y);
      SplitPrice(p, x, y, m);
    }
  }

  lemma SplitPrice(p: real, x: real, y: real, m: real)
    ensures p * x + y * (m - p) == y * m + p * (x - y)
  {
  }

  // --- The greedy choice is feasible ------------------------------------------------------

  function Zeros(n: nat): (r: seq<real>)
    ensures |r| == n && forall i :: 0 <= i < n ==> r[i] == 0.0
  {
    if n == 0 then [] else [0.0] + Zeros(n - 1)
  }

  lemma {:induction false} ZerosGain(items: seq<Item>)
    ensures Gain(items, Zeros(|items|)) == 0.0 && Sum(Zeros(|items|)) == 0.0
  {
    if items != [] {
      ZerosGain(items[1..]);
      assert Zeros(|items|)[1..] == Zeros(|items| - 1);
    }
  }

  lemma {:induction false} GreedyIsFeasible(items: seq<Item>, m: real) returns (t: seq<real>)
    requires Masses(items) && 0.0 <= m <= Mass(items)
    ensures Feasible(items, t, m) && Gain(items, t) == Greedy(items, m)
  {
    if items == [] || m <= 0.0 {
      t := Zeros(|items|);
      ZerosGain(items);
    } else {
      var take := Min(items[0].p, m);
      MassIsNonNegative(items[1..]);
      var rest := GreedyIsFeasible(items[1..], m - take);
      t := [take] + rest;
      assert t[1..] == rest;
    }
  }

  lemma {:induction false} MassIsNonNegative(items: seq<Item>)
    requires Masses(items)
    ensures Mass(items) >= 0.0
  {
    if items != [] {
      MassIsNonNegative(items[1..]);
    }
  }

  /** On outcomes sorted by value, the greedy value is the optimum. */
  lemma GreedyIsOptimal(items: seq<Item>, m: real)
    requires Masses(items) && Descending(items) && 0.0 < m <= Mass(items)
    ensures IsOptimum(items, m, Greedy(items, m))
  {
    var t := GreedyIsFeasible(items, m);
    var k := StrongDuality(items, m);
    forall u | Feasible(items, u, m)
      ensures Gain(items, u) <= Greedy(items, m)
    {
      WeakDuality(items, u, m, items[k].x);
    }
  }

  /** There is one optimum. */
  lemma OptimumIsUnique(items: seq<Item>, m: real, g: real, h: real)
    requires IsOptimum(items, m, g) && IsOptimum(items, m, h)
    ensures g == h
  {
    var t :| Feasible(items, t, m) && Gain(items, t) == g;
    var u :| Feasible(items, u, m) && Gain(items, u) == h;
  }

  // --- Order does not matter ----------------------------------------------------------------

  lemma {:induction false} DropSum(t: seq<real>, k: nat)
    requires k < |t|
    ensures Sum(t) == t[k] + Sum(Drop(t, k))
  {
    if k == 0 {
      assert Drop(t, 0) == t[1..];
    } else {
      DropSum(t[1..], k - 1);
      assert Drop(t, k) == [t[0]] + Drop(t[1..], k - 1);
    }
  }

  lemma {:induction false} DropGain(items: seq<Item>, t: seq<real>, k: nat)
    requires |t| == |items| && k < |t|
    ensures Gain(items, t) == t[k] * items[k].x + Gain(Drop(items, k), Drop(t, k))
  {
    if k == 0 {
      assert Drop(t, 0) == t[1..] && Drop(items, 0) == items[1..];
    } else {
      DropGain(items[1..], t[1..], k - 1);
      assert Drop(t, k) == [t[0]] + Drop(t[1..], k - 1);
      assert Drop(items, k) == [items[0]] + Drop(items[1..], k - 1);
    }
  }

  /** A choice carries over to any reordering of the outcomes. */
  lemma {:induction false} Reorder(a: seq<Item>, b: seq<Item>, t: seq<real>, m: real) returns (u: seq<real>)
    requires multiset(a) == multiset(b) && Feasible(a, t, m)
    ensures Feasible(b, u, m) && Gain(b, u) == Gain(a, t)
    decreases |a|
  {
    SameLength(a, b);
    if a == [] {
      u := [];
    } else {
      var k := Find(a, b);
      DropMultiset(a, b, k);
      var rest := Reorder(a[1..], Drop(b, k), t[1..], m - t[0]);
      u := rest[..k] + [t[0]] + rest[k..];
      assert Drop(u, k) == rest;
      DropSum(u, k);
      DropGain(b, u, k);
      Placed(b, rest, k, t[0]);
    }
  }

  lemma Placed(b: seq<Item>, rest: seq<real>, k: nat, x: real)
    requires k < |b| && |rest| == |b| - 1 && 0.0 <= x <= b[k].p
    requires forall i :: 0 <= i < |rest| ==> 0.0 <= rest[i] <= Drop(b, k)[i].p
    ensures var u := rest[..k] + [x] + rest[k..];
      forall i :: 0 <= i < |u| ==> 0.0 <= u[i] <= b[i].p
  {
    var u := rest[..k] + [x] + rest[k..];
    forall i | 0 <= i < |u|
      ensures 0.0 <= u[i] <= b[i].p
    {
      if i < k {
        assert u[i] == rest[i] && Drop(b, k)[i] == b[i];
      } else if i > k {
        assert u[i] == rest[i - 1] && Drop(b, k)[i - 1] == b[i];
      }
    }
  }

  /** Reordered outcomes have the same optimum. */
  lemma OptimumOfReordered(a: seq<Item>, b: seq<Item>, m: real, g: real)
    requires multiset(a) == multiset(b) && IsOptimum(a, m, g)
    ensures IsOptimum(b, m, g)
  {
    var t :| Feasible(a, t, m) && Gain(a, t) == g;
    var u := Reorder(a, b, t, m);
    forall v | Feasible(b, v, m)
      ensures Gain(b, v) <= g
    {
      var w := Reorder(b, a, v, m);
    }
  }
}
