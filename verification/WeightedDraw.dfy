/** The weights table and the weighted draw of an outcome. */
module WeightedDraw {
  import opened Wrappers
  import opened Bets

  datatype WeightEntry = WeightEntry(eventId: nat, weight: nat, payoutMultiplier: nat)

  /** Entries, the running sums of their weights, and the total. */
  datatype WeightSampler = WeightSampler(entries: seq<WeightEntry>, cumWeights: seq<nat>, totalWeight: nat) {
    ghost predicate Valid() {
      && |cumWeights| == |entries| && totalWeight == WeightSum(entries) && totalWeight <= U64_MAX
      && forall i :: 0 <= i < |entries| ==> cumWeights[i] == WeightSum(entries[..i + 1])
    }
  }

  function WeightSum(entries: seq<WeightEntry>): nat {
    if entries == [] then 0 else WeightSum(entries[..|entries| - 1]) + entries[|entries| - 1].weight
  }

  lemma {:induction false} WeightSumPrefix(entries: seq<WeightEntry>, i: nat)
    requires i <= |entries|
    ensures WeightSum(entries[..i]) <= WeightSum(entries)
  {
    if i < |entries| {
      assert entries[..|entries| - 1][..i] == entries[..i];
      WeightSumPrefix(entries[..|entries| - 1], i);
    } else {
      assert entries[..i] == entries;
    }
  }

  lemma WeightSumMono(entries: seq<WeightEntry>, i: nat, j: nat)
    requires i <= j <= |entries|
    ensures WeightSum(entries[..i]) <= WeightSum(entries[..j])
  {
    assert entries[..j][..i] == entries[..i];
    WeightSumPrefix(entries[..j], i);
  }

  /** The sums of parsed entries; an error exactly when the total does not fit 64 bits. */
  method BuildSampler(entries: seq<WeightEntry>) returns (r: Result<WeightSampler, string>)
    ensures r.Ok? <==> WeightSum(entries) <= U64_MAX
    ensures r.Ok? ==> r.value.Valid() && r.value.entries == entries
  {
    var cum, total: nat := [], 0;
    for i := 0 to |entries|
      invariant |cum| == i && total == WeightSum(entries[..i]) <= U64_MAX
      invariant forall j :: 0 <= j < i ==> cum[j] == WeightSum(entries[..j + 1])
    {
      assert entries[..i + 1][..i] == entries[..i];
      WeightSumPrefix(entries, i + 1);
      if total + entries[i].weight > U64_MAX { return Err("weights overflow u64"); }
      total := total + entries[i].weight;
      cum := cum + [total];
    }
    assert entries[..|entries|] == entries;
    r := Ok(WeightSampler(entries, cum, total));
  }

  /** The entry whose share of `0..total` holds `pick`: the one with
      `sum of the weights before it <= pick < that sum plus its weight`. */
  function Chosen(entries: seq<WeightEntry>, pick: nat): (i: nat)
    requires pick < WeightSum(entries)
    ensures i < |entries|
  {
    var front := entries[..|entries| - 1];
    if pick < WeightSum(front) then Chosen(front, pick) else |entries| - 1
  }

  ghost predicate InShare(entries: seq<WeightEntry>, i: nat, pick: nat)
    requires i < |entries|
  {
    WeightSum(entries[..i]) <= pick < WeightSum(entries[..i + 1])
  }

  lemma {:induction false} ChosenInShare(entries: seq<WeightEntry>, pick: nat)
    requires pick < WeightSum(entries)
    ensures InShare(entries, Chosen(entries, pick), pick)
  {
    var front := entries[..|entries| - 1];
    if pick < WeightSum(front) {
      var i := Chosen(front, pick);
      ChosenInShare(front, pick);
      assert front[..i] == entries[..i] && front[..i + 1] == entries[..i + 1];
    } else {
      assert entries[..|entries|] == entries;
    }
  }

  /** Shares do not overlap. */
  lemma ShareIsUnique(entries: seq<WeightEntry>, i: nat, j: nat, pick: nat)
    requires i < |entries| && j < |entries| && InShare(entries, i, pick) && InShare(entries, j, pick)
    ensures i == j
  {
    if i < j {
      WeightSumMono(entries, i + 1, j);
    } else if j < i {
      WeightSumMono(entries, j + 1, i);
    }
  }

  /** The binary search of `weighted_pick`, for a pick below the total. */
  method WeightedPick(sampler: WeightSampler, pick: nat) returns (e: WeightEntry)
    requires sampler.Valid() && pick < sampler.totalWeight
    ensures e == sampler.entries[Chosen(sampler.entries, pick)]
  {
    var cw := sampler.cumWeights;
    assert sampler.entries[..|sampler.entries|] == sampler.entries;
    var lo, hi := 0, |cw| - 1;
    while lo < hi
      invariant 0 <= lo <= hi < |cw|
      invariant lo > 0 ==> cw[lo - 1] <= pick
      invariant pick < cw[hi]
    {
      var mid := (lo + hi) / 2;
      if cw[mid] <= pick {
        lo := mid + 1;
      } else {
        hi := mid;
      }
    }
    assert InShare(sampler.entries, lo, pick) by {
      assert lo == 0 ==> sampler.entries[..lo] == [];
    }
    ChosenInShare(sampler.entries, pick);
    ShareIsUnique(sampler.entries, lo, Chosen(sampler.entries, pick), pick);
    e := sampler.entries[lo];
  }

  // --- How often each entry is drawn -----------------------------------------------------------

  /** How many raw values below `n` draw entry `i`, a raw value being reduced modulo the total. */
  ghost function DrawCount(entries: seq<WeightEntry>, i: nat, n: nat): nat
    requires WeightSum(entries) > 0
  {
    |set r: nat | r < n && Chosen(entries, r % WeightSum(entries)) == i|
  }

  lemma CountStep(entries: seq<WeightEntry>, i: nat, n: nat)
    requires WeightSum(entries) > 0
    ensures DrawCount(entries, i, n + 1)
         == DrawCount(entries, i, n) + if Chosen(entries, n % WeightSum(entries)) == i then 1 else 0
  {
    var a := set r: nat | r < n && Chosen(entries, r % WeightSum(entries)) == i;
    var b := set r: nat | r < n + 1 && Chosen(entries, r % WeightSum(entries)) == i;
    if Chosen(entries, n % WeightSum(entries)) == i {
      assert b == a + {n};
    } else {
      assert b == a;
    }
  }

  /** Within one period, the count is the part of the share below `s`. */
  lemma {:induction false} CountWithinPeriod(entries: seq<WeightEntry>, i: nat, q: nat, s: nat)
    requires WeightSum(entries) > 0 && i < |entries| && s <= WeightSum(entries)
    ensures var lo, hi := WeightSum(entries[..i]), WeightSum(entries[..i + 1]);
      DrawCount(entries, i, q * WeightSum(entries) + s)
      == DrawCount(entries, i, q * WeightSum(entries)) + if s <= lo then 0 else if s <= hi then s - lo else hi - lo
    decreases s
  {
    var t := WeightSum(entries);
    assert entries[..i + 1][..i] == entries[..i];
    if s > 0 {
      CountWithinPeriod(entries, i, q, s - 1);
      CountStep(entries, i, q * t + (s - 1));
      ModInPeriod(q, t, s - 1);
      ChosenInShare(entries, s - 1);
      if InShare(entries, i, s - 1) {
        ShareIsUnique(entries, i, Chosen(entries, s - 1), s - 1);
      }
    }
  }

  lemma ModInPeriod(q: nat, t: nat, s: nat)
    requires s < t
    ensures (q * t + s) % t == s
  {
    DivIs(q * t + s, t, q);
    assert (q * t + s) / t * t + (q * t + s) % t == q * t + s;
  }

  lemma WholeShare(entries: seq<WeightEntry>, i: nat)
    requires i < |entries|
    ensures WeightSum(entries[..i + 1]) == WeightSum(entries[..i]) + entries[i].weight
    ensures WeightSum(entries[..i + 1]) <= WeightSum(entries)
  {
    assert entries[..i + 1][..i] == entries[..i];
    WeightSumPrefix(entries, i + 1);
  }

  /** Over whole periods every entry is drawn in proportion to its weight. */
  lemma {:induction false} CountOverPeriods(entries: seq<WeightEntry>, i: nat, q: nat)
    requires WeightSum(entries) > 0 && i < |entries|
    ensures DrawCount(entries, i, q * WeightSum(entries)) == q * entries[i].weight
    decreases q
  {
    var t := WeightSum(entries);
    var drawn := set r: nat | r < q * t && Chosen(entries, r % t) == i;
    if q == 0 {
      assert drawn == {};
    } else {
      CountOverPeriods(entries, i, q - 1);
      CountWithinPeriod(entries, i, q - 1, t);
      WholeShare(entries, i);
      assert (q - 1) * t + t == q * t;
      assert (q - 1) * entries[i].weight + entries[i].weight == q * entries[i].weight;
    }
  }

  /** Among the values 0..total-1, entry `i` is drawn exactly `weight` times; so never when its
      weight is zero. */
  lemma DrawIsExact(entries: seq<WeightEntry>, i: nat)
    requires WeightSum(entries) > 0 && i < |entries|
    ensures DrawCount(entries, i, WeightSum(entries)) == entries[i].weight
  {
    CountOverPeriods(entries, i, 1);
    assert 1 * WeightSum(entries) == WeightSum(entries);
  }

  lemma CountOfRemainder(entries: seq<WeightEntry>, i: nat, q: nat, s: nat)
    requires WeightSum(entries) > 0 && i < |entries| && s < WeightSum(entries)
    ensures var w, count := entries[i].weight, DrawCount(entries, i, q * WeightSum(entries) + s);
      q * w <= count <= q * w + if s == 0 then 0 else w
  {
    CountOverPeriods(entries, i, q);
    CountWithinPeriod(entries, i, q, s);
    WholeShare(entries, i);
  }

  /** Over the first `n` raw values (2^64 for the native generator) the bias of the modulo is at
      most one period. */
  lemma DrawIsNearlyFair(entries: seq<WeightEntry>, i: nat, n: nat)
    requires WeightSum(entries) > 0 && i < |entries|
    ensures var t, w := WeightSum(entries), entries[i].weight;
      (n / t) * w <= DrawCount(entries, i, n) <= CeilDiv(n, t) * w
  {
    var t, w := WeightSum(entries), entries[i].weight;
    var q, s := DivMod(n, t);
    CountOfRemainder(entries, i, q, s);
    Distribute(q, w);
  }

  lemma Distribute(q: nat, w: nat)
    ensures (q + 1) * w == q * w + w
  {
  }

  lemma DivMod(n: nat, t: nat) returns (q: nat, s: nat)
    requires t > 0
    ensures q == n / t && s < t && n == q * t + s
    ensures CeilDiv(n, t) == if s == 0 then q else q + 1
  {
    q, s := n / t, n % t;
    CeilDivCases(n, t);
  }

  lemma CeilDivCases(n: nat, t: nat)
    requires t > 0
    ensures CeilDiv(n, t) == n / t + if n % t == 0 then 0 else 1
  {
    var q, s := n / t, n % t;
    assert n == q * t + s;
    assert (q + 1) * t == q * t + t && (q + 2) * t == q * t + 2 * t;
    DivIs(n + t - 1, t, if s == 0 then q else q + 1);
  }
}
