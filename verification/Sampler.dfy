/** Choosing the events of a sampled preview. Shuffles are arbitrary permutations. */
module Sampler {
  import opened Sequences
  import opened Bytes
  import opened WeightedDraw
  import opened PreviewBooks

  const MAX_PICKS: nat := 100

  predicate SortedByPayout(s: seq<WeightEntry>) {
    forall i, j :: 0 <= i < j < |s| ==> s[i].payoutMultiplier <= s[j].payoutMultiplier
  }

  ghost predicate SameEntries(a: seq<WeightEntry>, b: seq<WeightEntry>) {
    multiset(a) == multiset(b)
  }

  function NoWins(entries: seq<WeightEntry>): seq<WeightEntry> {
    if entries == [] then []
    else NoWins(entries[..|entries| - 1]) +
         (if entries[|entries| - 1].payoutMultiplier == 0 then [entries[|entries| - 1]] else [])
  }

  function Winners(entries: seq<WeightEntry>): seq<WeightEntry> {
    if entries == [] then []
    else Winners(entries[..|entries| - 1]) +
         (if entries[|entries| - 1].payoutMultiplier > 0 then [entries[|entries| - 1]] else [])
  }

  lemma {:induction false} FilteredFromEntries(entries: seq<WeightEntry>)
    ensures forall i :: 0 <= i < |NoWins(entries)| ==> NoWins(entries)[i] in entries
    ensures forall i :: 0 <= i < |Winners(entries)| ==> Winners(entries)[i] in entries
  {
    if entries != [] {
      FilteredFromEntries(entries[..|entries| - 1]);
    }
  }

  /** Fisher-Yates with arbitrary choices: any permutation can come out. */
  method Shuffle(s: seq<WeightEntry>) returns (r: seq<WeightEntry>)
    ensures SameEntries(s, r) && |r| == |s|
  {
    r := s;
    var i := |s|;
    while i > 1
      invariant SameEntries(s, r) && |r| == |s| && i <= |s|
    {
      i := i - 1;
      var j: nat :| j <= i;
      r := r[i := r[j]][j := r[i]];
    }
  }

  /** A stable insertion sort, standing for `sort_by_key`. */
  method SortByPayout(s: seq<WeightEntry>) returns (r: seq<WeightEntry>)
    ensures SortedByPayout(r) && SameEntries(s, r) && |r| == |s|
  {
    r := [];
    for i := 0 to |s|
      invariant SortedByPayout(r) && SameEntries(s[..i], r) && |r| == i
    {
      assert s[..i + 1] == s[..i] + [s[i]];
      r := InsertByPayout(r, s[i]);
    }
    assert s[..|s|] == s;
  }

  method InsertByPayout(s: seq<WeightEntry>, e: WeightEntry) returns (r: seq<WeightEntry>)
    requires SortedByPayout(s)
    ensures SortedByPayout(r) && multiset(r) == multiset(s) + multiset{e} && |r| == |s| + 1
  {
    var k := |s|;
    while k > 0 && s[k - 1].payoutMultiplier > e.payoutMultiplier
      invariant 0 <= k <= |s|
      invariant forall j :: k <= j < |s| ==> s[j].payoutMultiplier > e.payoutMultiplier
    {
      k := k - 1;
    }
    r := s[..k] + [e] + s[k..];
    InsertMultiset(s, k, e);
  }

  // --- The average winner --------------------------------------------------------------------

  function WeightedSum(s: seq<WeightEntry>): nat {
    if s == [] then 0
    else WeightedSum(s[..|s| - 1]) + s[|s| - 1].weight * s[|s| - 1].payoutMultiplier
  }

  lemma {:induction false} WeightedSumAdds(a: seq<WeightEntry>, b: seq<WeightEntry>)
    ensures WeightedSum(a + b) == WeightedSum(a) + WeightedSum(b)
    ensures forall e: WeightEntry :: WeightedSum([e]) == e.weight * e.payoutMultiplier
  {
    forall e: WeightEntry ensures WeightedSum([e]) == e.weight * e.payoutMultiplier {
      assert [e][..0] == [];
    }
    if b == [] {
      assert a + b == a;
    } else {
      WeightedSumAdds(a, b[..|b| - 1]);
      assert (a + b)[..|a + b| - 1] == a + b[..|b| - 1];
    }
  }

  /** The weighted mean multiplier, rounded down and cut to 32 bits. */
  function Average(s: seq<WeightEntry>): nat {
    var total := WeightSum(s);
    (WeightedSum(s) / (if total > 1 then total else 1)) % U32_RANGE
  }

  function AbsDiff(a: nat, b: nat): (d: nat)
    ensures d >= a - b && d >= b - a && (d == a - b || d == b - a)
  {
    if a >= b then a - b else b - a
  }

  ghost predicate Payouts32(s: seq<WeightEntry>) {
    forall i :: 0 <= i < |s| ==> s[i].payoutMultiplier < U32_RANGE
  }

  lemma {:induction false} WeightedSumBound(s: seq<WeightEntry>)
    requires Payouts32(s)
    ensures WeightedSum(s) <= WeightSum(s) * (U32_RANGE - 1)
  {
    if s != [] {
      var front, e := s[..|s| - 1], s[|s| - 1];
      WeightedSumBound(front);
      assert e.weight * e.payoutMultiplier <= e.weight * (U32_RANGE - 1) by {
        MulLeft(e.weight, e.payoutMultiplier, U32_RANGE - 1);
      }
      assert WeightSum(s) * (U32_RANGE - 1) == WeightSum(front) * (U32_RANGE - 1) + e.weight * (U32_RANGE - 1);
    }
  }

  lemma MulLeft(w: nat, a: nat, b: nat)
    requires a <= b
    ensures w * a <= w * b
  {
  }

  /** The cut to 32 bits never shows: a mean of 32-bit payouts is a 32-bit number. */
  lemma AverageIsTheMean(s: seq<WeightEntry>)
    requires Payouts32(s) && WeightSum(s) > 0
    ensures Average(s) == WeightedSum(s) / WeightSum(s)
  {
    WeightedSumBound(s);
    DivBound(WeightedSum(s), WeightSum(s), U32_RANGE - 1);
  }

  lemma DivBound(n: nat, d: nat, k: nat)
    requires d > 0 && n <= d * k
    ensures n / d <= k
  {
    var q := n / d;
    assert d * q <= n;
    if q > k {
      MulLeft(d, k + 1, q);
    }
  }

  /** The first winner closest to the average. */
  method ClosestTo(s: seq<WeightEntry>, avg: nat) returns (k: nat)
    requires s != []
    ensures k < |s|
    ensures forall j :: 0 <= j < |s| ==> AbsDiff(s[k].payoutMultiplier, avg) <= AbsDiff(s[j].payoutMultiplier, avg)
    ensures forall j :: 0 <= j < k ==> AbsDiff(s[k].payoutMultiplier, avg) < AbsDiff(s[j].payoutMultiplier, avg)
  {
    k := 0;
    for i := 1 to |s|
      invariant k < i
      invariant forall j :: 0 <= j < i ==> AbsDiff(s[k].payoutMultiplier, avg) <= AbsDiff(s[j].payoutMultiplier, avg)
      invariant forall j :: 0 <= j < k ==> AbsDiff(s[k].payoutMultiplier, avg) < AbsDiff(s[j].payoutMultiplier, avg)
    {
      if AbsDiff(s[i].payoutMultiplier, avg) < AbsDiff(s[k].payoutMultiplier, avg) {
        k := i;
      }
    }
  }

  // --- Ids ---------------------------------------------------------------------------------------

  ghost function Ids(s: seq<WeightEntry>): set<nat> { set i | 0 <= i < |s| :: s[i].eventId }

  ghost predicate DistinctIds(s: seq<WeightEntry>) {
    forall i, j :: 0 <= i < j < |s| ==> s[i].eventId != s[j].eventId
  }

  lemma IdsSnoc(s: seq<WeightEntry>)
    requires s != []
    ensures Ids(s) == Ids(s[..|s| - 1]) + {s[|s| - 1].eventId}
  {
    var front := s[..|s| - 1];
    forall id | id in Ids(s) ensures id in Ids(front) + {s[|s| - 1].eventId} {
      var i :| 0 <= i < |s| && s[i].eventId == id;
      if i < |front| { assert front[i] == s[i]; }
    }
    forall id | id in Ids(front) ensures id in Ids(s) {
      var i :| 0 <= i < |front| && front[i].eventId == id;
      assert s[i] == front[i];
    }
  }

  /** Ids are distinct when there are as many as entries. */
  lemma {:induction false} IdsCount(s: seq<WeightEntry>)
    ensures |Ids(s)| <= |s| && (|Ids(s)| == |s| <==> DistinctIds(s))
  {
    if s != [] {
      var front, last := s[..|s| - 1], s[|s| - 1].eventId;
      IdsCount(front);
      IdsSnoc(s);
      NewId(s);
    }
  }

  lemma NewId(s: seq<WeightEntry>)
    requires s != []
    ensures DistinctIds(s) <==> DistinctIds(s[..|s| - 1]) && s[|s| - 1].eventId !in Ids(s[..|s| - 1])
  {
    var front, n := s[..|s| - 1], |s| - 1;
    if DistinctIds(front) && s[n].eventId !in Ids(front) {
      forall i, j | 0 <= i < j < |s| ensures s[i].eventId != s[j].eventId {
        assert front[i] == s[i] && front[i].eventId in Ids(front);
        if j < n { assert front[j] == s[j]; }
      }
    }
  }

  lemma SameIds(a: seq<WeightEntry>, b: seq<WeightEntry>)
    requires SameEntries(a, b)
    ensures Ids(a) == Ids(b)
  {
    forall id | id in Ids(a) ensures id in Ids(b) { IdMoves(a, b, id); }
    forall id | id in Ids(b) ensures id in Ids(a) { IdMoves(b, a, id); }
  }

  lemma IdMoves(a: seq<WeightEntry>, b: seq<WeightEntry>, id: nat)
    requires SameEntries(a, b) && id in Ids(a)
    ensures id in Ids(b)
  {
    var i :| 0 <= i < |a| && a[i].eventId == id;
    assert a[i] in multiset(b);
    var j :| 0 <= j < |b| && b[j] == a[i];
    assert b[j].eventId == id;
  }

  lemma DistinctStays(a: seq<WeightEntry>, b: seq<WeightEntry>)
    requires SameEntries(a, b) && DistinctIds(a)
    ensures DistinctIds(b)
  {
    SameIds(a, b);
    SameLength(a, b);
    IdsCount(a);
    IdsCount(b);
  }

  /** The ids of the entries that pay nothing. */
  ghost function LosingIds(entries: seq<WeightEntry>): set<nat> {
    set i | 0 <= i < |entries| && entries[i].payoutMultiplier == 0 :: entries[i].eventId
  }

  lemma {:induction false} NoWinsAreLosing(entries: seq<WeightEntry>)
    ensures Ids(NoWins(entries)) == LosingIds(entries)
  {
    if entries != [] {
      var front, last := entries[..|entries| - 1], entries[|entries| - 1];
      NoWinsAreLosing(front);
      LosingSnoc(entries);
      if last.payoutMultiplier == 0 {
        assert NoWins(entries)[..|NoWins(entries)| - 1] == NoWins(front);
        IdsSnoc(NoWins(entries));
      } else {
        assert NoWins(entries) == NoWins(front);
      }
    }
  }

  lemma LosingSnoc(entries: seq<WeightEntry>)
    requires entries != []
    ensures var front, last := entries[..|entries| - 1], entries[|entries| - 1];
      LosingIds(entries) == LosingIds(front) + if last.payoutMultiplier == 0 then {last.eventId} else {}
  {
    var front, n := entries[..|entries| - 1], |entries| - 1;
    forall id | id in LosingIds(entries)
      ensures id in LosingIds(front) || (entries[n].payoutMultiplier == 0 && id == entries[n].eventId)
    {
      var i :| 0 <= i < |entries| && entries[i].payoutMultiplier == 0 && entries[i].eventId == id;
      if i < n { assert front[i] == entries[i]; }
    }
    forall id | id in LosingIds(front) ensures id in LosingIds(entries) {
      var i :| 0 <= i < |front| && front[i].payoutMultiplier == 0 && front[i].eventId == id;
      assert entries[i] == front[i];
    }
  }

  lemma {:induction false} FilteredDistinct(entries: seq<WeightEntry>)
    requires DistinctIds(entries)
    ensures DistinctIds(NoWins(entries)) && DistinctIds(Winners(entries))
  {
    if entries != [] {
      var front, last := entries[..|entries| - 1], entries[|entries| - 1];
      NewId(entries);
      FilteredDistinct(front);
      FilteredFromEntries(front);
      LastIsNew(front, NoWins(front), last);
      LastIsNew(front, Winners(front), last);
    }
  }

  lemma LastIsNew(front: seq<WeightEntry>, some: seq<WeightEntry>, last: WeightEntry)
    requires last.eventId !in Ids(front) && DistinctIds(some) && forall i :: 0 <= i < |some| ==> some[i] in front
    ensures DistinctIds(some + [last])
  {
    var s := some + [last];
    assert s[..|s| - 1] == some;
    NewId(s);
  }

  /** The winners are the entries that pay, as often as they come. */
  lemma {:induction false} WinnersPay(entries: seq<WeightEntry>, e: WeightEntry)
    ensures multiset(Winners(entries))[e] == if e.payoutMultiplier > 0 then multiset(entries)[e] else 0
  {
    if entries != [] {
      var front, last := entries[..|entries| - 1], entries[|entries| - 1];
      WinnersPay(front, e);
      assert entries == front + [last];
    }
  }

  // --- The picks ---------------------------------------------------------------------------------

  /** Those of the ids that were picked. */
  ghost function Picked(picks: seq<nat>, ids: set<nat>): set<nat> { set id | id in ids && id in picks }

  function Min(a: nat, b: nat): nat { if a < b then a else b }

  /** The picks are the ids of the first `n` entries of the source. */
  lemma PickedFirst(source: seq<WeightEntry>, n: nat, ids: seq<nat>)
    requires DistinctIds(source) && |ids| == Min(|source|, n)
    requires forall i :: 0 <= i < |ids| ==> ids[i] == source[i].eventId
    ensures |Picked(ids, Ids(source))| == Min(|source|, n)
  {
    var some := source[..|ids|];
    IdsCount(some);
    forall id ensures id in Picked(ids, Ids(source)) <==> id in Ids(some) {
      if id in Ids(some) {
        var i :| 0 <= i < |some| && some[i].eventId == id;
        assert source[i].eventId == id && ids[i] == id;
      }
      if id in Picked(ids, Ids(source)) {
        var i :| 0 <= i < |ids| && ids[i] == id;
        assert some[i].eventId == id;
      }
    }
    assert Picked(ids, Ids(source)) == Ids(some);
  }

  predicate HasId(entries: seq<WeightEntry>, id: nat) {
    exists i :: 0 <= i < |entries| && entries[i].eventId == id
  }

  ghost predicate AllFrom(picks: seq<nat>, entries: seq<WeightEntry>) {
    forall i :: 0 <= i < |picks| ==> HasId(entries, picks[i])
  }

  /** The ids of at most `n` entries of some order of `source`. */
  method TakeIds(source: seq<WeightEntry>, n: nat, ghost entries: seq<WeightEntry>) returns (ids: seq<nat>)
    requires forall i :: 0 <= i < |source| ==> source[i] in entries
    ensures |ids| == (if |source| < n then |source| else n) && AllFrom(ids, entries)
    ensures forall i :: 0 <= i < |ids| ==> ids[i] == source[i].eventId
  {
    ids := [];
    var i := 0;
    while i < |source| && i < n
      invariant 0 <= i <= |source| && i <= n && |ids| == i
      invariant forall k :: 0 <= k < i ==> ids[k] == source[k].eventId
    {
      ids := ids + [source[i].eventId];
      i := i + 1;
    }
    forall k | 0 <= k < |ids| ensures HasId(entries, ids[k]) {
      FromEntry(source[k], entries);
    }
  }

  lemma FromEntry(e: WeightEntry, entries: seq<WeightEntry>)
    requires e in entries
    ensures HasId(entries, e.eventId)
  {
    var i :| 0 <= i < |entries| && entries[i] == e;
    assert entries[i].eventId == e.eventId;
  }

  lemma ShuffledFrom(s: seq<WeightEntry>, r: seq<WeightEntry>, entries: seq<WeightEntry>)
    requires SameEntries(s, r) && forall i :: 0 <= i < |s| ==> s[i] in entries
    ensures forall i :: 0 <= i < |r| ==> r[i] in entries
  {
    forall i | 0 <= i < |r| ensures r[i] in entries {
      assert r[i] in multiset(r);
      assert r[i] in s;
    }
  }

  function Reverse(s: seq<WeightEntry>): seq<WeightEntry> {
    seq(|s|, i requires 0 <= i < |s| => s[|s| - 1 - i])
  }

  /** The winners up to eight places below the quartile `q` and seven above. */
  function Window(winners: seq<WeightEntry>, q: nat): seq<WeightEntry>
    requires q < |winners|
  {
    winners[if q >= 8 then q - 8 else 0..if q + 8 < |winners| then q + 8 else |winners|]
  }

  /** Seven of the window, or all when it is smaller. */
  ghost predicate WindowPicked(winners: seq<WeightEntry>, q: nat, picks: seq<nat>)
    requires q < |winners|
  {
    |Picked(picks, Ids(Window(winners, q)))| >= Min(7, |Window(winners, q)|)
  }

  /** Up to seven random winners around a quartile. */
  method AroundQuartile(winners: seq<WeightEntry>, q: nat) returns (ids: seq<nat>)
    requires q < |winners|
    ensures |ids| <= 7 && AllFrom(ids, winners) && (DistinctIds(winners) ==> WindowPicked(winners, q, ids))
  {
    var lo := if q >= 8 then q - 8 else 0;
    var hi := if q + 8 < |winners| then q + 8 else |winners|;
    var slice := winners[lo..hi];
    var shuffled := Shuffle(slice);
    ShuffledFrom(slice, shuffled, winners);
    ids := TakeIds(shuffled, 7, winners);
    if DistinctIds(winners) {
      DistinctStays(slice, shuffled);
      SameIds(slice, shuffled);
      PickedFirst(shuffled, 7, ids);
    }
  }

  lemma MorePicks(picks: seq<nat>, more: seq<nat>, ids: set<nat>)
    requires forall x :: x in picks ==> x in more
    ensures |Picked(picks, ids)| <= |Picked(more, ids)|
  {
    Subset(Picked(picks, ids), Picked(more, ids));
  }

  lemma Subset(a: set<nat>, b: set<nat>)
    requires a <= b
    ensures |a| <= |b|
  {
    assert b == a + (b - a);
  }

  method InsertOnce(r: seq<nat>, x: nat) returns (s: seq<nat>)
    requires forall i, j :: 0 <= i < j < |r| ==> r[i] < r[j]
    ensures |s| <= |r| + 1 && forall i, j :: 0 <= i < j < |s| ==> s[i] < s[j]
    ensures forall y :: y in s <==> y in r || y == x
  {
    var k := 0;
    while k < |r| && r[k] < x
      invariant 0 <= k <= |r| && forall a :: 0 <= a < k ==> r[a] < x
    {
      k := k + 1;
    }
    s := r;
    if k == |r| || r[k] != x {
      assert r == r[..k] + r[k..];
      s := r[..k] + [x] + r[k..];
    }
  }

  /** Sorted, without duplicates. */
  method SortDedup(picks: seq<nat>) returns (r: seq<nat>)
    ensures |r| <= |picks| && forall i, j :: 0 <= i < j < |r| ==> r[i] < r[j]
    ensures forall x :: x in r <==> x in picks
  {
    r := [];
    for i := 0 to |picks|
      invariant |r| <= i && forall a, b :: 0 <= a < b < |r| ==> r[a] < r[b]
      invariant forall x :: x in r <==> x in picks[..i]
    {
      assert picks[..i + 1] == picks[..i] + [picks[i]];
      r := InsertOnce(r, picks[i]);
    }
    assert picks[..|picks|] == picks;
  }

  /** Cuts a long list to the cap after a shuffle; a short one is left alone. */
  method Cap(picks: seq<nat>) returns (r: seq<nat>)
    ensures |picks| <= MAX_PICKS ==> r == picks
    ensures |r| <= MAX_PICKS && forall i :: 0 <= i < |r| ==> r[i] in picks
  {
    r := picks;
    while |r| > MAX_PICKS
      invariant |picks| <= MAX_PICKS ==> r == picks
      invariant forall i :: 0 <= i < |r| ==> r[i] in picks
      decreases |r|
    {
      var k: nat :| k < |r|;
      r := r[..k] + r[k + 1..];
    }
  }

  ghost predicate TopFiveIn(winners: seq<WeightEntry>, picks: seq<nat>) {
    forall k :: 0 <= k < |winners| && k + 5 >= |winners| ==> winners[k].eventId in picks
  }

  /** With four winners or more, seven around each quartile; with fewer, all. */
  ghost predicate SpreadPicked(winners: seq<WeightEntry>, picks: seq<nat>) {
    var n := |winners|;
    if n >= 4 then
      && WindowPicked(winners, n / 4, picks) && WindowPicked(winners, n / 2, picks)
      && WindowPicked(winners, 3 * n / 4, picks)
    else forall k :: 0 <= k < n ==> winners[k].eventId in picks
  }

  lemma SpreadStays(winners: seq<WeightEntry>, picks: seq<nat>, more: seq<nat>)
    requires SpreadPicked(winners, picks) && forall x :: x in picks ==> x in more
    ensures SpreadPicked(winners, more)
  {
    var n := |winners|;
    if n >= 4 {
      MorePicks(picks, more, Ids(Window(winners, n / 4)));
      MorePicks(picks, more, Ids(Window(winners, n / 2)));
      MorePicks(picks, more, Ids(Window(winners, 3 * n / 4)));
    }
  }

  /** Random winners around the quartiles, or all of a few. */
  method PickSpread(winners: seq<WeightEntry>) returns (picks: seq<nat>)
    requires winners != []
    ensures |picks| <= 21 && AllFrom(picks, winners) && (DistinctIds(winners) ==> SpreadPicked(winners, picks))
  {
    var n := |winners|;
    if n >= 4 {
      var a := AroundQuartile(winners, n / 4);
      var b := AroundQuartile(winners, n / 2);
      var c := AroundQuartile(winners, 3 * n / 4);
      picks := a + b + c;
      MorePicks(a, picks, Ids(Window(winners, n / 4)));
      MorePicks(b, picks, Ids(Window(winners, n / 2)));
      MorePicks(c, picks, Ids(Window(winners, 3 * n / 4)));
    } else {
      picks := TakeIds(winners, n, winners);
      assert forall k :: 0 <= k < n ==> winners[k].eventId == picks[k];
    }
  }

  ghost predicate AveragePicked(winners: seq<WeightEntry>, picks: seq<nat>) {
    exists k :: 0 <= k < |winners| && winners[k].eventId in picks && forall j :: 0 <= j < |winners| ==>
      AbsDiff(winners[k].payoutMultiplier, Average(winners)) <= AbsDiff(winners[j].payoutMultiplier, Average(winners))
  }

  /** The winners' picks: the top five, the average one, and the quartiles. */
  method PickWinners(winners: seq<WeightEntry>) returns (picks: seq<nat>)
    requires winners != []
    ensures |picks| <= 27 && AllFrom(picks, winners) && TopFiveIn(winners, picks) && AveragePicked(winners, picks)
    ensures DistinctIds(winners) ==> SpreadPicked(winners, picks)
  {
    picks := TakeIds(Reverse(winners), 5, winners);
    forall k | 0 <= k < |winners| && k + 5 >= |winners| ensures winners[k].eventId in picks {
      assert picks[|winners| - 1 - k] == winners[k].eventId;
    }
    var avg := ClosestTo(winners, Average(winners));
    FromEntry(winners[avg], winners);
    picks := picks + [winners[avg].eventId];
    assert winners[avg].eventId in picks;
    var rest := PickSpread(winners);
    picks := picks + rest;
    if DistinctIds(winners) { SpreadStays(winners, rest, picks); }
  }

  /** `winners` are the entries that pay, by payout. */
  ghost predicate WinnersOf(winners: seq<WeightEntry>, entries: seq<WeightEntry>) {
    && SortedByPayout(winners)
    && forall e :: multiset(winners)[e] == if e.payoutMultiplier > 0 then multiset(entries)[e] else 0
  }

  /** Exactly fifty of the entries that pay nothing, or all when there are fewer. */
  ghost predicate LosersPicked(entries: seq<WeightEntry>, picks: seq<nat>) {
    |Picked(picks, LosingIds(entries))| == Min(50, |LosingIds(entries)|)
  }

  lemma WinnerIsNoLoser(entries: seq<WeightEntry>, winners: seq<WeightEntry>, id: nat)
    requires DistinctIds(entries) && WinnersOf(winners, entries) && HasId(winners, id)
    ensures id !in LosingIds(entries)
  {
    var k :| 0 <= k < |winners| && winners[k].eventId == id;
    assert multiset(winners)[winners[k]] > 0;
    assert winners[k] in multiset(entries);
    var i :| 0 <= i < |entries| && entries[i] == winners[k];
  }

  /** The picks of winners add no loser. */
  lemma OnlyLosersCount(entries: seq<WeightEntry>, winners: seq<WeightEntry>, losers: seq<nat>, more: seq<nat>,
                        picks: seq<nat>)
    requires DistinctIds(entries) && WinnersOf(winners, entries) && AllFrom(more, winners)
    requires LosersPicked(entries, losers) && forall x :: x in picks <==> x in losers + more
    ensures LosersPicked(entries, picks)
  {
    forall id ensures id in Picked(picks, LosingIds(entries)) <==> id in Picked(losers, LosingIds(entries)) {
      if id in more {
        var i :| 0 <= i < |more| && more[i] == id;
        WinnerIsNoLoser(entries, winners, id);
      }
    }
    assert Picked(picks, LosingIds(entries)) == Picked(losers, LosingIds(entries));
  }

  /** Up to fifty random losers. */
  method PickLosers(entries: seq<WeightEntry>) returns (picks: seq<nat>)
    ensures |picks| <= 50 && AllFrom(picks, entries) && (DistinctIds(entries) ==> LosersPicked(entries, picks))
  {
    FilteredFromEntries(entries);
    var nw := Shuffle(NoWins(entries));
    ShuffledFrom(NoWins(entries), nw, entries);
    picks := TakeIds(nw, 50, entries);
    if DistinctIds(entries) {
      FilteredDistinct(entries);
      DistinctStays(NoWins(entries), nw);
      SameIds(NoWins(entries), nw);
      NoWinsAreLosing(entries);
      IdsCount(nw);
      PickedFirst(nw, 50, picks);
    }
  }

  lemma AllFromMore(picks: seq<nat>, winners: seq<WeightEntry>, entries: seq<WeightEntry>)
    requires AllFrom(picks, winners) && forall i :: 0 <= i < |winners| ==> winners[i] in entries
    ensures AllFrom(picks, entries)
  {
    forall k | 0 <= k < |picks| ensures HasId(entries, picks[k]) {
      var i :| 0 <= i < |winners| && winners[i].eventId == picks[k];
      FromEntry(winners[i], entries);
    }
  }

  /** The winners, by payout. */
  method SortedWinners(entries: seq<WeightEntry>) returns (winners: seq<WeightEntry>)
    ensures WinnersOf(winners, entries) && forall i :: 0 <= i < |winners| ==> winners[i] in entries
    ensures DistinctIds(entries) ==> DistinctIds(winners)
  {
    winners := SortByPayout(Winners(entries));
    forall e ensures multiset(winners)[e] == if e.payoutMultiplier > 0 then multiset(entries)[e] else 0 {
      WinnersPay(entries, e);
    }
    FilteredFromEntries(entries);
    ShuffledFrom(Winners(entries), winners, entries);
    if DistinctIds(entries) {
      FilteredDistinct(entries);
      DistinctStays(Winners(entries), winners);
    }
  }

  /** What holds of the picks together. */
  lemma AllPicks(entries: seq<WeightEntry>, winners: seq<WeightEntry>, losers: seq<nat>, more: seq<nat>,
                 picks: seq<nat>)
    requires WinnersOf(winners, entries) && forall i :: 0 <= i < |winners| ==> winners[i] in entries
    requires AllFrom(losers, entries) && AllFrom(more, winners) && forall x :: x in picks <==> x in losers + more
    ensures AllFrom(picks, entries)
    ensures DistinctIds(entries) && LosersPicked(entries, losers) ==> LosersPicked(entries, picks)
    ensures SpreadPicked(winners, more) ==> SpreadPicked(winners, picks)
  {
    AllFromMore(more, winners, entries);
    var all := losers + more;
    forall i | 0 <= i < |picks| ensures HasId(entries, picks[i]) {
      assert picks[i] in all;
    }
    if DistinctIds(entries) && LosersPicked(entries, losers) {
      OnlyLosersCount(entries, winners, losers, more, picks);
    }
    if SpreadPicked(winners, more) { SpreadStays(winners, more, picks); }
  }

  /** `sample_event_ids`: at most 77 ids, all from the table. Whatever the shuffles, the five highest
      winners and the one closest to the average are among them; when ids are distinct, so are fifty
      losers and no more, seven winners around each quartile, and all of fewer. */
  method SampleEventIds(entries: seq<WeightEntry>) returns (picks: seq<nat>, ghost winners: seq<WeightEntry>)
    ensures |picks| <= 77 && AllFrom(picks, entries)
    ensures WinnersOf(winners, entries) && TopFiveIn(winners, picks)
    ensures winners != [] ==> AveragePicked(winners, picks)
    ensures DistinctIds(entries) ==> LosersPicked(entries, picks) && SpreadPicked(winners, picks)
  {
    var sorted := SortedWinners(entries);
    winners := sorted;
    var losers := PickLosers(entries);
    if sorted == [] { return losers, winners; }
    var more := PickWinners(sorted);
    picks := SortDedup(losers + more);
    picks := Cap(picks);
    AllPicks(entries, sorted, losers, more, picks);
  }

  // --- The rewritten table -----------------------------------------------------------------------

  /** The lookup table of the preview: the picked entries, all of weight one. */
  function Rewritten(entries: seq<WeightEntry>, picked: set<nat>): seq<WeightEntry> {
    if entries == [] then []
    else
      var front, e := Rewritten(entries[..|entries| - 1], picked), entries[|entries| - 1];
      if e.eventId in picked then front + [WeightEntry(e.eventId, 1, e.payoutMultiplier)] else front
  }

  lemma {:induction false} RewrittenFromEntries(entries: seq<WeightEntry>, picked: set<nat>, k: nat)
    requires k < |Rewritten(entries, picked)|
    ensures var e := Rewritten(entries, picked)[k];
      e.eventId in picked && HasEntry(entries, e.eventId, e.payoutMultiplier)
  {
    var front, last := entries[..|entries| - 1], entries[|entries| - 1];
    if k < |Rewritten(front, picked)| {
      RewrittenFromEntries(front, picked, k);
      var e := Rewritten(front, picked)[k];
      var i :| 0 <= i < |front| && front[i].eventId == e.eventId && front[i].payoutMultiplier == e.payoutMultiplier;
      assert entries[i] == front[i];
    } else {
      assert entries[|entries| - 1] == last;
    }
  }

  /** The entries with that id and payout. */
  ghost function Places(entries: seq<WeightEntry>, id: nat, multiplier: nat): set<nat> {
    set i | 0 <= i < |entries| && entries[i].eventId == id && entries[i].payoutMultiplier == multiplier
  }

  lemma PlacesSnoc(entries: seq<WeightEntry>, id: nat, multiplier: nat)
    requires entries != []
    ensures var front, last := entries[..|entries| - 1], entries[|entries| - 1];
      |Places(entries, id, multiplier)| == |Places(front, id, multiplier)|
        + if last.eventId == id && last.payoutMultiplier == multiplier then 1 else 0
  {
    var front, n := entries[..|entries| - 1], |entries| - 1;
    var hit := entries[n].eventId == id && entries[n].payoutMultiplier == multiplier;
    assert Places(entries, id, multiplier) == Places(front, id, multiplier) + if hit then {n} else {};
  }

  /** The rewritten table has each picked entry as often as the original, with weight one, and nothing
      else. */
  lemma {:induction false} RewrittenHasPicked(entries: seq<WeightEntry>, picked: set<nat>, e: WeightEntry)
    ensures multiset(Rewritten(entries, picked))[e]
         == if e.weight == 1 && e.eventId in picked then |Places(entries, e.eventId, e.payoutMultiplier)| else 0
  {
    if entries == [] {
      assert Places(entries, e.eventId, e.payoutMultiplier) == {};
    } else {
      RewrittenHasPicked(entries[..|entries| - 1], picked, e);
      PlacesSnoc(entries, e.eventId, e.payoutMultiplier);
    }
  }

  ghost predicate HasEntry(entries: seq<WeightEntry>, id: nat, multiplier: nat) {
    exists i :: 0 <= i < |entries| && entries[i].eventId == id && entries[i].payoutMultiplier == multiplier
  }

  /** A sampled preview is closed: whatever its table draws, with the payout it had, the filtered
      books hold that event's books and no others. */
  lemma {:induction false} SampledPreviewIsClosed(entries: seq<WeightEntry>, picked: set<nat>, books: bytes, pick: nat)
    requires pick < WeightSum(Rewritten(entries, picked))
    ensures var table, kept := Rewritten(entries, picked), Unlines(PickedTexts(Lines(books), picked));
      var e := table[Chosen(table, pick)];
      && HasEntry(entries, e.eventId, e.payoutMultiplier)
      && BooksOf(Texts(Lines(kept)), e.eventId) == BooksOf(Texts(Lines(books)), e.eventId)
  {
    var table := Rewritten(entries, picked);
    RewrittenFromEntries(entries, picked, Chosen(table, pick));
    FilteredBooksAreClosed(books, picked, table[Chosen(table, pick)].eventId);
  }
}
