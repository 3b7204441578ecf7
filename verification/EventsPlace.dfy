/** Where the events array of a line is, by the text of the line alone. */
module EventsPlace {
  import opened Bytes
  import opened Wrappers
  import opened Halving

  /** `"events"` stands at `k`. */
  predicate KeyAt(line: bytes, k: nat) {
    k + 8 <= |line| && line[k..k + 8] == [34, 101, 118, 101, 110, 116, 115, 34]
  }

  /** A key that is looked at: keys are taken from the left and do not overlap, and two can overlap only in
      one quote. */
  predicate Taken(line: bytes, k: nat) {
    KeyAt(line, k) && !(k >= 7 && Taken(line, k - 7))
  }

  /** White space, a colon, white space and the bracket at `p` follow the key at `k`. */
  ghost predicate PlaceWith(line: bytes, k: nat, p: nat, w1: bytes, w2: bytes) {
    && k + 8 <= p < |line| && AllWs(w1) && AllWs(w2)
    && line[k + 8..p + 1] == w1 + ([58] + (w2 + [91]))
  }

  ghost predicate ArrayPlace(line: bytes, k: nat, p: nat) {
    exists w1, w2 :: PlaceWith(line, k, p, w1, w2)
  }

  /** Before `n`, no key that is looked at has an array after it. */
  ghost predicate NoPlaceBefore(line: bytes, n: nat) {
    forall k: nat, p: nat :: k < n && Taken(line, k) ==> !ArrayPlace(line, k, p)
  }

  /** No key has. */
  ghost predicate NoPlace(line: bytes) { NoPlaceBefore(line, |line|) }

  /** `p` is the bracket of the first key that an array follows. */
  ghost predicate FirstPlace(line: bytes, p: nat) {
    exists k: nat :: FirstPlaceOf(line, k, p)
  }

  ghost predicate FirstPlaceOf(line: bytes, k: nat, p: nat) {
    Taken(line, k) && ArrayPlace(line, k, p) && NoPlaceBefore(line, k)
  }

  // --- After one key ---------------------------------------------------------------------------

  lemma {:induction false} SkippedIsWs(s: bytes, i: nat)
    requires i <= |s|
    ensures AllWs(s[i..SkipWsFrom(s, i)])
    ensures SkipWsFrom(s, i) < |s| ==> !IsWs(s[SkipWsFrom(s, i)])
    decreases |s| - i
  {
    if i < |s| && IsWs(s[i]) {
      SkippedIsWs(s, i + 1);
      var r := SkipWsFrom(s, i);
      assert s[i..r] == [s[i]] + s[i + 1..r];
    }
  }

  lemma {:induction false} SkipTo(s: bytes, i: nat, j: nat)
    requires i <= j < |s| && AllWs(s[i..j]) && !IsWs(s[j])
    ensures SkipWsFrom(s, i) == j
    decreases j - i
  {
    if i < j {
      assert s[i..j][0] == s[i] && s[i + 1..j] == s[i..j][1..];
      SkipTo(s, i + 1, j);
    }
  }

  lemma PlaceParts(line: bytes, k: nat, p: nat, w1: bytes, w2: bytes) returns (i: nat)
    requires PlaceWith(line, k, p, w1, w2)
    ensures k + 8 <= i < p && line[i] == 58 && line[p] == 91 && AllWs(line[k + 8..i]) && AllWs(line[i + 1..p])
  {
    i := k + 8 + |w1|;
    var t := line[k + 8..p + 1];
    Sides(w1, w2);
    assert line[i] == t[|w1|] && line[p] == t[|t| - 1];
    assert line[k + 8..i] == t[..|w1|];
    assert line[i + 1..p] == t[|w1| + 1..|t| - 1];
  }

  lemma Sides(w1: bytes, w2: bytes)
    ensures var t := w1 + ([58] + (w2 + [91]));
      t[|w1|] == 58 && t[|t| - 1] == 91 && t[..|w1|] == w1 && t[|w1| + 1..|t| - 1] == w2
  {
  }

  lemma PlaceFound(line: bytes, k: nat, p: nat)
    requires k + 8 <= |line| && ArrayPlace(line, k, p)
    ensures ArrayAfter(line, k + 8) == Some(p)
  {
    var w1, w2 :| PlaceWith(line, k, p, w1, w2);
    var i := PlaceParts(line, k, p, w1, w2);
    SkipTo(line, k + 8, i);
    SkipTo(line, i + 1, p);
  }

  lemma Compose(line: bytes, a: nat, i: nat, p: nat)
    requires a <= i < p < |line|
    ensures line[a..p + 1] == line[a..i] + ([line[i]] + (line[i + 1..p] + [line[p]]))
  {
  }

  lemma FoundIsPlace(line: bytes, k: nat)
    requires k + 8 <= |line| && ArrayAfter(line, k + 8).Some?
    ensures ArrayPlace(line, k, ArrayAfter(line, k + 8).value)
  {
    var i, p := SkipWsFrom(line, k + 8), ArrayAfter(line, k + 8).value;
    SkippedIsWs(line, k + 8);
    SkippedIsWs(line, i + 1);
    var w1, w2 := line[k + 8..i], line[i + 1..p];
    Compose(line, k + 8, i, p);
    assert PlaceWith(line, k, p, w1, w2);
  }

  // --- From key to key -------------------------------------------------------------------------

  lemma KeyBytes(line: bytes, k: nat, d: nat)
    requires KeyAt(line, k) && d < 8
    ensures line[k + d] == [34, 101, 118, 101, 110, 116, 115, 34][d]
  {
    assert line[k..k + 8][d] == line[k + d];
  }

  /** Keys overlap in one quote at most. */
  lemma Overlap(line: bytes, j: nat, k: nat)
    requires KeyAt(line, j) && KeyAt(line, k) && j < k < j + 8
    ensures k == j + 7
  {
    KeyBytes(line, k, 0);
    KeyBytes(line, j, k - j);
  }

  lemma {:induction false} NextKey(line: bytes, start: nat)
    ensures FindKey(line, start).None? ==> forall k: nat :: start <= k ==> !KeyAt(line, k)
    ensures FindKey(line, start).Some? ==> KeyAt(line, FindKey(line, start).value)
    ensures FindKey(line, start).Some? ==> forall k :: start <= k < FindKey(line, start).value ==> !KeyAt(line, k)
    decreases |line| - start
  {
    if start < |line| && !MatchesAt(line, start, EVENTS_KEY) {
      NextKey(line, start + 1);
    }
  }

  /** The search goes on right after a key it has looked at. */
  predicate GoesOn(line: bytes, start: nat) { start == 0 || (start >= 8 && Taken(line, start - 8)) }

  /** Of the keys not behind `start`, the next one is looked at, and none before it. */
  lemma NextIsTaken(line: bytes, start: nat, k: nat)
    requires GoesOn(line, start) && start <= k && KeyAt(line, k) && forall j :: start <= j < k ==> !KeyAt(line, j)
    ensures Taken(line, k)
  {
    if k >= 7 && 0 < start && k - 7 < start { TakenApart(line, start - 8, k - 7); }
  }

  lemma TakenApart(line: bytes, j: nat, k: nat)
    requires Taken(line, j) && j < k < j + 8
    ensures !Taken(line, k)
  {
    if KeyAt(line, k) { Overlap(line, j, k); }
  }

  lemma NothingBetween(line: bytes, start: nat, n: nat)
    requires GoesOn(line, start) && NoPlaceBefore(line, if start == 0 then 0 else start - 7)
    requires forall j :: start <= j < n ==> !KeyAt(line, j)
    ensures NoPlaceBefore(line, n)
  {
    forall k: nat, p: nat | k < n && Taken(line, k) ensures !ArrayPlace(line, k, p) {
      if start > 0 && start - 8 < k < start { TakenApart(line, start - 8, k); }
    }
  }

  lemma AfterKey(line: bytes, k: nat)
    requires Taken(line, k) && NoPlaceBefore(line, k) && ArrayAfter(line, k + 8).None?
    ensures NoPlaceBefore(line, k + 1)
  {
    forall j: nat, p: nat | j < k + 1 && Taken(line, j) ensures !ArrayPlace(line, j, p) {
      if j == k && ArrayPlace(line, k, p) { PlaceFound(line, k, p); }
    }
  }

  lemma NextTaken(line: bytes, start: nat, k: nat)
    requires GoesOn(line, start) && NoPlaceBefore(line, if start == 0 then 0 else start - 7)
    requires FindKey(line, start) == Some(k)
    ensures start <= k && Taken(line, k) && NoPlaceBefore(line, k)
  {
    NextKey(line, start);
    NextIsTaken(line, start, k);
    NothingBetween(line, start, k);
  }

  lemma SearchOne(line: bytes, start: nat) returns (k: nat, p: Option<nat>)
    requires FindKey(line, start).Some?
    ensures FindKey(line, start) == Some(k) && start <= k && k + 8 <= |line| && p == ArrayAfter(line, k + 8)
    ensures EventsArrayOpen(line, start) == if p.Some? then p else EventsArrayOpen(line, k + 8)
  {
    k := FindKey(line, start).value;
    p := ArrayAfter(line, k + 8);
  }

  lemma PlaceIsFirst(line: bytes, k: nat, p: nat)
    requires k + 8 <= |line| && ArrayAfter(line, k + 8) == Some(p) && Taken(line, k) && NoPlaceBefore(line, k)
    ensures FirstPlace(line, p)
  {
    FoundIsPlace(line, k);
    assert FirstPlaceOf(line, k, p);
  }

  /** What the search from `start` finds. */
  ghost predicate Finds(line: bytes, found: Option<nat>) {
    if found.None? then NoPlace(line) else FirstPlace(line, found.value)
  }

  lemma NoKeyLeft(line: bytes, start: nat)
    requires GoesOn(line, start) && NoPlaceBefore(line, if start == 0 then 0 else start - 7)
    requires FindKey(line, start).None?
    ensures EventsArrayOpen(line, start) == None && NoPlace(line)
  {
    NextKey(line, start);
    NothingBetween(line, start, |line|);
  }

  lemma {:induction false} SearchFrom(line: bytes, start: nat, found: Option<nat>)
    requires GoesOn(line, start) && NoPlaceBefore(line, if start == 0 then 0 else start - 7)
    requires found == EventsArrayOpen(line, start)
    ensures Finds(line, found)
    decreases |line| - start
  {
    if FindKey(line, start).None? {
      NoKeyLeft(line, start);
    } else {
      var k, p := SearchOne(line, start);
      NextTaken(line, start, k);
      if p.Some? {
        PlaceIsFirst(line, k, p.value);
      } else {
        AfterKey(line, k);
        SearchFrom(line, k + 8, found);
      }
    }
  }

  /** There is one first place at most, and not when there is none. */
  lemma FirstPlaceOnce(line: bytes, p: nat, q: nat)
    requires FirstPlace(line, p) && FirstPlace(line, q)
    ensures p == q && !NoPlace(line)
  {
    var j: nat :| FirstPlaceOf(line, j, p);
    var k: nat :| FirstPlaceOf(line, k, q);
    PlaceFound(line, j, p);
    PlaceFound(line, k, q);
    assert Taken(line, j) && ArrayPlace(line, j, p);
  }

  /** The search finds the bracket of the first place, and nothing exactly when there is no place. */
  lemma SearchFindsFirst(line: bytes, p: nat)
    ensures EventsArrayOpen(line, 0) == Some(p) <==> FirstPlace(line, p)
    ensures EventsArrayOpen(line, 0) == None <==> NoPlace(line)
  {
    SearchFrom(line, 0, EventsArrayOpen(line, 0));
    if EventsArrayOpen(line, 0).Some? {
      FirstPlaceOnce(line, EventsArrayOpen(line, 0).value, EventsArrayOpen(line, 0).value);
      if FirstPlace(line, p) { FirstPlaceOnce(line, p, EventsArrayOpen(line, 0).value); }
    } else if FirstPlace(line, p) {
      FirstPlaceOnce(line, p, p);
    }
  }
}
