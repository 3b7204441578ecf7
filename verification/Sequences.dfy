/** Removing from and inserting into sequences, and what that does to their multisets. */
module Sequences {

  function Drop<T>(s: seq<T>, k: nat): seq<T>
    requires k < |s|
  {
    s[..k] + s[k + 1..]
  }

  lemma SameLength<T>(a: seq<T>, b: seq<T>)
    requires multiset(a) == multiset(b)
    ensures |a| == |b|
  {
    assert |multiset(a)| == |multiset(b)|;
  }

  lemma Find<T>(a: seq<T>, b: seq<T>) returns (k: nat)
    requires multiset(a) == multiset(b) && a != []
    ensures k < |b| && b[k] == a[0]
  {
    assert a[0] in multiset(b);
    k :| 0 <= k < |b| && b[k] == a[0];
  }

  lemma DropMultiset<T>(a: seq<T>, b: seq<T>, k: nat)
    requires multiset(a) == multiset(b) && a != [] && k < |b| && b[k] == a[0]
    ensures multiset(a[1..]) == multiset(Drop(b, k))
  {
    assert a == [a[0]] + a[1..];
    assert b == b[..k] + [b[k]] + b[k + 1..];
    assert multiset(a[1..]) == multiset(a) - multiset{a[0]};
    assert multiset(Drop(b, k)) == multiset(b) - multiset{b[k]};
  }

  lemma InsertMultiset<T>(s: seq<T>, k: nat, e: T)
    requires k <= |s|
    ensures multiset(s[..k] + [e] + s[k..]) == multiset(s) + multiset{e}
  {
    assert s == s[..k] + s[k..];
  }
}
