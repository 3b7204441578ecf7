/** What one `touch` does to the recency list of the books cache: the evictions, as functions of
    the list, and the guarantees of their result. Oldest entries come first. */
module Lru {

  datatype Entry<Cell> = Entry(key: string, tenant: string, bytes: nat, cell: Cell)

  function TotalBytes<C>(lru: seq<Entry<C>>): nat {
    if lru == [] then 0 else lru[0].bytes + TotalBytes(lru[1..])
  }

  function TenantBytes<C>(lru: seq<Entry<C>>, tenant: string): nat {
    if lru == [] then 0
    else (if lru[0].tenant == tenant then lru[0].bytes else 0) + TenantBytes(lru[1..], tenant)
  }

  /** `retain(|entry| entry.key != key)` */
  function Without<C>(lru: seq<Entry<C>>, key: string): seq<Entry<C>> {
    if lru == [] then []
    else (if lru[0].key != key then [lru[0]] else []) + Without(lru[1..], key)
  }

  /** The first entry of `tenant` other than `key`, or the length. */
  function Victim<C>(lru: seq<Entry<C>>, tenant: string, key: string): (pos: nat)
    ensures pos <= |lru|
    ensures pos < |lru| ==> lru[pos].tenant == tenant && lru[pos].key != key
    ensures forall i :: 0 <= i < pos ==> !(lru[i].tenant == tenant && lru[i].key != key)
  {
    if lru == [] then 0
    else if lru[0].tenant == tenant && lru[0].key != key then 0
    else 1 + Victim(lru[1..], tenant, key)
  }

  function RemoveAt<C>(lru: seq<Entry<C>>, pos: nat): seq<Entry<C>>
    requires pos < |lru|
  {
    lru[..pos] + lru[pos + 1..]
  }

  /** The list without the `k` oldest entries of `tenant` other than `key`. */
  function DropOldest<C>(lru: seq<Entry<C>>, tenant: string, key: string, k: nat): seq<Entry<C>> {
    if lru == [] then []
    else if k > 0 && lru[0].tenant == tenant && lru[0].key != key
    then DropOldest(lru[1..], tenant, key, k - 1)
    else [lru[0]] + DropOldest(lru[1..], tenant, key, k)
  }

  /** The tenant is within its cap, or has no entry but `key`. */
  predicate TenantSettled<C>(lru: seq<Entry<C>>, tenant: string, key: string, cap: nat) {
    TenantBytes(lru, tenant) <= cap || Victim(lru, tenant, key) == |lru|
  }

  /** One entry left, or both global limits hold. */
  predicate GlobalSettled<C>(lru: seq<Entry<C>>, maxFiles: nat, maxBytes: nat) {
    |lru| <= 1 || (|lru| <= maxFiles && TotalBytes(lru) <= maxBytes)
  }

  function TenantPhase<C>(lru: seq<Entry<C>>, tenant: string, key: string, cap: nat): seq<Entry<C>>
    decreases |lru|
  {
    if TenantSettled(lru, tenant, key, cap) then lru
    else TenantPhase(RemoveAt(lru, Victim(lru, tenant, key)), tenant, key, cap)
  }

  function GlobalPhase<C>(lru: seq<Entry<C>>, maxFiles: nat, maxBytes: nat): seq<Entry<C>> {
    if GlobalSettled(lru, maxFiles, maxBytes) then lru else GlobalPhase(lru[1..], maxFiles, maxBytes)
  }

  /** The bytes of two lists in one are added. */
  lemma {:induction false} BytesAdd<C>(a: seq<Entry<C>>, b: seq<Entry<C>>, tenant: string)
    ensures TotalBytes(a + b) == TotalBytes(a) + TotalBytes(b)
    ensures TenantBytes(a + b, tenant) == TenantBytes(a, tenant) + TenantBytes(b, tenant)
  {
    if a == [] {
      assert a + b == b;
    } else {
      BytesAdd(a[1..], b, tenant);
      assert (a + b)[1..] == a[1..] + b;
    }
  }

  /** And an entry counts with its own bytes, for its own tenant. */
  lemma BytesOfOne<C>(e: Entry<C>, tenant: string)
    ensures TotalBytes([e]) == e.bytes && TenantBytes([e], tenant) == if e.tenant == tenant then e.bytes else 0
  {
    assert [e][1..] == [];
  }

  // --- Guarantees --------------------------------------------------------------------------

  /** The tenant's bytes are within the cap, or it has no entry but `key`. */
  ghost predicate WithinCap<C>(lru: seq<Entry<C>>, tenant: string, key: string, cap: nat) {
    TenantBytes(lru, tenant) <= cap || forall e :: e in lru && e.tenant == tenant ==> e.key == key
  }

  lemma SettledIsWithinCap<C>(lru: seq<Entry<C>>, tenant: string, key: string, cap: nat)
    ensures TenantSettled(lru, tenant, key, cap) <==> WithinCap(lru, tenant, key, cap)
  {
    var pos := Victim(lru, tenant, key);
    if pos < |lru| { assert lru[pos] in lru; }
  }

  lemma {:induction false} TenantPhaseSettles<C>(lru: seq<Entry<C>>, tenant: string, key: string, cap: nat)
    returns (k: nat)
    ensures TenantPhase(lru, tenant, key, cap) == DropOldest(lru, tenant, key, k)
    ensures TenantSettled(DropOldest(lru, tenant, key, k), tenant, key, cap)
    ensures forall j :: 0 <= j < k ==> !TenantSettled(DropOldest(lru, tenant, key, j), tenant, key, cap)
    decreases |lru|
  {
    DropNone(lru, tenant, key);
    if TenantSettled(lru, tenant, key, cap) {
      k := 0;
    } else {
      var next := RemoveAt(lru, Victim(lru, tenant, key));
      var m := TenantPhaseSettles(next, tenant, key, cap);
      k := m + 1;
      DropOneMore(lru, tenant, key, m);
      forall j | 0 <= j < k
        ensures !TenantSettled(DropOldest(lru, tenant, key, j), tenant, key, cap)
      {
        if j > 0 {
          DropOneMore(lru, tenant, key, j - 1);
        }
      }
    }
  }

  /** The tenant phase drops the shortest run of the tenant's oldest entries that settles it. */
  lemma TenantPhaseIsMinimal<C>(lru: seq<Entry<C>>, tenant: string, key: string, cap: nat) returns (k: nat)
    ensures TenantPhase(lru, tenant, key, cap) == DropOldest(lru, tenant, key, k)
    ensures WithinCap(DropOldest(lru, tenant, key, k), tenant, key, cap)
    ensures forall j :: 0 <= j < k ==> !WithinCap(DropOldest(lru, tenant, key, j), tenant, key, cap)
  {
    k := TenantPhaseSettles(lru, tenant, key, cap);
    SettledIsWithinCap(DropOldest(lru, tenant, key, k), tenant, key, cap);
    forall j | 0 <= j < k ensures !WithinCap(DropOldest(lru, tenant, key, j), tenant, key, cap) {
      SettledIsWithinCap(DropOldest(lru, tenant, key, j), tenant, key, cap);
    }
  }

  lemma {:induction false} DropNone<C>(lru: seq<Entry<C>>, tenant: string, key: string)
    ensures DropOldest(lru, tenant, key, 0) == lru
  {
    if lru != [] {
      DropNone(lru[1..], tenant, key);
    }
  }

  lemma {:induction false} DropOneMore<C>(lru: seq<Entry<C>>, tenant: string, key: string, k: nat)
    requires Victim(lru, tenant, key) < |lru|
    ensures DropOldest(RemoveAt(lru, Victim(lru, tenant, key)), tenant, key, k)
         == DropOldest(lru, tenant, key, k + 1)
  {
    var pos := Victim(lru, tenant, key);
    if pos == 0 {
      assert RemoveAt(lru, 0) == lru[1..];
    } else {
      DropOneMore(lru[1..], tenant, key, k);
      assert RemoveAt(lru, pos)[1..] == RemoveAt(lru[1..], pos - 1);
    }
  }

  /** The global phase drops the shortest oldest-first prefix that suffices. */
  lemma {:induction false} GlobalPhaseIsMinimal<C>(lru: seq<Entry<C>>, maxFiles: nat, maxBytes: nat)
    returns (k: nat)
    ensures k <= |lru| && GlobalPhase(lru, maxFiles, maxBytes) == lru[k..]
    ensures |lru[k..]| <= 1 || (|lru[k..]| <= maxFiles && TotalBytes(lru[k..]) <= maxBytes)
    ensures forall j :: 0 <= j < k ==> |lru[j..]| > 1 && (|lru[j..]| > maxFiles || TotalBytes(lru[j..]) > maxBytes)
  {
    if GlobalSettled(lru, maxFiles, maxBytes) {
      k := 0;
      assert lru[0..] == lru;
    } else {
      var m := GlobalPhaseIsMinimal(lru[1..], maxFiles, maxBytes);
      k := m + 1;
      forall j | 0 <= j < k
        ensures |lru[j..]| > 1 && (|lru[j..]| > maxFiles || TotalBytes(lru[j..]) > maxBytes)
      {
        if j > 0 {
          assert lru[j..] == lru[1..][j - 1..];
        } else {
          assert lru[0..] == lru;
        }
      }
      assert lru[k..] == lru[1..][m..];
    }
  }

  /** The entries the tenant phase leaves out are all of the tenant, and never `key`. */
  lemma {:induction false} TenantPhaseKeeps<C>(lru: seq<Entry<C>>, tenant: string, key: string, cap: nat, e: Entry<C>)
    requires e in lru && (e.tenant != tenant || e.key == key)
    ensures e in TenantPhase(lru, tenant, key, cap)
    decreases |lru|
  {
    if !TenantSettled(lru, tenant, key, cap) {
      var pos := Victim(lru, tenant, key);
      var i :| 0 <= i < |lru| && lru[i] == e;
      assert RemoveAt(lru, pos)[if i < pos then i else i - 1] == e;
      TenantPhaseKeeps(RemoveAt(lru, pos), tenant, key, cap, e);
    }
  }

  /** The newest entry, when it is the touched one, survives the tenant phase as newest. */
  lemma {:induction false} TenantPhaseKeepsNewest<C>(lru: seq<Entry<C>>, tenant: string, key: string, cap: nat)
    requires lru != [] && lru[|lru| - 1].key == key
    ensures var r := TenantPhase(lru, tenant, key, cap);
      r != [] && r[|r| - 1] == lru[|lru| - 1]
    decreases |lru|
  {
    if !TenantSettled(lru, tenant, key, cap) {
      var pos := Victim(lru, tenant, key);
      var next := RemoveAt(lru, pos);
      assert pos < |lru| - 1;
      assert next[|next| - 1] == lru[|lru| - 1];
      TenantPhaseKeepsNewest(next, tenant, key, cap);
    }
  }

  /** The list after a touch, as the source computes it. */
  function AfterTouch<C>(lru: seq<Entry<C>>, e: Entry<C>, caps: map<string, nat>, maxFiles: nat, maxBytes: nat)
    : seq<Entry<C>>
  {
    var pushed := Pushed(lru, e);
    var capped := if e.tenant in caps then TenantPhase(pushed, e.tenant, e.key, caps[e.tenant]) else pushed;
    GlobalPhase(capped, maxFiles, maxBytes)
  }

  /** The guarantees of a touch: the touched entry survives as newest; one entry is left or both
      global limits hold; a capped tenant is within its cap or keeps the touched entry alone. */
  lemma AfterTouchGuarantees<C>(lru: seq<Entry<C>>, e: Entry<C>, caps: map<string, nat>, maxFiles: nat, maxBytes: nat)
    ensures var r := AfterTouch(lru, e, caps, maxFiles, maxBytes);
      && r != [] && r[|r| - 1] == e
      && (|r| <= 1 || (|r| <= maxFiles && TotalBytes(r) <= maxBytes))
      && (e.tenant in caps ==> WithinCap(r, e.tenant, e.key, caps[e.tenant]))
  {
    var pushed := Pushed(lru, e);
    var capped := if e.tenant in caps then TenantPhase(pushed, e.tenant, e.key, caps[e.tenant]) else pushed;
    if e.tenant in caps {
      TenantPhaseKeepsNewest(pushed, e.tenant, e.key, caps[e.tenant]);
      var k := TenantPhaseIsMinimal(pushed, e.tenant, e.key, caps[e.tenant]);
      SettledIsWithinCap(capped, e.tenant, e.key, caps[e.tenant]);
    }
    var k := GlobalPhaseIsMinimal(capped, maxFiles, maxBytes);
    assert |capped[|capped| - 1..]| == 1;
    var r := capped[k..];
    assert r[|r| - 1] == capped[|capped| - 1];
    if e.tenant in caps {
      SuffixSettled(capped, k, e.tenant, e.key, caps[e.tenant]);
      SettledIsWithinCap(r, e.tenant, e.key, caps[e.tenant]);
    }
  }

  lemma {:induction false} SuffixBytes<C>(lru: seq<Entry<C>>, k: nat, tenant: string)
    requires k <= |lru|
    ensures TenantBytes(lru[k..], tenant) <= TenantBytes(lru, tenant)
  {
    if k > 0 {
      SuffixBytes(lru[1..], k - 1, tenant);
      assert lru[1..][k - 1..] == lru[k..];
    } else {
      assert lru[0..] == lru;
    }
  }

  lemma SuffixSettled<C>(lru: seq<Entry<C>>, k: nat, tenant: string, key: string, cap: nat)
    requires k <= |lru| && TenantSettled(lru, tenant, key, cap)
    ensures TenantSettled(lru[k..], tenant, key, cap)
  {
    SuffixBytes(lru, k, tenant);
    var pos := Victim(lru[k..], tenant, key);
    if pos < |lru[k..]| {
      assert lru[k..][pos] == lru[k + pos];
    }
  }

  // --- Keys ----------------------------------------------------------------------------------

  ghost predicate HasKey<C>(lru: seq<Entry<C>>, key: string) {
    exists i :: 0 <= i < |lru| && lru[i].key == key
  }

  ghost predicate DistinctKeys<C>(lru: seq<Entry<C>>) {
    forall i, j :: 0 <= i < j < |lru| ==> lru[i].key != lru[j].key
  }

  /** `retain` drops the entries of `key` and nothing else. */
  lemma {:induction false} WithoutKey<C>(lru: seq<Entry<C>>, key: string)
    requires DistinctKeys(lru)
    ensures var r := Without(lru, key);
      && DistinctKeys(r)
      && (forall i :: 0 <= i < |r| ==> r[i] in lru && r[i].key != key)
      && (forall i :: 0 <= i < |lru| && lru[i].key != key ==> lru[i] in r)
  {
    if lru != [] {
      WithoutKey(lru[1..], key);
      var rest := Without(lru[1..], key);
      forall i | 0 <= i < |rest|
        ensures rest[i] in lru && rest[i].key != lru[0].key
      {
        var j :| 0 <= j < |lru[1..]| && lru[1..][j] == rest[i];
        assert lru[j + 1] == rest[i];
      }
      forall i | 1 <= i < |lru| && lru[i].key != key
        ensures lru[i] in Without(lru, key)
      {
        assert lru[1..][i - 1] == lru[i];
      }
    }
  }

  /** Removing one entry of a list with distinct keys removes that entry alone. */
  lemma RemoveAtMembers<C>(lru: seq<Entry<C>>, pos: nat)
    requires pos < |lru| && DistinctKeys(lru)
    ensures DistinctKeys(RemoveAt(lru, pos))
    ensures forall e :: e in RemoveAt(lru, pos) <==> e in lru && e != lru[pos]
  {
    var r := RemoveAt(lru, pos);
    forall e | e in lru && e != lru[pos]
      ensures e in r
    {
      var i :| 0 <= i < |lru| && lru[i] == e;
      assert r[if i < pos then i else i - 1] == e;
    }
  }

  /** ... and so its key alone. */
  lemma RemoveAtKeys<C>(lru: seq<Entry<C>>, pos: nat)
    requires pos < |lru| && DistinctKeys(lru)
    ensures forall k :: HasKey(RemoveAt(lru, pos), k) <==> HasKey(lru, k) && k != lru[pos].key
  {
    var r := RemoveAt(lru, pos);
    forall k | HasKey(lru, k) && k != lru[pos].key
      ensures HasKey(r, k)
    {
      var i :| 0 <= i < |lru| && lru[i].key == k;
      assert r[if i < pos then i else i - 1].key == k;
    }
    forall k | HasKey(r, k)
      ensures HasKey(lru, k) && k != lru[pos].key
    {
      var i :| 0 <= i < |r| && r[i].key == k;
      assert lru[if i < pos then i else i + 1].key == k;
    }
  }

  /** The list once the touched entry is pushed as newest. */
  function Pushed<C>(lru: seq<Entry<C>>, e: Entry<C>): seq<Entry<C>> {
    Without(lru, e.key) + [e]
  }

  lemma PushedKeys<C>(lru: seq<Entry<C>>, e: Entry<C>)
    requires DistinctKeys(lru)
    ensures forall k :: HasKey(Pushed(lru, e), k) <==> HasKey(lru, k) || k == e.key
  {
    WithoutKey(lru, e.key);
    var w, r := Without(lru, e.key), Pushed(lru, e);
    assert r[|r| - 1] == e;
    forall k | HasKey(lru, k) && k != e.key
      ensures HasKey(r, k)
    {
      var i :| 0 <= i < |lru| && lru[i].key == k;
      var j :| 0 <= j < |w| && w[j] == lru[i];
      assert r[j].key == k;
    }
    forall k | HasKey(r, k) && k != e.key
      ensures HasKey(lru, k)
    {
      var i :| 0 <= i < |r| && r[i].key == k;
      assert w[i] in lru;
    }
  }

  lemma KeysWithin<C>(a: seq<Entry<C>>, b: seq<Entry<C>>)
    requires forall e :: e in a ==> e in b
    ensures forall k :: HasKey(a, k) ==> HasKey(b, k)
  {
    forall k | HasKey(a, k)
      ensures HasKey(b, k)
    {
      var i :| 0 <= i < |a| && a[i].key == k;
      assert a[i] in b;
    }
  }
}
