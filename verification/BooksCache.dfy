/** The process-wide books cache: modes over shared files, a recency list, and identity-checked
    eviction. A cell is an object: two cells are the same only when they are one object. */
module BooksCache {
  import opened Lru

  class BooksIndex {
    const size: nat

    constructor (size: nat)
      ensures this.size == size
    {
      this.size := size;
    }
  }

  /** `OnceCell<Arc<BooksIndex>>`: empty until a load of the file succeeds. */
  class FileCell {
    var index: BooksIndex?

    constructor ()
      ensures index == null
    {
      index := null;
    }
  }

  /** `OnceCell<Arc<ModeAssets>>`: the books a loaded mode draws from. */
  class ModeCell {
    var books: BooksIndex?

    constructor ()
      ensures books == null
    {
      books := null;
    }
  }

  class Cache {
    var modes: map<string, ModeCell>
    var files: map<string, FileCell>
    var lru: seq<Entry<FileCell>>
    const maxFiles: nat
    const maxBytes: nat
    var tenantCaps: map<string, nat>

    constructor (maxFiles: nat, maxBytes: nat)
      ensures Agreement() && modes == map[] && files == map[] && lru == []
      ensures this.maxFiles == maxFiles && this.maxBytes == maxBytes
    {
      modes, files, lru, tenantCaps := map[], map[], [], map[];
      this.maxFiles, this.maxBytes := maxFiles, maxBytes;
    }

    /** Keys in the recency list are distinct, and each entry's cell is the very cell that `files`
        holds under its key. */
    ghost predicate Agreement()
      reads this
    {
      DistinctKeys(lru) && Holds(lru, files)
    }

    method SetTenantCap(tenant: string, maxBytes: nat, clear: bool)
      requires Agreement()
      modifies `tenantCaps
      ensures Agreement()
      ensures tenantCaps == if clear then old(tenantCaps) - {tenant} else old(tenantCaps)[tenant := maxBytes]
    {
      tenantCaps := if clear then tenantCaps - {tenant} else tenantCaps[tenant := maxBytes];
    }

    method GetModeCell(key: string) returns (cell: ModeCell)
      requires Agreement()
      modifies `modes
      ensures Agreement()
      ensures key in modes && modes[key] == cell
      ensures if key in old(modes) then modes == old(modes)
              else modes == old(modes)[key := cell] && fresh(cell) && cell.books == null
    {
      if key !in modes {
        cell := new ModeCell();
        modes := modes[key := cell];
      }
      cell := modes[key];
    }

    method GetFileCell(key: string) returns (cell: FileCell)
      requires Agreement()
      modifies `files
      ensures Agreement()
      ensures key in files && files[key] == cell
      ensures if key in old(files) then files == old(files)
              else files == old(files)[key := cell] && fresh(cell) && cell.index == null
    {
      if key !in files {
        cell := new FileCell();
        files := files[key := cell];
      }
      cell := files[key];
    }

    /** Drops an evicted file, but only while `files` still holds the same cell, and with it every
        mode entry that draws from its index. */
    method Evict(victim: Entry<FileCell>)
      modifies `files, `modes
      ensures if victim.key in old(files) && old(files)[victim.key] == victim.cell
              then files == old(files) - {victim.key} && RetainedModes(old(modes), modes, victim.cell.index)
              else files == old(files) && modes == old(modes)
    {
      if victim.key in files && files[victim.key] == victim.cell {
        files := files - {victim.key};
        if victim.cell.index != null {
          modes := map k | k in modes && (modes[k].books == null || modes[k].books != victim.cell.index) :: modes[k];
        }
      }
    }

    /** Records the use of a loaded file and evicts what no longer fits. A cell that `files` does
        not hold under `key` changes nothing. Otherwise the list is `AfterTouch`, a file leaves
        `files` exactly when its entry leaves the list, and a mode entry leaves `modes` exactly
        when it draws from an evicted file. */
    method Touch(key: string, tenant: string, cell: FileCell, bytes: nat)
      requires Agreement()
      modifies `lru, `files, `modes
      ensures Agreement()
      ensures !(key in old(files) && old(files)[key] == cell) ==>
        lru == old(lru) && files == old(files) && modes == old(modes)
      ensures key in old(files) && old(files)[key] == cell ==>
        && lru == AfterTouch(old(lru), Entry(key, tenant, bytes, cell), tenantCaps, maxFiles, maxBytes)
        && (forall e :: e in lru ==> e in Pushed(old(lru), Entry(key, tenant, bytes, cell)))
        && FilesFollow(Pushed(old(lru), Entry(key, tenant, bytes, cell)), lru, old(files), files)
        && ModesFollow(Pushed(old(lru), Entry(key, tenant, bytes, cell)), lru, old(modes), modes)
    {
      if key !in files || files[key] != cell {
        return;
      }
      var e := Entry(key, tenant, bytes, cell);
      PushedAgrees(lru, e, files);
      lru := Pushed(lru, e);
      ghost var pushed := lru;
      if tenant in tenantCaps {
        EvictTenant(tenant, key, tenantCaps[tenant], pushed, files, modes);
      }
      EvictGlobal(pushed, old(files), old(modes));
    }

    /** Between loads that do not interleave: the loaded files are exactly those of the recency
        list, and every loaded mode draws from one of them. */
    ghost predicate Settled()
      reads this, files.Values, modes.Values, set e | e in lru :: e.cell
    {
      && Agreement()
      && (forall k :: k in files ==> (files[k].index != null <==> HasKey(lru, k)))
      && (forall k :: k in modes && modes[k].books != null ==> DrawsFrom(lru, modes[k].books))
      && Injective(files) && Injective(modes)
    }

    /** One load of a mode, run to its end: the weights may be unreadable, and so may the books
        when the file is not loaded yet (`newBooks` is what opening it would give). */
    method LoadAssets(modeKey: string, fileKey: string, tenant: string, weightsOk: bool, newBooks: BooksIndex?)
      returns (books: BooksIndex?)
      requires Settled()
      modifies this, files.Values, modes.Values
      ensures Settled() && tenantCaps == old(tenantCaps)
      ensures old(modeKey in modes && modes[modeKey].books != null) ==>
        books == old(modes[modeKey].books) && lru == old(lru)
      ensures books != null ==>
        && modeKey in modes && modes[modeKey].books == books && DrawsFrom(lru, books)
      ensures books == null <==>
        && !old(modeKey in modes && modes[modeKey].books != null)
        && (!weightsOk || (newBooks == null && !old(fileKey in files && files[fileKey].index != null)))
    {
      var modeCell := GetModeCell(modeKey);
      if modeCell.books != null { return modeCell.books; }
      if !weightsOk { return null; }
      books := LoadBooks(fileKey, tenant, newBooks, modeKey);
      if books != null {
        InitMode(modeKey, modeCell, books);
      }
    }

    /** The mode cell is set once the books are loaded. */
    method InitMode(modeKey: string, modeCell: ModeCell, books: BooksIndex)
      requires Settled() && modeKey in modes && modes[modeKey] == modeCell && DrawsFrom(lru, books)
      modifies modeCell
      ensures Settled() && modeCell.books == books
    {
      modeCell.books := books;
    }

    /** The shared half of a load: opens the file unless a mode already did, and records its use. */
    method LoadBooks(fileKey: string, tenant: string, newBooks: BooksIndex?, ghost modeKey: string)
      returns (books: BooksIndex?)
      requires Settled() && modeKey in modes && modes[modeKey].books == null
      modifies `lru, `files, `modes, files.Values
      ensures Settled()
      ensures modeKey in modes && modes[modeKey] == old(modes[modeKey]) && modes[modeKey].books == null
      ensures books == null <==> newBooks == null && !old(fileKey in files && files[fileKey].index != null)
      ensures books != null ==> DrawsFrom(lru, books)
    {
      var cell := GetFileCell(fileKey);
      if cell.index == null {
        if newBooks == null { return null; }
        cell.index := newBooks;
      }
      books := cell.index;
      UseLoaded(fileKey, tenant, cell, modeKey);
    }

    /** The touch that ends a load. */
    method UseLoaded(fileKey: string, tenant: string, cell: FileCell, ghost modeKey: string)
      requires cell.index != null
      requires Ready(lru, Entry(fileKey, tenant, cell.index.size, cell), files, modes)
      requires Injective(files) && Injective(modes)
      requires modeKey in modes && modes[modeKey].books == null
      modifies `lru, `files, `modes
      ensures Settled() && DrawsFrom(lru, cell.index)
      ensures modeKey in modes && modes[modeKey] == old(modes[modeKey])
    {
      ghost var before, files0, modes0 := lru, files, modes;
      ghost var e := Entry(fileKey, tenant, cell.index.size, cell);
      Touch(fileKey, tenant, cell, cell.index.size);
      AfterTouchGuarantees(before, e, tenantCaps, maxFiles, maxBytes);
      assert lru[|lru| - 1] == e;
      FilesSettle(before, lru, e, files0, files, modes0);
      ModesSettle(before, lru, e, files0, modes0, modes);
    }

    /** The tenant's oldest entries go first, never the touched one, until the tenant fits. */
    method EvictTenant(tenant: string, key: string, cap: nat, ghost pushed: seq<Entry<FileCell>>,
                       ghost files0: map<string, FileCell>, ghost modes0: map<string, ModeCell>)
      requires Agreement() && Following(pushed, files0, modes0)
      modifies `lru, `files, `modes
      ensures Agreement() && Following(pushed, files0, modes0)
      ensures lru == TenantPhase(old(lru), tenant, key, cap)
    {
      while TenantBytes(lru, tenant) > cap
        invariant Agreement() && Following(pushed, files0, modes0)
        invariant TenantPhase(lru, tenant, key, cap) == TenantPhase(old(lru), tenant, key, cap)
        decreases |lru|
      {
        var pos := Victim(lru, tenant, key);
        if pos == |lru| { break; }
        EvictAt(pos, pushed, files0, modes0);
      }
    }

    /** The oldest entries go until one is left or both global limits hold. */
    method EvictGlobal(ghost pushed: seq<Entry<FileCell>>,
                       ghost files0: map<string, FileCell>, ghost modes0: map<string, ModeCell>)
      requires Agreement() && Following(pushed, files0, modes0)
      modifies `lru, `files, `modes
      ensures Agreement() && Following(pushed, files0, modes0)
      ensures lru == GlobalPhase(old(lru), maxFiles, maxBytes)
    {
      while |lru| > 1 && (|lru| > maxFiles || TotalBytes(lru) > maxBytes)
        invariant Agreement() && Following(pushed, files0, modes0)
        invariant GlobalPhase(lru, maxFiles, maxBytes) == GlobalPhase(old(lru), maxFiles, maxBytes)
        decreases |lru|
      {
        assert RemoveAt(lru, 0) == lru[1..];
        EvictAt(0, pushed, files0, modes0);
      }
    }

    /** The maps have followed the list since it was `pushed`. */
    ghost predicate Following(pushed: seq<Entry<FileCell>>, files0: map<string, FileCell>,
                              modes0: map<string, ModeCell>)
      reads this, modes0.Values, set e | e in pushed :: e.cell
    {
      && (forall e :: e in lru ==> e in pushed)
      && FilesFollow(pushed, lru, files0, files) && ModesFollow(pushed, lru, modes0, modes)
    }

    /** One turn of either eviction loop. */
    method EvictAt(pos: nat, ghost pushed: seq<Entry<FileCell>>,
                   ghost files0: map<string, FileCell>, ghost modes0: map<string, ModeCell>)
      requires Agreement() && pos < |lru| && Following(pushed, files0, modes0)
      modifies `lru, `files, `modes
      ensures Agreement() && lru == RemoveAt(old(lru), pos)
      ensures Following(pushed, files0, modes0)
    {
      var victim := lru[pos];
      RemoveAtMembers(lru, pos);
      RemoveAtKeys(lru, pos);
      assert victim in lru;
      ghost var before := lru;
      lru := RemoveAt(lru, pos);
      Evict(victim);
      FollowOne(pushed, before, pos, files0, old(files), files);
    }
  }

  /** The retained list with the touched entry on top still agrees with `files`. */
  lemma PushedAgrees(lru: seq<Entry<FileCell>>, e: Entry<FileCell>, files: map<string, FileCell>)
    requires DistinctKeys(lru) && Holds(lru, files) && e.key in files && files[e.key] == e.cell
    ensures DistinctKeys(Pushed(lru, e)) && Holds(Pushed(lru, e), files)
  {
    WithoutKey(lru, e.key);
    var rest := Without(lru, e.key);
    forall i | 0 <= i < |rest|
      ensures rest[i].key in files && files[rest[i].key] == rest[i].cell && rest[i].key != e.key
    {
      var j :| 0 <= j < |lru| && lru[j] == rest[i];
    }
  }

  lemma FollowOne(pushed: seq<Entry<FileCell>>, lru: seq<Entry<FileCell>>, pos: nat,
                  before: map<string, FileCell>, now: map<string, FileCell>, next: map<string, FileCell>)
    requires pos < |lru| && DistinctKeys(lru) && lru[pos] in pushed
    requires FilesFollow(pushed, lru, before, now) && next == now - {lru[pos].key}
    ensures FilesFollow(pushed, RemoveAt(lru, pos), before, next)
  {
    RemoveAtKeys(lru, pos);
    assert HasKey(pushed, lru[pos].key);
  }

  /** Just before the touch of a load: settled, but for the file just opened. */
  ghost predicate Ready(lru: seq<Entry<FileCell>>, e: Entry<FileCell>,
                        files: map<string, FileCell>, modes: map<string, ModeCell>)
    reads files.Values, modes.Values, e.cell, set e | e in lru :: e.cell
  {
    && DistinctKeys(lru) && Holds(lru, files)
    && e.key in files && files[e.key] == e.cell && e.cell.index != null
    && (forall k :: k in files ==> (files[k].index != null <==> HasKey(lru, k) || k == e.key))
    && (forall k :: k in modes && modes[k].books != null ==> DrawsFrom(lru, modes[k].books))
  }

  lemma FilesSettle(before: seq<Entry<FileCell>>, lru: seq<Entry<FileCell>>, e: Entry<FileCell>,
                    files0: map<string, FileCell>, files: map<string, FileCell>, modes0: map<string, ModeCell>)
    requires Ready(before, e, files0, modes0)
    requires forall x :: x in lru ==> x in Pushed(before, e)
    requires FilesFollow(Pushed(before, e), lru, files0, files)
    ensures forall k :: k in files ==> (files[k].index != null <==> HasKey(lru, k))
  {
    PushedKeys(before, e);
    KeysWithin(lru, Pushed(before, e));
  }

  lemma ModesSettle(before: seq<Entry<FileCell>>, lru: seq<Entry<FileCell>>, e: Entry<FileCell>,
                    files0: map<string, FileCell>, modes0: map<string, ModeCell>, modes: map<string, ModeCell>)
    requires Ready(before, e, files0, modes0) && e in lru
    requires ModesFollow(Pushed(before, e), lru, modes0, modes)
    ensures forall k :: k in modes && modes[k].books != null ==> DrawsFrom(lru, modes[k].books)
  {
    WithoutKey(before, e.key);
    forall k | k in modes && modes[k].books != null
      ensures DrawsFrom(lru, modes[k].books)
    {
      var books := modes0[k].books;
      var i :| 0 <= i < |before| && before[i].cell.index == books;
      var x := before[i];
      if x.key == e.key {
        assert x.cell == e.cell;
        var j :| 0 <= j < |lru| && lru[j] == e;
        assert lru[j].cell.index == books;
      } else {
        assert x in Pushed(before, e);
        assert x in lru;
        var j :| 0 <= j < |lru| && lru[j] == x;
        assert lru[j].cell.index == books;
      }
    }
  }

  /** Some entry of the list holds `index`. */
  ghost predicate DrawsFrom(lru: seq<Entry<FileCell>>, index: BooksIndex?)
    reads set e | e in lru :: e.cell
  {
    exists i :: 0 <= i < |lru| && lru[i].cell.index == index
  }

  ghost predicate Injective<T>(m: map<string, T>) {
    forall k1, k2 :: k1 in m && k2 in m && m[k1] == m[k2] ==> k1 == k2
  }

  /** Each entry's cell is the one `files` holds. */
  ghost predicate Holds(lru: seq<Entry<FileCell>>, files: map<string, FileCell>) {
    forall i :: 0 <= i < |lru| ==> lru[i].key in files && files[lru[i].key] == lru[i].cell
  }

  /** `now` is `before` without the modes that draw from `index`. */
  ghost predicate RetainedModes(before: map<string, ModeCell>, now: map<string, ModeCell>, index: BooksIndex?)
    reads before.Values
  {
    && (forall k :: k in now ==> k in before && now[k] == before[k])
    && (forall k :: k in before ==>
          (k in now <==> before[k].books == null || before[k].books != index))
  }

  /** From the list `pushed` to `lru`, the files gone are those of the entries gone. */
  ghost predicate FilesFollow(pushed: seq<Entry<FileCell>>, lru: seq<Entry<FileCell>>,
                              before: map<string, FileCell>, now: map<string, FileCell>)
  {
    && (forall k :: k in now ==> k in before && now[k] == before[k])
    && (forall k :: k in before ==> (k in now <==> HasKey(lru, k) || !HasKey(pushed, k)))
  }

  /** The mode draws from no file whose entry is gone. */
  ghost predicate Unaffected(cell: ModeCell, pushed: seq<Entry<FileCell>>, lru: seq<Entry<FileCell>>)
    reads cell, set e | e in pushed :: e.cell
  {
    cell.books == null || forall e :: e in pushed && e !in lru ==> e.cell.index != cell.books
  }

  ghost predicate ModesFollow(pushed: seq<Entry<FileCell>>, lru: seq<Entry<FileCell>>,
                              before: map<string, ModeCell>, now: map<string, ModeCell>)
    reads before.Values, set e | e in pushed :: e.cell
  {
    && (forall k :: k in now ==> k in before && now[k] == before[k])
    && (forall k :: k in before ==> (k in now <==> Unaffected(before[k], pushed, lru)))
  }
}
