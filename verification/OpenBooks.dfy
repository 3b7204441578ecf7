/** Opening a books file end to end: index, persist, reopen, look up. */
module OpenBooks {
  import opened Bytes
  import opened BookId
  import opened Wrappers
  import opened IndexingWriter
  import opened JsonStream
  import opened BuildIndex
  import opened IndexLimits
  import opened Sidecar

  /** Ids are 32-bit and ranges lie in a buffer of `n` bytes. */
  ghost predicate Bounded(m: map<nat, Range>, n: nat) {
    forall id :: id in m ==> id <= U32_MAX && m[id].start <= m[id].end <= n
  }

  lemma {:induction false} IndexBounded(lines: seq<Line>, n: nat)
    requires forall l :: l in lines ==> l.start + |l.text| <= n
    ensures Bounded(IndexLines(lines).ranges, n)
  {
    if lines != [] {
      var front := lines[..|lines| - 1];
      IndexBounded(front, n);
      assert lines[|lines| - 1] in lines;
    }
  }

  lemma {:induction false} ScanBounded(b: bytes, pos: nat, m: map<nat, Range>)
    requires pos <= |b| && Bounded(m, |b|)
    ensures ScanFrom(b, pos, m).Ok? ==> Bounded(ScanFrom(b, pos, m).value, |b|)
    decreases |b| - pos
  {
    var rest := TrimLeft(b[pos..]);
    if rest != [] {
      var n := ValueLength(Json.INIT, rest);
      if n.Some? {
        var end := |b| - |rest| + n.value;
        ScanBounded(b, end, IndexRecord(b, pos, end, m));
      }
    }
  }

  lemma {:induction false} SortedIdsAreSpread(entries: seq<IdRange>, i: nat)
    requires SortedById(entries) && i < |entries|
    ensures entries[i].id >= i
  {
    if i > 0 {
      SortedIdsAreSpread(entries, i - 1);
    }
  }

  lemma TableIsWritable(entries: seq<IdRange>, m: map<nat, Range>, n: nat)
    requires SortedById(entries) && Lists(entries, m) && Bounded(m, n) && n < U64_RANGE
    ensures Writable(n, entries)
  {
    if entries != [] {
      SortedIdsAreSpread(entries, |entries| - 1);
    }
  }

  /** `entries` is a table that an open of `buffer` can have built, for whatever required ids. */
  ghost predicate BuiltFrom(buffer: bytes, entries: seq<IdRange>) {
    SortedById(entries) &&
    ((IndexLines(Lines(buffer)).complete && Lists(entries, IndexLines(Lines(buffer)).ranges))
     || (ScanFrom(buffer, 0, map[]).Ok? && Lists(entries, ScanFrom(buffer, 0, map[]).value)))
  }

  /** The sidecar file opens for the buffer only if an open of the buffer wrote it. */
  ghost predicate OwnSidecar(buffer: bytes, file: Option<bytes>) {
    Open(file, |buffer|).Some? ==>
      exists entries :: BuiltFrom(buffer, entries) && file == Some(IndexFile(|buffer|, entries))
  }

  lemma BuiltIsWritable(buffer: bytes, entries: seq<IdRange>)
    requires BuiltFrom(buffer, entries) && |buffer| < U64_RANGE
    ensures Writable(|buffer|, entries)
  {
    LinesInPlace(buffer);
    IndexBounded(Lines(buffer), |buffer|);
    ScanBounded(buffer, 0, map[]);
    var m := if Lists(entries, IndexLines(Lines(buffer)).ranges)
      then IndexLines(Lines(buffer)).ranges else ScanFrom(buffer, 0, map[]).value;
    TableIsWritable(entries, m, |buffer|);
  }

  lemma BuiltLooksUp(buffer: bytes, entries: seq<IdRange>, index: IdIndex)
    requires BuiltFrom(buffer, entries) && StrictJsonl(buffer) && NoStraddle(buffer)
    requires index.Valid() && index.Len() == |entries|
    requires forall i :: 0 <= i < |entries| ==> index.Record(i) == entries[i]
    ensures ScanFrom(buffer, 0, map[]).Ok? && LooksUp(buffer, index, ScanFrom(buffer, 0, map[]).value)
  {
    LineIndexAgreesWithScan(buffer);
    var scanned := ScanFrom(buffer, 0, map[]).value;
    if IndexLines(Lines(buffer)).complete && Lists(entries, IndexLines(Lines(buffer)).ranges) {
      ListedLooksUp(buffer, entries, IndexLines(Lines(buffer)).ranges, index, scanned);
    } else {
      ListedLooksUp(buffer, entries, scanned, index, scanned);
    }
  }

  /** The index holds the records of a table built from the buffer. */
  ghost predicate Holds(buffer: bytes, index: IdIndex) {
    index.Valid() && index.Sorted() &&
    exists entries :: BuiltFrom(buffer, entries) && index.Len() == |entries|
      && forall i :: 0 <= i < |entries| ==> index.Record(i) == entries[i]
  }

  /** Reuses the sidecar when it opens for a buffer of this length; otherwise builds the table, and
      writes it over the sidecar where that can be written. Over any series of opens, with whatever
      required ids, the sidecar stays one that an open wrote, and the index holds such a table. */
  method OpenIndexed(buffer: bytes, requiredIds: seq<nat>, sidecar: Option<bytes>, writable: bool)
    returns (r: Result<IdIndex, nat>, after: Option<bytes>)
    requires |buffer| < U64_RANGE
    ensures Open(sidecar, |buffer|).Some? ==> r == Ok(Open(sidecar, |buffer|).value) && after == sidecar
    ensures r.Err? ==> ScanFrom(buffer, 0, map[]).Err? && after == sidecar
    ensures OwnSidecar(buffer, sidecar) ==> OwnSidecar(buffer, after) && (r.Ok? ==> Holds(buffer, r.value))
    ensures OwnSidecar(buffer, sidecar) && StrictJsonl(buffer) && NoStraddle(buffer) ==>
      r.Ok? && ScanFrom(buffer, 0, map[]).Ok? && LooksUp(buffer, r.value, ScanFrom(buffer, 0, map[]).value)
  {
    after := sidecar;
    var found := Open(sidecar, |buffer|);
    if found.Some? {
      r := Ok(found.value);
      if OwnSidecar(buffer, sidecar) { ReusedHolds(buffer, sidecar); }
    } else {
      r, after := BuildAndPersist(buffer, requiredIds, sidecar, writable);
    }
    if StrictJsonl(buffer) && NoStraddle(buffer) {
      LineIndexAgreesWithScan(buffer);
      if r.Ok? && Holds(buffer, r.value) { HeldLooksUp(buffer, r.value); }
    }
  }

  lemma HeldLooksUp(buffer: bytes, index: IdIndex)
    requires Holds(buffer, index) && StrictJsonl(buffer) && NoStraddle(buffer)
    ensures ScanFrom(buffer, 0, map[]).Ok? && LooksUp(buffer, index, ScanFrom(buffer, 0, map[]).value)
  {
    var entries :| BuiltFrom(buffer, entries) && index.Len() == |entries|
      && forall i :: 0 <= i < |entries| ==> index.Record(i) == entries[i];
    BuiltLooksUp(buffer, entries, index);
  }

  lemma ReusedHolds(buffer: bytes, sidecar: Option<bytes>)
    requires |buffer| < U64_RANGE && OwnSidecar(buffer, sidecar) && Open(sidecar, |buffer|).Some?
    ensures Holds(buffer, Open(sidecar, |buffer|).value)
  {
    var entries :| BuiltFrom(buffer, entries) && sidecar == Some(IndexFile(|buffer|, entries));
    BuiltIsWritable(buffer, entries);
    OpenWritten(|buffer|, entries);
  }

  method BuildAndPersist(buffer: bytes, requiredIds: seq<nat>, sidecar: Option<bytes>, writable: bool)
    returns (r: Result<IdIndex, nat>, after: Option<bytes>)
    requires |buffer| < U64_RANGE && Open(sidecar, |buffer|).None?
    ensures r.Err? ==> ScanFrom(buffer, 0, map[]).Err? && after == sidecar
    ensures OwnSidecar(buffer, after) && (r.Ok? ==> Holds(buffer, r.value))
  {
    after := sidecar;
    var built := Build(buffer, requiredIds);
    if built.Err? { return Err(built.error), after; }
    BuiltIsWritable(buffer, built.value);
    var index, written := Persist(|buffer|, built.value, writable);
    if written.Some? { after := written; }
    r := Ok(index);
  }

  ghost predicate NamesRecordOf(b: bytes, e: IdRange, m: map<nat, Range>) {
    e.id in m && SameRecord(b, Range(e.start, e.end), m[e.id])
  }

  /** The records of `index` have the ids of `m`, and each names the same record of the buffer. */
  ghost predicate LooksUp(b: bytes, index: IdIndex, m: map<nat, Range>)
    requires index.Valid()
  {
    && (forall i :: 0 <= i < index.Len() ==> NamesRecordOf(b, index.Record(i), m))
    && (forall id :: id in m ==> exists i :: 0 <= i < index.Len() && index.Record(i).id == id)
  }

  lemma ListedLooksUp(b: bytes, entries: seq<IdRange>, m: map<nat, Range>, index: IdIndex, scanned: map<nat, Range>)
    requires Lists(entries, m) && SameRecords(b, m, scanned)
    requires index.Valid() && index.Len() == |entries|
    requires forall i :: 0 <= i < |entries| ==> index.Record(i) == entries[i]
    ensures LooksUp(b, index, scanned)
  {
    forall id | id in scanned
      ensures exists i :: 0 <= i < index.Len() && index.Record(i).id == id
    {
      var i :| 0 <= i < |entries| && entries[i].id == id;
      assert index.Record(i).id == id;
    }
  }

  /** The range `read_event` slices for an id: on strict JSONL, the scan's record up to white space, and
      none exactly when the scan finds no such id. What it covers is one object with that id. */
  method EventRange(buffer: bytes, requiredIds: seq<nat>, sidecar: Option<bytes>, writable: bool, id: nat)
    returns (r: Result<Option<(nat, nat)>, nat>)
    requires |buffer| < U64_RANGE && OwnSidecar(buffer, sidecar)
    ensures StrictJsonl(buffer) && NoStraddle(buffer) ==>
      var scan := ScanFrom(buffer, 0, map[]);
      && r.Ok? && scan.Ok? && (r.value.Some? <==> id in scan.value)
      && (r.value.Some? ==> IsRecordOf(buffer, Range(r.value.value.0, r.value.value.1), scan.value[id], id))
  {
    var index, after := OpenIndexed(buffer, requiredIds, sidecar, writable);
    if index.Err? { return Err(index.error); }
    var range := index.value.Get(id);
    r := Ok(range);
    if StrictJsonl(buffer) && NoStraddle(buffer) {
      LookupIsRecord(buffer, index.value, ScanFrom(buffer, 0, map[]).value, id, range);
    }
  }

  lemma LookupIsRecord(b: bytes, index: IdIndex, scanned: map<nat, Range>, id: nat, range: Option<(nat, nat)>)
    requires index.Valid() && LooksUp(b, index, scanned) && ScanFrom(b, 0, map[]) == Ok(scanned)
    requires range.Some? <==> exists i :: 0 <= i < index.Len() && index.Record(i).id == id
    requires forall i :: 0 <= i < index.Len() && index.Record(i).id == id ==>
      range == Some((index.Record(i).start, index.Record(i).end))
    ensures range.Some? <==> id in scanned
    ensures range.Some? ==> IsRecordOf(b, Range(range.value.0, range.value.1), scanned[id], id)
  {
    if range.Some? {
      var i :| 0 <= i < index.Len() && index.Record(i).id == id;
      FoundIsRecord(b, index.Record(i), scanned);
    }
  }

  /** `r` is the record `s` up to white space, and one object with the id. */
  ghost predicate IsRecordOf(b: bytes, r: Range, s: Range, id: nat) {
    SameRecord(b, r, s) && r.start <= r.end <= |b| && ObjectLine(b[r.start..r.end]) &&
      ReadIdField(b[r.start..r.end]) == Some(id)
  }

  lemma FoundIsRecord(b: bytes, e: IdRange, scanned: map<nat, Range>)
    requires NamesRecordOf(b, e, scanned) && ScanFrom(b, 0, map[]) == Ok(scanned)
    ensures IsRecordOf(b, Range(e.start, e.end), scanned[e.id], e.id)
  {
    ScanFindsJson(b, 0, map[]);
    SameRecordIsObject(b, Range(e.start, e.end), scanned[e.id], e.id);
  }
}
