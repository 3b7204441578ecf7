/** The sidecar of a books index: a sorted run of fixed-size little-endian records, reopened
    without parsing and searched in place. */
module Sidecar {
  import opened Bytes
  import opened Wrappers
  import opened BuildIndex

  /** `SDTBIDX1` */
  const IDX_MAGIC: bytes := [83, 68, 84, 66, 73, 68, 88, 49]
  const IDX_HEADER: nat := 24
  const IDX_RECORD: nat := 20

  const U64_RANGE: nat := 0x1_0000_0000_0000_0000

  // --- Little-endian numbers ------------------------------------------------------------

  function Pow256(k: nat): (r: nat)
    ensures r > 0
  {
    if k == 0 then 1 else 256 * Pow256(k - 1)
  }

  /** `to_le_bytes` on `k` bytes. */
  function ToLe(n: nat, k: nat): (r: bytes)
    ensures |r| == k
  {
    if k == 0 then [] else [(n % 256) as byte] + ToLe(n / 256, k - 1)
  }

  function FromLe(s: bytes): nat {
    if s == [] then 0 else s[0] as nat + 256 * FromLe(s[1..])
  }

  lemma {:induction false} LeRoundTrip(n: nat, k: nat)
    requires n < Pow256(k)
    ensures FromLe(ToLe(n, k)) == n
  {
    if k > 0 {
      var s := ToLe(n, k);
      assert s[1..] == ToLe(n / 256, k - 1);
      LeRoundTrip(n / 256, k - 1);
    }
  }

  /** The other direction: every byte string is the encoding of the number it decodes to. */
  lemma {:induction false} LeOnto(s: bytes)
    ensures ToLe(FromLe(s), |s|) == s
  {
    if s != [] {
      LeOnto(s[1..]);
      LowDigit(s[0], FromLe(s[1..]));
      assert s == [s[0]] + s[1..];
    }
  }

  lemma LowDigit(d: byte, rest: nat)
    ensures (d as nat + 256 * rest) % 256 == d as nat && (d as nat + 256 * rest) / 256 == rest
  {
  }

  /** Low byte first: a number of 32 bits and one of 64. */
  lemma LowByteFirst(s: bytes)
    ensures |s| == 4 ==>
      FromLe(s) == s[0] as nat + 0x100 * s[1] as nat + 0x1_0000 * s[2] as nat + 0x100_0000 * s[3] as nat
    ensures |s| == 8 ==> FromLe(s) == FromLe(s[..4]) + 0x1_0000_0000 * FromLe(s[4..])
  {
    if |s| == 4 {
      FourBytes(s);
    } else if |s| == 8 {
      FourBytesThen(s);
    }
  }

  lemma FourBytes(s: bytes)
    requires |s| == 4
    ensures FromLe(s) == s[0] as nat + 256 * (s[1] as nat + 256 * (s[2] as nat + 256 * s[3] as nat))
  {
    FirstByte(s);
    FirstByte(s[1..]);
    FirstByte(s[1..][1..]);
    FirstByte(s[1..][1..][1..]);
  }

  lemma FourBytesThen(s: bytes)
    requires |s| == 8
    ensures FromLe(s) == FromLe(s[..4]) + 0x1_0000_0000 * FromLe(s[4..])
  {
    FourBytes(s[..4]);
    FirstByte(s);
    FirstByte(s[1..]);
    FirstByte(s[1..][1..]);
    FirstByte(s[1..][1..][1..]);
    assert s[1..][1..][1..][1..] == s[4..];
  }

  lemma FirstByte(s: bytes)
    requires s != []
    ensures FromLe(s) == s[0] as nat + 256 * FromLe(s[1..])
  {
  }

  // --- The file -----------------------------------------------------------------------------

  function RecordBytes(e: IdRange): (r: bytes)
    ensures |r| == IDX_RECORD
  {
    ToLe(e.id, 4) + ToLe(e.start, 8) + ToLe(e.end, 8)
  }

  function RecordAt(bs: bytes): IdRange
    requires |bs| == IDX_RECORD
  {
    IdRange(FromLe(bs[0..4]), FromLe(bs[4..12]), FromLe(bs[12..20]))
  }

  function Records(entries: seq<IdRange>): (r: bytes)
    ensures |r| == IDX_RECORD * |entries|
  {
    if entries == [] then [] else Records(entries[..|entries| - 1]) + RecordBytes(entries[|entries| - 1])
  }

  function Header(bufferLen: nat, count: nat): (r: bytes)
    ensures |r| == IDX_HEADER
  {
    IDX_MAGIC + ToLe(bufferLen, 8) + ToLe(count, 8)
  }

  function IndexFile(bufferLen: nat, entries: seq<IdRange>): (r: bytes)
    ensures |r| == IDX_HEADER + IDX_RECORD * |entries|
  {
    Header(bufferLen, |entries|) + Records(entries)
  }

  method WriteIndex(bufferLen: nat, entries: seq<IdRange>) returns (file: bytes)
    ensures file == IndexFile(bufferLen, entries)
  {
    file := IDX_MAGIC;
    file := file + ToLe(bufferLen, 8);
    file := file + ToLe(|entries|, 8);
    for i := 0 to |entries|
      invariant file == Header(bufferLen, |entries|) + Records(entries[..i])
    {
      assert entries[..i + 1][..i] == entries[..i];
      file := file + RecordBytes(entries[i]);
    }
    assert entries[..|entries|] == entries;
  }

  // --- The index ------------------------------------------------------------------------------

  datatype IdIndex = Owned(entries: seq<IdRange>) | Mapped(file: bytes, count: nat) {

    function Len(): nat {
      match this
      case Owned(es) => |es|
      case Mapped(_, n) => n
    }

    /** Every record lies inside the mapped file. */
    predicate Valid() { Mapped? ==> |file| == IDX_HEADER + IDX_RECORD * count }

    function Record(i: nat): IdRange
      requires Valid() && i < Len()
    {
      match this
      case Owned(es) => es[i]
      case Mapped(f, n) =>
        var at := IDX_HEADER + i * IDX_RECORD;
        RecordAt(f[at..at + IDX_RECORD])
    }

    ghost predicate Sorted()
      requires Valid()
    {
      forall i, j :: 0 <= i < j < Len() ==> Record(i).id < Record(j).id
    }

    /** Binary search. */
    method Get(id: nat) returns (r: Option<(nat, nat)>)
      requires Valid() && Sorted()
      ensures r.Some? <==> exists i :: 0 <= i < Len() && Record(i).id == id
      ensures forall i :: 0 <= i < Len() && Record(i).id == id ==> r == Some((Record(i).start, Record(i).end))
    {
      var lo, hi := 0, Len();
      while lo < hi
        invariant 0 <= lo <= hi <= Len()
        invariant forall i :: 0 <= i < lo ==> Record(i).id < id
        invariant forall i :: hi <= i < Len() ==> id < Record(i).id
      {
        var mid := lo + (hi - lo) / 2;
        var entry := Record(mid);
        if entry.id < id {
          lo := mid + 1;
        } else if entry.id > id {
          hi := mid;
        } else {
          return Some((entry.start, entry.end));
        }
      }
      r := None;
    }
  }

  /** `open_mmap`: a missing or empty file is absent. */
  function OpenMmap(file: Option<bytes>): Option<bytes> {
    if file.Some? && file.value == [] then None else file
  }

  /** The sidecar, but only when it indexes a buffer of exactly `bufferLen` bytes. The length
      check is in 64-bit arithmetic, as in a release build. */
  function Open(file: Option<bytes>, bufferLen: nat): Option<IdIndex> {
    var m := OpenMmap(file);
    if m.None? then None
    else
      var f := m.value;
      if |f| < IDX_HEADER || f[0..8] != IDX_MAGIC then None
      else if FromLe(f[8..16]) != bufferLen then None
      else
        var count := FromLe(f[16..24]);
        if |f| != (IDX_HEADER + count * IDX_RECORD) % U64_RANGE then None
        else Some(Mapped(f, count))
  }

  /** What fits the record fields, and a file shorter than 2^64 bytes. */
  predicate Writable(bufferLen: nat, entries: seq<IdRange>) {
    && bufferLen < U64_RANGE && IDX_HEADER + IDX_RECORD * |entries| < U64_RANGE
    && forall i :: 0 <= i < |entries| ==>
         entries[i].id < U32_RANGE && entries[i].start < U64_RANGE && entries[i].end < U64_RANGE
  }

  // --- Round trip -------------------------------------------------------------------------------

  lemma RecordRoundTrip(e: IdRange)
    requires e.id < U32_RANGE && e.start < U64_RANGE && e.end < U64_RANGE
    ensures RecordAt(RecordBytes(e)) == e
  {
    LeRoundTrip(e.id, 4);
    LeRoundTrip(e.start, 8);
    LeRoundTrip(e.end, 8);
    var a, b, c := ToLe(e.id, 4), ToLe(e.start, 8), ToLe(e.end, 8);
    var r := RecordBytes(e);
    assert r[0..4] == a && r[4..12] == b && r[12..20] == c;
  }

  lemma {:induction false} RecordSlice(entries: seq<IdRange>, i: nat)
    requires i < |entries|
    ensures IDX_RECORD * i + IDX_RECORD <= |Records(entries)|
    ensures Records(entries)[IDX_RECORD * i..IDX_RECORD * i + IDX_RECORD] == RecordBytes(entries[i])
  {
    var front := entries[..|entries| - 1];
    if i == |front| {
      assert Records(entries)[IDX_RECORD * i..] == RecordBytes(entries[i]);
    } else {
      RecordSlice(front, i);
      assert front[i] == entries[i];
    }
  }

  lemma FileFields(bufferLen: nat, entries: seq<IdRange>)
    ensures var f := IndexFile(bufferLen, entries);
      f[0..8] == IDX_MAGIC && f[8..16] == ToLe(bufferLen, 8) && f[16..24] == ToLe(|entries|, 8)
  {
    var f, h := IndexFile(bufferLen, entries), Header(bufferLen, |entries|);
    assert f[..24] == h;
    assert f[0..8] == h[0..8] && f[8..16] == h[8..16] && f[16..24] == h[16..24];
    assert h[0..8] == IDX_MAGIC && h[8..16] == ToLe(bufferLen, 8) && h[16..24] == ToLe(|entries|, 8);
  }

  lemma FileNumbers(bufferLen: nat, entries: seq<IdRange>)
    requires Writable(bufferLen, entries)
    ensures var f := IndexFile(bufferLen, entries);
      f[0..8] == IDX_MAGIC && FromLe(f[8..16]) == bufferLen && FromLe(f[16..24]) == |entries|
  {
    FileFields(bufferLen, entries);
    LeRoundTrip(bufferLen, 8);
    LeRoundTrip(|entries|, 8);
  }

  lemma RecordInFile(bufferLen: nat, entries: seq<IdRange>, i: nat)
    requires Writable(bufferLen, entries) && i < |entries|
    ensures Mapped(IndexFile(bufferLen, entries), |entries|).Record(i) == entries[i]
  {
    var f, at := IndexFile(bufferLen, entries), IDX_HEADER + i * IDX_RECORD;
    RecordSlice(entries, i);
    assert f[IDX_HEADER..] == Records(entries);
    assert f[at..at + IDX_RECORD] == f[IDX_HEADER..][IDX_RECORD * i..IDX_RECORD * i + IDX_RECORD];
    RecordRoundTrip(entries[i]);
  }

  lemma OpensWhen(f: bytes, bufferLen: nat, count: nat)
    requires |f| == IDX_HEADER + IDX_RECORD * count < U64_RANGE
    requires f[0..8] == IDX_MAGIC && FromLe(f[8..16]) == bufferLen && FromLe(f[16..24]) == count
    ensures Open(Some(f), bufferLen) == Some(Mapped(f, count))
  {
  }

  lemma OpensMapped(bufferLen: nat, entries: seq<IdRange>)
    requires Writable(bufferLen, entries)
    ensures Open(Some(IndexFile(bufferLen, entries)), bufferLen)
      == Some(Mapped(IndexFile(bufferLen, entries), |entries|))
  {
    FileNumbers(bufferLen, entries);
    OpensWhen(IndexFile(bufferLen, entries), bufferLen, |entries|);
  }

  /** Opening what was written gives the same records, so the mapped and the owned form of one
      table have the same `Len`, the same `Record`s and the same lookups. */
  lemma OpenWritten(bufferLen: nat, entries: seq<IdRange>)
    requires Writable(bufferLen, entries)
    ensures var r := Open(Some(IndexFile(bufferLen, entries)), bufferLen);
      && r.Some? && r.value.Valid() && r.value.Len() == Owned(entries).Len()
      && forall i :: 0 <= i < |entries| ==> r.value.Record(i) == Owned(entries).Record(i)
  {
    OpensMapped(bufferLen, entries);
    forall i | 0 <= i < |entries|
      ensures Mapped(IndexFile(bufferLen, entries), |entries|).Record(i) == entries[i]
    {
      RecordInFile(bufferLen, entries, i);
    }
  }

  /** The sidecar of a buffer of another length reads as absent. */
  lemma OpenForOtherBuffer(bufferLen: nat, entries: seq<IdRange>, other: nat)
    requires Writable(bufferLen, entries) && other != bufferLen
    ensures Open(Some(IndexFile(bufferLen, entries)), other) == None
  {
    FileNumbers(bufferLen, entries);
  }

  /** A sidecar cut anywhere reads as absent. */
  lemma OpenTruncated(bufferLen: nat, entries: seq<IdRange>, k: nat, other: nat)
    requires Writable(bufferLen, entries) && k < |IndexFile(bufferLen, entries)|
    ensures Open(Some(IndexFile(bufferLen, entries)[..k]), other) == None
  {
    FileNumbers(bufferLen, entries);
    CutIsAbsent(IndexFile(bufferLen, entries), |entries|, k, other);
  }

  lemma CutIsAbsent(f: bytes, count: nat, k: nat, other: nat)
    requires k < |f| == IDX_HEADER + IDX_RECORD * count < U64_RANGE && FromLe(f[16..24]) == count
    ensures Open(Some(f[..k]), other) == None
  {
    if k >= IDX_HEADER {
      assert f[..k][16..24] == f[16..24];
    }
  }

  // --- Other files ---------------------------------------------------------------------------------

  /** Of the files shorter than 2^64 bytes that open, exactly those have all their records whose header
      holds a count that does not wrap. */
  lemma OpenedIsValidExactlyWhen(file: bytes, bufferLen: nat)
    requires |file| < U64_RANGE && Open(Some(file), bufferLen).Some?
    ensures var index := Open(Some(file), bufferLen).value;
      |file| >= IDX_HEADER && (index.Valid() <==> IDX_HEADER + IDX_RECORD * FromLe(file[16..24]) < U64_RANGE)
  {
  }

  /** A header alone, with the count 2^62, opens although it has no record. */
  lemma WrappedCountOpens(bufferLen: nat)
    requires bufferLen < U64_RANGE
    ensures var file := Header(bufferLen, 0x4000_0000_0000_0000);
      && Open(Some(file), bufferLen) == Some(Mapped(file, 0x4000_0000_0000_0000))
      && !Mapped(file, 0x4000_0000_0000_0000).Valid()
  {
    var count := 0x4000_0000_0000_0000;
    var h := Header(bufferLen, count);
    assert h[0..8] == IDX_MAGIC && h[8..16] == ToLe(bufferLen, 8) && h[16..24] == ToLe(count, 8);
    LeRoundTrip(bufferLen, 8);
    LeRoundTrip(count, 8);
  }

  lemma BytesOfRecord(bs: bytes)
    requires |bs| == IDX_RECORD
    ensures RecordBytes(RecordAt(bs)) == bs
  {
    LeOnto(bs[0..4]);
    LeOnto(bs[4..12]);
    LeOnto(bs[12..20]);
    var e := RecordAt(bs);
    assert ToLe(e.id, 4) == bs[0..4] && ToLe(e.start, 8) == bs[4..12] && ToLe(e.end, 8) == bs[12..20];
    ThreeFields(bs);
  }

  lemma ThreeFields(bs: bytes)
    requires |bs| == IDX_RECORD
    ensures bs == bs[0..4] + bs[4..12] + bs[12..20]
  {
  }

  /** The records of an index. */
  function Entries(index: IdIndex): (r: seq<IdRange>)
    requires index.Valid()
    ensures |r| == index.Len()
  {
    seq(index.Len(), i requires 0 <= i < index.Len() => index.Record(i))
  }

  lemma SliceGrows(f: bytes, i: nat, j: nat, k: nat)
    requires i <= j <= k <= |f|
    ensures f[i..j] + f[j..k] == f[i..k]
  {
  }

  lemma RecordsSnoc(entries: seq<IdRange>, k: nat)
    requires k < |entries|
    ensures Records(entries[..k + 1]) == Records(entries[..k]) + RecordBytes(entries[k])
  {
    assert entries[..k + 1][..k] == entries[..k];
  }

  lemma {:induction false} RecordsInFile(index: IdIndex, k: nat)
    requires index.Mapped? && index.Valid() && k <= index.count
    ensures IDX_HEADER + IDX_RECORD * k <= |index.file|
    ensures Records(Entries(index)[..k]) == index.file[IDX_HEADER..IDX_HEADER + IDX_RECORD * k]
  {
    if k > 0 {
      var f, at := index.file, IDX_HEADER + (k - 1) * IDX_RECORD;
      RecordsInFile(index, k - 1);
      RecordsSnoc(Entries(index), k - 1);
      BytesOfRecord(f[at..at + IDX_RECORD]);
      SliceGrows(f, IDX_HEADER, at, at + IDX_RECORD);
    }
  }

  lemma PartsMakeFile(f: bytes, bufferLen: nat, entries: seq<IdRange>)
    requires |f| >= IDX_HEADER && f[0..8] == IDX_MAGIC && f[8..16] == ToLe(bufferLen, 8)
    requires f[16..24] == ToLe(|entries|, 8) && f[24..] == Records(entries)
    ensures f == IndexFile(bufferLen, entries)
  {
    FourParts(f);
    assert Header(bufferLen, |entries|) == f[0..8] + f[8..16] + f[16..24];
  }

  lemma FourParts(f: bytes)
    requires |f| >= IDX_HEADER
    ensures f == f[0..8] + f[8..16] + f[16..24] + f[24..]
  {
  }

  /** A file that opens with all its records is the one that writing those records gives: the sidecar
      holds nothing else. */
  lemma OpenedIsWritten(file: bytes, bufferLen: nat)
    requires Open(Some(file), bufferLen).Some? && Open(Some(file), bufferLen).value.Valid()
    ensures file == IndexFile(bufferLen, Entries(Open(Some(file), bufferLen).value))
  {
    var index := Open(Some(file), bufferLen).value;
    LeOnto(file[8..16]);
    LeOnto(file[16..24]);
    RecordsInFile(index, index.count);
    assert Entries(index)[..index.count] == Entries(index);
    PartsMakeFile(file, bufferLen, Entries(index));
  }

  /** `persist`: the mapped file when it can be written and mapped back, the entries otherwise.
      Either way the index is searched with the same answers. */
  method Persist(bufferLen: nat, entries: seq<IdRange>, writable: bool) returns (index: IdIndex, file: Option<bytes>)
    requires Writable(bufferLen, entries) && SortedById(entries)
    ensures index.Valid() && index.Sorted() && index.Len() == |entries|
    ensures forall i :: 0 <= i < |entries| ==> index.Record(i) == entries[i]
    ensures file == if writable then Some(IndexFile(bufferLen, entries)) else None
  {
    index, file := Owned(entries), None;
    if writable {
      var written := WriteIndex(bufferLen, entries);
      OpenWritten(bufferLen, entries);
      index, file := Open(Some(written), bufferLen).value, Some(written);
    }
  }
}
