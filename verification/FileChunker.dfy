/** Splitting a file into fixed-size chunks with two passes of short reads, and the browser's
    concatenation that undoes it. The digest is a given function. */
module FileChunker {
  import opened Bytes

  const CHUNK_SIZE: nat := 10_485_760
  const BUF_SIZE: nat := 1_048_576

  /** An open file: its bytes and the read position. */
  class File {
    const content: bytes
    var pos: nat

    constructor (content: bytes)
      ensures this.content == content && pos == 0
    {
      this.content := content;
      pos := 0;
    }

    ghost predicate Valid()
      reads this
    {
      pos <= |content|
    }

    /** A read of at most `max` bytes may return fewer; it returns none only at the end. */
    method Read(max: nat) returns (buf: bytes)
      requires Valid() && max > 0
      modifies this
      ensures Valid() && old(pos) <= pos && buf == content[old(pos)..pos] && |buf| <= max
      ensures buf == [] <==> old(pos) == |content|
    {
      buf := [];
      if pos < |content| {
        var n: nat :| 1 <= n <= max && pos + n <= |content|;
        buf := content[pos..pos + n];
        pos := pos + n;
      }
    }
  }

  /** What a pass reads of a chunk: `target` bytes, or what the file still has. */
  method ReadUpTo(file: File, target: nat) returns (chunk: bytes)
    requires file.Valid() && file.pos + target <= |file.content|
    modifies file
    ensures file.Valid() && file.pos == old(file.pos) + target
    ensures chunk == file.content[old(file.pos)..file.pos]
  {
    chunk := [];
    var readTotal := 0;
    while readTotal < target
      invariant readTotal == |chunk| <= target && file.Valid() && file.pos == old(file.pos) + readTotal
      invariant chunk == file.content[old(file.pos)..file.pos]
    {
      var toRead := if target - readTotal < BUF_SIZE then target - readTotal else BUF_SIZE;
      var buf := file.Read(toRead);
      if buf == [] { break; }
      chunk := chunk + buf;
      readTotal := readTotal + |buf|;
    }
  }

  /** `size.div_ceil(CHUNK_SIZE)`, and one empty part for an empty file. */
  function TotalParts(size: nat): (n: nat)
    ensures n >= 1
    ensures (n - 1) * CHUNK_SIZE <= size <= n * CHUNK_SIZE
    ensures size > 0 ==> (n - 1) * CHUNK_SIZE < size
  {
    if size == 0 then 1 else (size + CHUNK_SIZE - 1) / CHUNK_SIZE
  }

  function PartSize(size: nat, ix: nat): nat
    requires ix < TotalParts(size)
  {
    if ix + 1 == TotalParts(size) then size - ix * CHUNK_SIZE else CHUNK_SIZE
  }

  datatype Staged = Staged(size: nat, wholeSha: string, chunks: seq<Chunk>)
  datatype Chunk = Chunk(bytes: bytes, size: nat, sha: string)

  function Payloads(chunks: seq<Chunk>): seq<bytes> {
    seq(|chunks|, i requires 0 <= i < |chunks| => chunks[i].bytes)
  }

  lemma PayloadsSnoc(chunks: seq<Chunk>, c: Chunk)
    ensures Payloads(chunks + [c]) == Payloads(chunks) + [c.bytes]
  {
  }

  lemma AppendPayload(chunks: seq<Chunk>, c: Chunk, content: bytes, from: nat, end: nat)
    requires from <= end <= |content| && Concat(Payloads(chunks)) == content[..from] && c.bytes == content[from..end]
    ensures Concat(Payloads(chunks + [c])) == content[..end]
  {
    PayloadsSnoc(chunks, c);
    assert content[..from] + content[from..end] == content[..end];
  }

  /** The first pass: sizes and digests of the parts, and the bytes fed to the whole-file digest. */
  method MeasureParts(file: File, sha: bytes -> string) returns (sizes: seq<nat>, shas: seq<string>, hashed: bytes)
    requires file.Valid() && file.pos == 0
    modifies file
    ensures file.Valid()
    ensures hashed == file.content && |sizes| == |shas| == TotalParts(|file.content|)
    ensures forall i :: 0 <= i < |sizes| ==> sizes[i] == PartSize(|file.content|, i)
    ensures forall i :: 0 <= i < |sizes| ==>
      i * CHUNK_SIZE + sizes[i] <= |file.content| &&
        shas[i] == sha(file.content[i * CHUNK_SIZE..i * CHUNK_SIZE + sizes[i]])
  {
    var size := |file.content|;
    var totalParts := TotalParts(size);
    sizes, shas, hashed := [], [], [];
    for ix := 0 to totalParts
      invariant file.Valid() && |sizes| == |shas| == ix
      invariant file.pos == (if ix < totalParts then ix * CHUNK_SIZE else size)
      invariant hashed == file.content[..file.pos]
      invariant forall i :: 0 <= i < ix ==> sizes[i] == PartSize(size, i) && i * CHUNK_SIZE + sizes[i] <= size
      invariant forall i :: 0 <= i < ix ==> shas[i] == sha(file.content[i * CHUNK_SIZE..i * CHUNK_SIZE + sizes[i]])
    {
      var target := if ix + 1 == totalParts then size - ix * CHUNK_SIZE else CHUNK_SIZE;
      var part := ReadUpTo(file, target);
      hashed := hashed + part;
      sizes, shas := sizes + [|part|], shas + [sha(part)];
    }
  }

  /** `split_one`: for every file and every pattern of short reads, the chunks put together are the
      file, all but the last have the full size and none is larger, the recorded sizes and digests
      are those of the bytes written, and an empty file gives one empty chunk. */
  method SplitOne(content: bytes, sha: bytes -> string) returns (staged: Staged)
    ensures Concat(Payloads(staged.chunks)) == content
    ensures staged.size == |content| && staged.wholeSha == sha(content)
    ensures |staged.chunks| == TotalParts(|content|)
    ensures forall i :: 0 <= i < |staged.chunks| ==>
      var c := staged.chunks[i];
      && c.size == |c.bytes| == PartSize(|content|, i) <= CHUNK_SIZE && c.sha == sha(c.bytes)
      && (i + 1 < |staged.chunks| ==> c.size == CHUNK_SIZE)
  {
    var file := new File(content);
    var sizes, shas, hashed := MeasureParts(file, sha);
    file.pos := 0;
    var chunks: seq<Chunk> := [];
    for ix := 0 to |sizes|
      invariant file.Valid() && file.content == content && |chunks| == ix
      invariant file.pos == (if ix < |sizes| then ix * CHUNK_SIZE else |content|)
      invariant Concat(Payloads(chunks)) == content[..file.pos]
      invariant forall i :: 0 <= i < ix ==>
        chunks[i].size == |chunks[i].bytes| == PartSize(|content|, i) && chunks[i].sha == sha(chunks[i].bytes)
    {
      ghost var before := file.pos;
      var written := ReadUpTo(file, sizes[ix]);
      AppendPayload(chunks, Chunk(written, sizes[ix], shas[ix]), content, before, file.pos);
      chunks := chunks + [Chunk(written, sizes[ix], shas[ix])];
    }
    staged := Staged(|content|, sha(hashed), chunks);
  }

  /** The browser's side: the fetched chunks, one after the other. */
  method FetchMathFile(chunks: seq<Chunk>) returns (out: bytes)
    ensures out == Concat(Payloads(chunks))
  {
    out := [];
    for i := 0 to |chunks|
      invariant out == Concat(Payloads(chunks[..i]))
    {
      assert chunks[..i + 1] == chunks[..i] + [chunks[i]];
      PayloadsSnoc(chunks[..i], chunks[i]);
      out := out + chunks[i].bytes;
    }
    assert chunks[..|chunks|] == chunks;
  }

  /** Publishing a file and fetching it in the browser is the identity. */
  method SplitThenFetch(content: bytes, sha: bytes -> string) returns (out: bytes)
    ensures out == content
  {
    var staged := SplitOne(content, sha);
    out := FetchMathFile(staged.chunks);
  }
}
