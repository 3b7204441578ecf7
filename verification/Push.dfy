/** A push: ask what is missing, upload it, commit, and once more if blobs went missing meanwhile. */
module Push {
  import opened Wrappers
  import opened BlobServer
  import opened PushUploads

  datatype HashedFile = HashedFile(relPath: string, path: string, size: nat, hash: string)

  datatype Outcome = Outcome(number: nat, totalFiles: nat, totalBytes: nat, uploadedCount: nat, uploadedBytes: nat)

  /** A stale parent is the caller's mistake; anything else is passed on. */
  datatype PushError = Stale(message: string) | Failed(error: ClientError)

  function Manifest(hashed: seq<HashedFile>): seq<FileEntry> {
    seq(|hashed|, i requires 0 <= i < |hashed| => FileEntry(hashed[i].relPath, hashed[i].hash, hashed[i].size))
  }

  function TotalBytes(hashed: seq<HashedFile>): nat {
    if hashed == [] then 0 else TotalBytes(hashed[..|hashed| - 1]) + hashed[|hashed| - 1].size
  }

  /** The manifest lists the scanned files in order, each with its path, hash and size. */
  lemma ManifestLists(hashed: seq<HashedFile>, i: nat)
    requires i < |hashed|
    ensures |Manifest(hashed)| == |hashed|
    ensures var e := Manifest(hashed)[i];
      e.path == hashed[i].relPath && e.hash == hashed[i].hash && e.size == hashed[i].size
  {
  }

  lemma {:induction false} BytesAdd(a: seq<HashedFile>, b: seq<HashedFile>)
    ensures TotalBytes(a + b) == TotalBytes(a) + TotalBytes(b)
    ensures forall f: HashedFile :: TotalBytes([f]) == f.size
  {
    forall f: HashedFile ensures TotalBytes([f]) == f.size { assert [f][..0] == []; }
    if b == [] {
      assert a + b == a;
    } else {
      BytesAdd(a, b[..|b| - 1]);
      assert (a + b)[..|a + b| - 1] == a + b[..|b| - 1];
    }
  }

  function ToUpload(h: HashedFile): BlobUpload { BlobUpload(h.hash, h.path, h.size, h.relPath) }

  /** The files whose hash is asked for, in order. */
  function SelectUploads(hashed: seq<HashedFile>, wanted: seq<string>): seq<BlobUpload> {
    if hashed == [] then []
    else
      var h := hashed[|hashed| - 1];
      SelectUploads(hashed[..|hashed| - 1], wanted) + if h.hash in wanted then [ToUpload(h)] else []
  }

  /** Nothing is selected that was not both scanned and asked for. */
  lemma {:induction false} SelectedIsWanted(hashed: seq<HashedFile>, wanted: seq<string>, k: nat)
    requires k < |SelectUploads(hashed, wanted)|
    ensures SelectUploads(hashed, wanted)[k].hash in wanted
    ensures exists i :: 0 <= i < |hashed| && ToUpload(hashed[i]) == SelectUploads(hashed, wanted)[k]
  {
    var front, h := hashed[..|hashed| - 1], hashed[|hashed| - 1];
    if k < |SelectUploads(front, wanted)| {
      SelectedIsWanted(front, wanted, k);
      var i :| 0 <= i < |front| && ToUpload(front[i]) == SelectUploads(front, wanted)[k];
      assert hashed[i] == front[i];
    } else {
      assert ToUpload(hashed[|hashed| - 1]) == SelectUploads(hashed, wanted)[k];
    }
  }

  /** Every scanned file that is asked for is selected. */
  lemma {:induction false} WantedIsSelected(hashed: seq<HashedFile>, wanted: seq<string>, i: nat) returns (k: nat)
    requires i < |hashed| && hashed[i].hash in wanted
    ensures k < |SelectUploads(hashed, wanted)| && SelectUploads(hashed, wanted)[k] == ToUpload(hashed[i])
  {
    if i == |hashed| - 1 {
      k := |SelectUploads(hashed, wanted)| - 1;
    } else {
      k := WantedIsSelected(hashed[..|hashed| - 1], wanted, i);
    }
  }

  /** The calls of one push, stage by stage. */
  datatype Trace = Trace(check: Call, first: seq<Call>, commit: Option<Call>, second: seq<Call>, recommit: Option<Call>)

  function Listed(c: Option<Call>): seq<Call> { if c.Some? then [c.value] else [] }

  function Flatten(t: Trace): seq<Call> { [t.check] + t.first + Listed(t.commit) + t.second + Listed(t.recommit) }

  /** A refusal that names blobs to upload again. */
  predicate AsksAgain(r: Result<nat, ClientError>) { r.Err? && r.error.Api? && r.error.error.code.MissingBlobs? }

  predicate IsStale(r: Result<nat, ClientError>) { r.Err? && r.error.Api? && r.error.error.code.StaleParent? }

  function Asked(r: Result<nat, ClientError>): seq<string>
    requires AsksAgain(r)
  {
    r.error.error.missing
  }

  ghost predicate IsCommit(c: Option<Call>, hashed: seq<HashedFile>, parent: Option<int>) {
    c.Some? && c.value.Commit? && c.value.files == Manifest(hashed) && c.value.parent == parent
  }

  /** A round of uploads that failed: the push ends with one of its failures. */
  ghost predicate EndsWith(w: seq<Call>, uploads: seq<BlobUpload>, out: Result<Outcome, PushError>)
    requires Round(w, uploads)
  {
    out.Err? && out.error.Failed? && Comes(Err(out.error.error), w, uploads)
  }

  /** The last commit decides: a number, or its refusal as it is. */
  ghost predicate Concludes(number: Result<nat, ClientError>, hashed: seq<HashedFile>, count: nat, bytes: nat,
                            out: Result<Outcome, PushError>) {
    match number
    case Ok(n) => out == Ok(Outcome(n, |hashed|, TotalBytes(hashed), count, bytes))
    case Err(e) => out == Err(Failed(e))
  }

  /** From the first commit on, with `ups` already uploaded. */
  ghost predicate Committed(commit: Option<Call>, second: seq<Call>, recommit: Option<Call>, hashed: seq<HashedFile>,
                            parent: Option<int>, ups: seq<BlobUpload>, out: Result<Outcome, PushError>) {
    IsCommit(commit, hashed, parent) &&
    var number := commit.value.number;
    if AsksAgain(number) then
      Retried(second, recommit, hashed, parent, Asked(number), |ups|, TotalSize(ups), out)
    else
      && second == [] && recommit.None?
      && if IsStale(number) then out == Err(Stale(number.error.error.message))
         else Concludes(number, hashed, |ups|, TotalSize(ups), out)
  }

  /** From the answer to the check on. */
  ghost predicate Shipped(first: seq<Call>, commit: Option<Call>, second: seq<Call>, recommit: Option<Call>,
                          hashed: seq<HashedFile>, parent: Option<int>, named: seq<string>,
                          out: Result<Outcome, PushError>) {
    var ups := SelectUploads(hashed, named);
    Round(first, ups) &&
    if AllAccepted(first, ups) then Committed(commit, second, recommit, hashed, parent, ups, out)
    else commit.None? && second == [] && recommit.None? && EndsWith(first, ups, out)
  }

  /** The calls and the outcome of a push. */
  ghost predicate Conforms(t: Trace, hashed: seq<HashedFile>, parent: Option<int>, out: Result<Outcome, PushError>) {
    t.check.Check? && t.check.files == Manifest(hashed) &&
    match t.check.reply
    case Err(e) => t == Trace(t.check, [], None, [], None) && out == Err(Failed(e))
    case Ok(named) => Shipped(t.first, t.commit, t.second, t.recommit, hashed, parent, named, out)
  }

  lemma Regroup(log: seq<Call>, a: seq<Call>, b: seq<Call>, c: seq<Call>, d: seq<Call>, e: seq<Call>)
    ensures log + a + (b + c + d + e) == log + (a + b + c + d + e)
    ensures a + [] + c + d + e == a + c + d + e && a + [] + [] + d + e == a + d + e
    ensures [] + c + d + e == c + d + e && [] + [] + d + e == d + e
  {
  }

  method ExecutePush(server: Server, hashed: seq<HashedFile>, parent: Option<int>)
    returns (out: Result<Outcome, PushError>, ghost t: Trace)
    requires server.Valid()
    modifies server
    ensures server.Valid() && server.calls == old(server.calls) + Flatten(t)
    ensures Conforms(t, hashed, parent, out)
  {
    var reply := server.CheckFiles(Manifest(hashed));
    t := Trace(Check(Manifest(hashed), reply), [], None, [], None);
    match reply
    case Err(e) =>
      out := Err(Failed(e));
    case Ok(named) =>
      ghost var first, commit, second, recommit;
      out, first, commit, second, recommit := Ship(server, hashed, parent, named);
      Regroup(old(server.calls), [t.check], first, Listed(commit), second, Listed(recommit));
      t := Trace(t.check, first, commit, second, recommit);
  }

  method Ship(server: Server, hashed: seq<HashedFile>, parent: Option<int>, named: seq<string>)
    returns (out: Result<Outcome, PushError>, ghost first: seq<Call>, ghost commit: Option<Call>,
             ghost second: seq<Call>, ghost recommit: Option<Call>)
    requires server.Valid()
    modifies server
    ensures server.Valid() && server.calls == old(server.calls) + (first + Listed(commit) + second + Listed(recommit))
    ensures Shipped(first, commit, second, recommit, hashed, parent, named, out)
  {
    var ups := SelectUploads(hashed, named);
    var sent;
    sent, first := UploadMissing(server, ups);
    match sent
    case Err(e) =>
      commit, second, recommit := None, [], None;
      out := Err(Failed(e));
    case Ok(bytes) =>
      out, commit, second, recommit := CommitWithRetry(server, hashed, parent, ups, bytes);
      Regroup(old(server.calls), first, [], Listed(commit), second, Listed(recommit));
  }

  method CommitWithRetry(server: Server, hashed: seq<HashedFile>, parent: Option<int>, ups: seq<BlobUpload>, bytes: nat)
    returns (out: Result<Outcome, PushError>, ghost commit: Option<Call>, ghost second: seq<Call>,
             ghost recommit: Option<Call>)
    requires server.Valid() && bytes == TotalSize(ups)
    modifies server
    ensures server.Valid() && server.calls == old(server.calls) + (Listed(commit) + second + Listed(recommit))
    ensures Committed(commit, second, recommit, hashed, parent, ups, out)
  {
    var files := Manifest(hashed);
    var number := server.CreateRevision(files, parent);
    commit, second, recommit := Some(Commit(files, parent, number)), [], None;
    if AsksAgain(number) {
      out, second, recommit := RetryCommit(server, hashed, parent, Asked(number), |ups|, bytes);
      Regroup(old(server.calls), Listed(commit), [], [], second, Listed(recommit));
    } else if IsStale(number) {
      out := Err(Stale(number.error.error.message));
    } else {
      out := Conclude(number, hashed, |ups|, bytes);
    }
  }

  /** Once more: the blobs asked for, then the same commit. */
  ghost predicate Retried(second: seq<Call>, recommit: Option<Call>, hashed: seq<HashedFile>, parent: Option<int>,
                          asked: seq<string>, count: nat, bytes: nat, out: Result<Outcome, PushError>) {
    var again := SelectUploads(hashed, asked);
    Round(second, again) &&
    if AllAccepted(second, again) then
      && IsCommit(recommit, hashed, parent)
      && Concludes(recommit.value.number, hashed, count + |again|, bytes + TotalSize(again), out)
    else recommit.None? && EndsWith(second, again, out)
  }

  method RetryCommit(server: Server, hashed: seq<HashedFile>, parent: Option<int>, asked: seq<string>, count: nat,
                     bytes: nat)
    returns (out: Result<Outcome, PushError>, ghost second: seq<Call>, ghost recommit: Option<Call>)
    requires server.Valid()
    modifies server
    ensures server.Valid() && server.calls == old(server.calls) + (second + Listed(recommit))
    ensures Retried(second, recommit, hashed, parent, asked, count, bytes, out)
  {
    var again := SelectUploads(hashed, asked);
    var sent;
    sent, second := UploadMissing(server, again);
    ghost var log := server.calls;
    match sent
    case Err(e) =>
      NoMore(second);
      recommit := None;
      out := Err(Failed(e));
    case Ok(more) =>
      ghost var c;
      out, c := LastCommit(server, hashed, parent, count + |again|, bytes + more);
      OneMore(old(server.calls), second, c, log);
      recommit := Some(c);
  }

  method LastCommit(server: Server, hashed: seq<HashedFile>, parent: Option<int>, count: nat, bytes: nat)
    returns (out: Result<Outcome, PushError>, ghost c: Call)
    requires server.Valid()
    modifies server
    ensures server.Valid() && server.calls == old(server.calls) + [c]
    ensures IsCommit(Some(c), hashed, parent) && Concludes(c.number, hashed, count, bytes, out)
  {
    var number := server.CreateRevision(Manifest(hashed), parent);
    c := Commit(Manifest(hashed), parent, number);
    out := Conclude(number, hashed, count, bytes);
  }

  lemma NoMore(w: seq<Call>)
    ensures w + Listed(None) == w
  {
  }

  lemma OneMore(log: seq<Call>, w: seq<Call>, c: Call, longer: seq<Call>)
    requires longer == log + w
    ensures longer + [c] == log + (w + Listed(Some(c)))
  {
  }

  function Conclude(number: Result<nat, ClientError>, hashed: seq<HashedFile>, count: nat, bytes: nat)
    : (out: Result<Outcome, PushError>)
    ensures Concludes(number, hashed, count, bytes, out)
  {
    match number
    case Ok(n) => Ok(Outcome(n, |hashed|, TotalBytes(hashed), count, bytes))
    case Err(e) => Err(Failed(e))
  }
}
