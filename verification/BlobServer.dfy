/** The server a push talks to: the workspace's blobs, and a log of the calls it answered. */
module BlobServer {
  import opened Wrappers

  datatype FileEntry = FileEntry(path: string, hash: string, size: nat)

  datatype Code = MissingBlobs | StaleParent | OtherCode(text: string)

  datatype ApiError = ApiError(status: nat, code: Code, message: string, missing: seq<string>)

  datatype ClientError = Api(error: ApiError) | Transport(text: string) | Other(text: string)

  predicate Retryable(e: ClientError) {
    match e
    case Transport(_) => true
    case Api(a) => a.status >= 500 || a.status == 429
    case Other(_) => false
  }

  /** A call and its answer. `entry` is the place of an upload in its batch. */
  datatype Call =
    | Check(files: seq<FileEntry>, reply: Result<seq<string>, ClientError>)
    | Upload(entry: nat, hash: string, failure: Option<ClientError>)
    | Commit(files: seq<FileEntry>, parent: Option<int>, number: Result<nat, ClientError>)

  /** What happens around the `k`-th call: the blobs that vanish just before it, whether it is refused
      outright, whether it fails after the blobs were looked at or stored (a quota, a stale parent, a
      lost answer), and the number a revision gets. */
  datatype World = World(vanish: nat -> set<string>, refuse: nat -> Option<ClientError>,
                         fail: nat -> Option<ClientError>, number: nat -> nat)

  function Hashes(files: seq<FileEntry>): set<string> { set i | 0 <= i < |files| :: files[i].hash }

  /** The hashes of the manifest that are not among the blobs, each once. */
  function Missing(files: seq<FileEntry>, blobs: set<string>): seq<string> {
    if files == [] then []
    else
      var m, h := Missing(files[..|files| - 1], blobs), files[|files| - 1].hash;
      if h in blobs || h in m then m else m + [h]
  }

  lemma {:induction false} MissingIs(files: seq<FileEntry>, blobs: set<string>, h: string)
    ensures h in Missing(files, blobs) <==> h in Hashes(files) && h !in blobs
  {
    if files != [] {
      var front := files[..|files| - 1];
      MissingIs(front, blobs, h);
      assert h in Hashes(files) <==> h in Hashes(front) || h == files[|files| - 1].hash by {
        assert forall i :: 0 <= i < |front| ==> front[i] == files[i];
      }
    }
  }

  /** `m` names each hash of `hs` once, and nothing else. */
  ghost predicate NamesOnce(m: seq<string>, hs: set<string>) {
    Distinct(m) && forall h :: h in m <==> h in hs
  }

  lemma MissingOnce(files: seq<FileEntry>, blobs: set<string>)
    ensures NamesOnce(Missing(files, blobs), Hashes(files) - blobs)
  {
    forall h ensures h in Missing(files, blobs) <==> h in Hashes(files) - blobs {
      MissingIs(files, blobs, h);
    }
    MissingDistinct(files, blobs);
  }

  lemma NoneMissing(files: seq<FileEntry>, blobs: set<string>)
    ensures Missing(files, blobs) == [] <==> Hashes(files) <= blobs
  {
    MissingOnce(files, blobs);
    if Missing(files, blobs) != [] { assert Missing(files, blobs)[0] in Hashes(files) - blobs; }
  }

  ghost predicate Distinct(m: seq<string>) { forall i, j :: 0 <= i < j < |m| ==> m[i] != m[j] }

  lemma DistinctSnoc(m: seq<string>, h: string)
    requires Distinct(m) && h !in m
    ensures Distinct(m + [h])
  {
    var r := m + [h];
    forall i, j | 0 <= i < j < |r| ensures r[i] != r[j] {
      if j == |m| { assert r[i] in m; }
    }
  }

  lemma {:induction false} MissingDistinct(files: seq<FileEntry>, blobs: set<string>)
    ensures Distinct(Missing(files, blobs))
  {
    if files != [] {
      var m, h := Missing(files[..|files| - 1], blobs), files[|files| - 1].hash;
      MissingDistinct(files[..|files| - 1], blobs);
      if h !in m { DistinctSnoc(m, h); }
    }
  }

  function CheckReply(w: World, k: nat, files: seq<FileEntry>, blobs: set<string>): Result<seq<string>, ClientError> {
    if w.refuse(k).Some? then Err(w.refuse(k).value)
    else if w.fail(k).Some? then Err(w.fail(k).value)
    else Ok(Missing(files, blobs - w.vanish(k)))
  }

  function UploadFailure(w: World, k: nat): Option<ClientError> {
    if w.refuse(k).Some? then w.refuse(k) else w.fail(k)
  }

  /** A revision is made only when every blob of its manifest is there. */
  function CommitReply(w: World, k: nat, files: seq<FileEntry>, blobs: set<string>): Result<nat, ClientError> {
    var missing := Missing(files, blobs - w.vanish(k));
    if w.refuse(k).Some? then Err(w.refuse(k).value)
    else if missing != [] then Err(Api(ApiError(409, MissingBlobs, "", missing)))
    else if w.fail(k).Some? then Err(w.fail(k).value)
    else Ok(w.number(k))
  }

  /** The blobs after call `k`. */
  function After(w: World, k: nat, blobs: set<string>, call: Call): set<string> {
    if call.Upload? && w.refuse(k).None? then blobs - w.vanish(k) + {call.hash} else blobs - w.vanish(k)
  }

  function Replay(w: World, initial: set<string>, calls: seq<Call>): set<string> {
    if calls == [] then initial
    else After(w, |calls| - 1, Replay(w, initial, calls[..|calls| - 1]), calls[|calls| - 1])
  }

  /** The answer to call `k` is the one the world and the blobs of that moment give. */
  ghost predicate Answered(w: World, k: nat, blobs: set<string>, call: Call) {
    match call
    case Check(files, reply) => reply == CheckReply(w, k, files, blobs)
    case Upload(_, _, failure) => failure == UploadFailure(w, k)
    case Commit(files, _, number) => number == CommitReply(w, k, files, blobs)
  }

  /** A log the server can have produced. */
  ghost predicate Genuine(w: World, initial: set<string>, calls: seq<Call>) {
    forall k :: 0 <= k < |calls| ==> Answered(w, k, Replay(w, initial, calls[..k]), calls[k])
  }

  lemma GenuineSnoc(w: World, initial: set<string>, calls: seq<Call>, call: Call)
    requires Genuine(w, initial, calls) && Answered(w, |calls|, Replay(w, initial, calls), call)
    ensures Genuine(w, initial, calls + [call])
    ensures Replay(w, initial, calls + [call]) == After(w, |calls|, Replay(w, initial, calls), call)
  {
    var all := calls + [call];
    assert all[..|calls|] == calls;
    forall k | 0 <= k < |all| ensures Answered(w, k, Replay(w, initial, all[..k]), all[k]) {
      if k < |calls| { assert all[..k] == calls[..k]; }
    }
  }

  class Server {
    const world: World
    const initial: set<string>
    var blobs: set<string>
    var calls: seq<Call>

    constructor (world: World, blobs: set<string>)
      ensures Valid() && this.world == world && initial == this.blobs == blobs && calls == []
    {
      this.world, this.initial, this.blobs, this.calls := world, blobs, blobs, [];
    }

    ghost predicate Valid() reads this {
      blobs == Replay(world, initial, calls) && Genuine(world, initial, calls)
    }

    /** Logs a call and lets it take effect. */
    method Record(call: Call)
      requires Valid() && Answered(world, |calls|, blobs, call)
      modifies this
      ensures Valid() && calls == old(calls) + [call] && blobs == After(world, |old(calls)|, old(blobs), call)
    {
      GenuineSnoc(world, initial, calls, call);
      blobs := After(world, |calls|, blobs, call);
      calls := calls + [call];
    }

    method CheckFiles(files: seq<FileEntry>) returns (reply: Result<seq<string>, ClientError>)
      requires Valid()
      modifies this
      ensures Valid() && calls == old(calls) + [Check(files, reply)]
      ensures reply.Ok? <==> world.refuse(|old(calls)|).None? && world.fail(|old(calls)|).None?
      ensures reply.Ok? ==> NamesOnce(reply.value, Hashes(files) - blobs)
    {
      reply := CheckReply(world, |calls|, files, blobs);
      MissingOnce(files, blobs - world.vanish(|calls|));
      Record(Check(files, reply));
    }

    method UploadBlob(entry: nat, hash: string) returns (failure: Option<ClientError>)
      requires Valid()
      modifies this
      ensures Valid() && calls == old(calls) + [Upload(entry, hash, failure)]
      ensures failure.None? <==> world.refuse(|old(calls)|).None? && world.fail(|old(calls)|).None?
      ensures blobs == old(blobs) - world.vanish(|old(calls)|)
        + if world.refuse(|old(calls)|).None? then {hash} else {}
    {
      failure := UploadFailure(world, |calls|);
      Record(Upload(entry, hash, failure));
    }

    method CreateRevision(files: seq<FileEntry>, parent: Option<int>) returns (number: Result<nat, ClientError>)
      requires Valid()
      modifies this
      ensures Valid() && calls == old(calls) + [Commit(files, parent, number)]
      ensures number.Ok? <==>
        world.refuse(|old(calls)|).None? && world.fail(|old(calls)|).None? && Hashes(files) <= blobs
    {
      NoneMissing(files, blobs - world.vanish(|calls|));
      number := CommitReply(world, |calls|, files, blobs);
      Record(Commit(files, parent, number));
    }
  }

  /** Nothing of `keep` vanishes from call `k` on. */
  ghost predicate KeepsFrom(w: World, keep: set<string>, k: nat) {
    forall j :: k <= j ==> w.vanish(j) !! keep
  }

  /** Every blob of `keep` whose upload was accepted is there. */
  ghost predicate Arrived(calls: seq<Call>, keep: set<string>, blobs: set<string>) {
    forall k :: 0 <= k < |calls| ==> calls[k].Upload? && calls[k].failure.None? && calls[k].hash in keep ==>
      calls[k].hash in blobs
  }

  lemma ArrivedSnoc(calls: seq<Call>, keep: set<string>, was: set<string>, now: set<string>)
    requires calls != [] && Arrived(calls[..|calls| - 1], keep, was) && was * keep <= now
    requires var last := calls[|calls| - 1]; last.Upload? && last.failure.None? ==> last.hash in now
    ensures Arrived(calls, keep, now)
  {
    assert forall k :: 0 <= k < |calls| - 1 ==> calls[k] == calls[..|calls| - 1][k];
  }

  /** As long as nothing vanishes, what was there stays, and what is accepted stays too. */
  lemma {:induction false} NothingVanishes(w: World, initial: set<string>, before: seq<Call>, later: seq<Call>,
                                           keep: set<string>)
    requires Genuine(w, initial, before + later) && KeepsFrom(w, keep, |before|)
    ensures Replay(w, initial, before) * keep <= Replay(w, initial, before + later)
    ensures Arrived(later, keep, Replay(w, initial, before + later))
  {
    if later == [] {
      assert before + later == before;
    } else {
      var rest, call := later[..|later| - 1], later[|later| - 1];
      var front := before + rest;
      assert before + later == front + [call];
      GenuineLast(w, initial, front, call);
      NothingVanishes(w, initial, before, rest, keep);
      ArrivedSnoc(later, keep, Replay(w, initial, front), After(w, |front|, Replay(w, initial, front), call));
    }
  }

  lemma GenuineLast(w: World, initial: set<string>, front: seq<Call>, call: Call)
    requires Genuine(w, initial, front + [call])
    ensures Genuine(w, initial, front) && Answered(w, |front|, Replay(w, initial, front), call)
    ensures Replay(w, initial, front + [call]) == After(w, |front|, Replay(w, initial, front), call)
  {
    var all := front + [call];
    assert all[..|front|] == front;
    forall k | 0 <= k < |front| ensures Answered(w, k, Replay(w, initial, front[..k]), front[k]) {
      assert all[..k] == front[..k];
    }
  }
}
