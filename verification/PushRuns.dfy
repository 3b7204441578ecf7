/** What holds of every push, whatever the server does. */
module PushRuns {
  import opened Wrappers
  import opened BlobServer
  import opened PushUploads
  import opened Push

  function CountCommits(w: seq<Call>): nat {
    if w == [] then 0 else CountCommits(w[..|w| - 1]) + if w[|w| - 1].Commit? then 1 else 0
  }

  lemma {:induction false} CountConcat(a: seq<Call>, b: seq<Call>)
    ensures CountCommits(a + b) == CountCommits(a) + CountCommits(b)
  {
    if b == [] {
      assert a + b == a;
    } else {
      CountConcat(a, b[..|b| - 1]);
      assert (a + b)[..|a + b| - 1] == a + b[..|b| - 1];
    }
  }

  lemma {:induction false} NoCommits(w: seq<Call>)
    requires forall k :: 0 <= k < |w| ==> w[k].Upload?
    ensures CountCommits(w) == 0
  {
    if w != [] { NoCommits(w[..|w| - 1]); }
  }

  lemma CommitCount(t: Trace)
    requires t.check.Check?
    requires forall k :: 0 <= k < |t.first| ==> t.first[k].Upload?
    requires forall k :: 0 <= k < |t.second| ==> t.second[k].Upload?
    ensures CountCommits(Flatten(t)) == CountCommits(Listed(t.commit)) + CountCommits(Listed(t.recommit))
  {
    NoCommits(t.first);
    NoCommits(t.second);
    CountConcat([t.check], t.first);
    CountConcat([t.check] + t.first, Listed(t.commit));
    CountConcat([t.check] + t.first + Listed(t.commit), t.second);
    CountConcat([t.check] + t.first + Listed(t.commit) + t.second, Listed(t.recommit));
  }

  /** Both rounds consist of uploads. */
  lemma Rounds(t: Trace, hashed: seq<HashedFile>, parent: Option<int>, out: Result<Outcome, PushError>)
    requires Conforms(t, hashed, parent, out)
    ensures t.check.Check?
    ensures forall k :: 0 <= k < |t.first| ==> t.first[k].Upload?
    ensures forall k :: 0 <= k < |t.second| ==> t.second[k].Upload?
    ensures t.commit.Some? ==> IsCommit(t.commit, hashed, parent)
    ensures t.recommit.Some? ==>
      IsCommit(t.recommit, hashed, parent) && t.commit.Some? && AsksAgain(t.commit.value.number)
    ensures t.commit.None? ==> t.second == [] && t.recommit.None?
  {
  }

  /** At most two commits; both are of the scanned manifest on the given parent; there is a second one
      only because the first asked for blobs, and a stale parent ends the push. */
  lemma AtMostTwoCommits(t: Trace, hashed: seq<HashedFile>, parent: Option<int>, out: Result<Outcome, PushError>)
    requires Conforms(t, hashed, parent, out)
    ensures CountCommits(Flatten(t)) <= 2
    ensures forall k :: 0 <= k < |Flatten(t)| && Flatten(t)[k].Commit? ==> IsCommit(Some(Flatten(t)[k]), hashed, parent)
    ensures CountCommits(Flatten(t)) == 2 ==>
      t.commit.Some? && var n := t.commit.value.number; n.Err? && n.error.Api? && n.error.error.code.MissingBlobs?
    ensures t.commit.Some? && t.commit.value.number.Err? && t.commit.value.number.error.Api? ==>
      var e := t.commit.value.number.error.error;
      e.code.StaleParent? ==> out == Err(Stale(e.message)) && CountCommits(Flatten(t)) == 1
  {
    Rounds(t, hashed, parent, out);
    CommitCount(t);
    Places(t);
  }

  /** Whatever blobs a refused commit names, they are uploaded again, and then the commit is made again. */
  lemma MissingIsRetried(t: Trace, hashed: seq<HashedFile>, parent: Option<int>, out: Result<Outcome, PushError>)
    requires Conforms(t, hashed, parent, out) && t.commit.Some? && t.commit.value.Commit?
    requires t.commit.value.number.Err? && t.commit.value.number.error.Api?
    requires t.commit.value.number.error.error.code.MissingBlobs?
    ensures var uploads := SelectUploads(hashed, t.commit.value.number.error.error.missing);
      Round(t.second, uploads) && (t.recommit.Some? <==> AllAccepted(t.second, uploads))
  {
  }

  /** The call names the hash among those the server lacks. */
  ghost predicate Names(c: Call, h: string) {
    (c.Check? && c.reply.Ok? && h in c.reply.value) || (c.Commit? && AsksAgain(c.number) && h in Asked(c.number))
  }

  /** Where the calls of a push stand. */
  lemma Places(t: Trace)
    ensures |Flatten(t)| == 1 + |t.first| + |Listed(t.commit)| + |t.second| + |Listed(t.recommit)|
    ensures Flatten(t)[0] == t.check
    ensures forall k :: 1 <= k <= |t.first| ==> Flatten(t)[k] == t.first[k - 1]
    ensures t.commit.Some? ==> Flatten(t)[1 + |t.first|] == t.commit.value
    ensures var start := 1 + |t.first| + |Listed(t.commit)|;
      forall k :: start <= k < start + |t.second| ==> Flatten(t)[k] == t.second[k - start]
    ensures t.recommit.Some? ==> Flatten(t)[|Flatten(t)| - 1] == t.recommit.value
  {
  }

  lemma RoundIsNamed(w: seq<Call>, hashed: seq<HashedFile>, wanted: seq<string>, k: nat)
    requires Round(w, SelectUploads(hashed, wanted)) && k < |w|
    ensures w[k].Upload? && w[k].hash in wanted && w[k].hash in Hashes(Manifest(hashed))
  {
    SelectedIsWanted(hashed, wanted, w[k].entry);
    var i :| 0 <= i < |hashed| && ToUpload(hashed[i]) == SelectUploads(hashed, wanted)[w[k].entry];
    assert Manifest(hashed)[i].hash == hashed[i].hash;
  }

  /** An upload belongs to one of the two rounds. */
  lemma UploadPlace(t: Trace, k: nat)
    requires t.check.Check? && (t.commit.Some? ==> t.commit.value.Commit?) &&
      (t.recommit.Some? ==> t.recommit.value.Commit?)
    requires t.commit.None? ==> t.second == [] && t.recommit.None?
    requires k < |Flatten(t)| && Flatten(t)[k].Upload?
    ensures 1 <= k
    ensures k <= |t.first| ==> Flatten(t)[k] == t.first[k - 1]
    ensures k > |t.first| ==>
      t.commit.Some? && 0 <= k - 2 - |t.first| < |t.second| && Flatten(t)[k] == t.second[k - 2 - |t.first|]
  {
    Places(t);
  }

  /** What the two rounds upload. */
  lemma FirstRound(t: Trace, hashed: seq<HashedFile>, parent: Option<int>, out: Result<Outcome, PushError>)
    requires Conforms(t, hashed, parent, out) && (t.first != [] || t.commit.Some?)
    ensures t.check.Check? && t.check.reply.Ok? && Round(t.first, SelectUploads(hashed, t.check.reply.value))
    ensures t.commit.Some? ==> AllAccepted(t.first, SelectUploads(hashed, t.check.reply.value))
  {
  }

  lemma SecondRound(t: Trace, hashed: seq<HashedFile>, parent: Option<int>, out: Result<Outcome, PushError>)
    requires Conforms(t, hashed, parent, out) && (t.second != [] || t.recommit.Some?)
    ensures t.commit.Some? && t.commit.value.Commit? && AsksAgain(t.commit.value.number)
    ensures Round(t.second, SelectUploads(hashed, Asked(t.commit.value.number)))
    ensures t.recommit.Some? ==> AllAccepted(t.second, SelectUploads(hashed, Asked(t.commit.value.number)))
  {
  }

  lemma FirstIsNamed(t: Trace, hashed: seq<HashedFile>, parent: Option<int>, out: Result<Outcome, PushError>, k: nat)
    requires Conforms(t, hashed, parent, out) && k < |t.first|
    ensures t.first[k].Upload? && t.first[k].hash in Hashes(Manifest(hashed)) && Names(t.check, t.first[k].hash)
  {
    FirstRound(t, hashed, parent, out);
    RoundIsNamed(t.first, hashed, t.check.reply.value, k);
  }

  lemma SecondIsNamed(t: Trace, hashed: seq<HashedFile>, parent: Option<int>, out: Result<Outcome, PushError>, k: nat)
    requires Conforms(t, hashed, parent, out) && k < |t.second|
    ensures t.second[k].Upload? && t.second[k].hash in Hashes(Manifest(hashed))
    ensures t.commit.Some? && Names(t.commit.value, t.second[k].hash)
  {
    SecondRound(t, hashed, parent, out);
    RoundIsNamed(t.second, hashed, Asked(t.commit.value.number), k);
  }

  /** Only blobs of the manifest are uploaded, each named by the server in an earlier answer. */
  lemma UploadsAreNamed(t: Trace, hashed: seq<HashedFile>, parent: Option<int>, out: Result<Outcome, PushError>, k: nat)
    requires Conforms(t, hashed, parent, out) && k < |Flatten(t)| && Flatten(t)[k].Upload?
    ensures Flatten(t)[k].hash in Hashes(Manifest(hashed))
    ensures exists j :: 0 <= j < k && Names(Flatten(t)[j], Flatten(t)[k].hash)
  {
    Rounds(t, hashed, parent, out);
    UploadPlace(t, k);
    Places(t);
    if k <= |t.first| {
      FirstIsNamed(t, hashed, parent, out, k - 1);
    } else {
      SecondIsNamed(t, hashed, parent, out, k - 2 - |t.first|);
    }
  }

  /** A later call makes up for the failed upload `c`. */
  ghost predicate MakesUp(later: Call, c: Call)
    requires c.Upload?
  {
    later.Upload? && later.entry == c.entry && later.hash == c.hash && later.failure.None?
  }

  lemma {:induction false} LastAttempt(w: seq<Call>, uploads: seq<BlobUpload>, i: nat) returns (m: nat)
    requires Uploads(w, uploads, |uploads|) && Replies(w, i) != []
    ensures m < |w| && w[m].Upload? && w[m].entry == i && w[m].failure == Final(Replies(w, i))
    ensures forall k :: m < k < |w| ==> w[k].entry != i
  {
    m := |w| - 1;
    if w[m].entry != i {
      m := LastAttempt(w[..m], uploads, i);
    }
  }

  /** In a round where all were accepted, every failure is made up for. */
  lemma RoundRecovers(w: seq<Call>, uploads: seq<BlobUpload>, k: nat) returns (m: nat)
    requires Round(w, uploads) && AllAccepted(w, uploads) && k < |w| && w[k].failure.Some?
    ensures k < m < |w| && MakesUp(w[m], w[k])
  {
    m := LastAttempt(w, uploads, w[k].entry);
    assert Final(Replies(w, w[k].entry)).None?;
  }

  /** No commit follows a failed upload, unless a later attempt at the same blob made up for it before. */
  lemma NoCommitAfterFailure(t: Trace, hashed: seq<HashedFile>, parent: Option<int>, out: Result<Outcome, PushError>,
                             k: nat, j: nat)
    requires Conforms(t, hashed, parent, out) && k < j < |Flatten(t)|
    requires Flatten(t)[k].Upload? && Flatten(t)[k].failure.Some? && Flatten(t)[j].Commit?
    ensures exists m :: k < m < j && MakesUp(Flatten(t)[m], Flatten(t)[k])
  {
    Rounds(t, hashed, parent, out);
    UploadPlace(t, k);
    Places(t);
    if k <= |t.first| {
      FirstRound(t, hashed, parent, out);
      var m := RoundRecovers(t.first, SelectUploads(hashed, t.check.reply.value), k - 1);
      assert MakesUp(Flatten(t)[m + 1], Flatten(t)[k]);
    } else {
      SecondRound(t, hashed, parent, out);
      CommitPlace(t, j);
      var start := 2 + |t.first|;
      var m := RoundRecovers(t.second, SelectUploads(hashed, Asked(t.commit.value.number)), k - start);
      assert MakesUp(Flatten(t)[start + m], Flatten(t)[k]);
    }
  }

  lemma CommitPlace(t: Trace, j: nat)
    requires t.check.Check? && t.commit.Some?
    requires forall k :: 0 <= k < |t.first| ==> t.first[k].Upload?
    requires forall k :: 0 <= k < |t.second| ==> t.second[k].Upload?
    requires j < |Flatten(t)| && Flatten(t)[j].Commit?
    ensures j == 1 + |t.first| || (t.recommit.Some? && j == 2 + |t.first| + |t.second|)
  {
    Places(t);
  }

  /** The uploads of blob `h`. */
  function Attempts(w: seq<Call>, h: string): nat {
    if w == [] then 0
    else
      var last := w[|w| - 1];
      Attempts(w[..|w| - 1], h) + if last.Upload? && last.hash == h then 1 else 0
  }

  /** How many of the scanned files have hash `h`. */
  function Copies(hashed: seq<HashedFile>, h: string): nat {
    if hashed == [] then 0 else Copies(hashed[..|hashed| - 1], h) + if hashed[|hashed| - 1].hash == h then 1 else 0
  }

  /** The attempts at the first `n` entries, as far as they are of blob `h`. */
  function AttemptsOf(w: seq<Call>, uploads: seq<BlobUpload>, n: nat, h: string): nat
    requires n <= |uploads|
  {
    if n == 0 then 0 else AttemptsOf(w, uploads, n - 1, h) + if uploads[n - 1].hash == h then |Replies(w, n - 1)| else 0
  }

  lemma {:induction false} AttemptsOfSnoc(w: seq<Call>, c: Call, uploads: seq<BlobUpload>, n: nat, h: string)
    requires n <= |uploads| && c.Upload? && (c.entry < |uploads| ==> c.hash == uploads[c.entry].hash)
    ensures AttemptsOf(w + [c], uploads, n, h)
         == AttemptsOf(w, uploads, n, h) + if c.entry < n && c.hash == h then 1 else 0
  {
    if n > 0 {
      AttemptsOfSnoc(w, c, uploads, n - 1, h);
      RepliesSnoc(w, c, n - 1);
    }
  }

  lemma {:induction false} AttemptsByEntry(w: seq<Call>, uploads: seq<BlobUpload>, h: string)
    requires Uploads(w, uploads, |uploads|)
    ensures Attempts(w, h) == AttemptsOf(w, uploads, |uploads|, h)
  {
    if w == [] {
      NoAttempts(uploads, |uploads|, h);
    } else {
      var front, c := w[..|w| - 1], w[|w| - 1];
      AttemptsByEntry(front, uploads, h);
      AttemptsOfSnoc(front, c, uploads, |uploads|, h);
      assert w == front + [c];
    }
  }

  lemma {:induction false} NoAttempts(uploads: seq<BlobUpload>, n: nat, h: string)
    requires n <= |uploads|
    ensures AttemptsOf([], uploads, n, h) == 0
  {
    if n > 0 { NoAttempts(uploads, n - 1, h); }
  }

  function CopiesOf(uploads: seq<BlobUpload>, n: nat, h: string): nat
    requires n <= |uploads|
  {
    if n == 0 then 0 else CopiesOf(uploads, n - 1, h) + if uploads[n - 1].hash == h then 1 else 0
  }

  lemma {:induction false} FourPerEntry(w: seq<Call>, uploads: seq<BlobUpload>, n: nat, h: string)
    requires Round(w, uploads) && n <= |uploads|
    ensures AttemptsOf(w, uploads, n, h) <= MAX_UPLOAD_ATTEMPTS * CopiesOf(uploads, n, h)
  {
    if n > 0 {
      FourPerEntry(w, uploads, n - 1, h);
      assert Finished(Replies(w, n - 1));
    }
  }

  lemma {:induction false} CopiesGrow(a: seq<BlobUpload>, b: seq<BlobUpload>, n: nat, h: string)
    requires n <= |a| <= |b| && a == b[..|a|]
    ensures CopiesOf(a, n, h) == CopiesOf(b, n, h)
  {
    if n > 0 { CopiesGrow(a, b, n - 1, h); }
  }

  lemma {:induction false} SelectedCopies(hashed: seq<HashedFile>, wanted: seq<string>, h: string)
    ensures CopiesOf(SelectUploads(hashed, wanted), |SelectUploads(hashed, wanted)|, h) <= Copies(hashed, h)
  {
    if hashed != [] {
      var front := SelectUploads(hashed[..|hashed| - 1], wanted);
      SelectedCopies(hashed[..|hashed| - 1], wanted, h);
      CopiesGrow(front, SelectUploads(hashed, wanted), |front|, h);
    }
  }

  /** In one round, at most four attempts for each file that holds the blob. */
  lemma RoundAttempts(w: seq<Call>, hashed: seq<HashedFile>, wanted: seq<string>, h: string)
    requires Round(w, SelectUploads(hashed, wanted))
    ensures Attempts(w, h) <= MAX_UPLOAD_ATTEMPTS * Copies(hashed, h)
  {
    var uploads := SelectUploads(hashed, wanted);
    AttemptsByEntry(w, uploads, h);
    FourPerEntry(w, uploads, |uploads|, h);
    SelectedCopies(hashed, wanted, h);
  }

  /** So at most four attempts for a blob before the first commit, and four more before the second. */
  lemma FourAttemptsARound(t: Trace, hashed: seq<HashedFile>, parent: Option<int>, out: Result<Outcome, PushError>,
                           h: string)
    requires Conforms(t, hashed, parent, out)
    ensures Attempts(t.first, h) <= 4 * Copies(hashed, h)
    ensures Attempts(t.second, h) <= 4 * Copies(hashed, h)
  {
    if t.first != [] {
      FirstRound(t, hashed, parent, out);
      RoundAttempts(t.first, hashed, t.check.reply.value, h);
    }
    if t.second != [] {
      SecondRound(t, hashed, parent, out);
      RoundAttempts(t.second, hashed, Asked(t.commit.value.number), h);
    }
  }
}
