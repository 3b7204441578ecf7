/** How often a blob can be tried: the bounds are reached. */
module PushAttempts {
  import opened Wrappers
  import opened BlobServer
  import opened PushUploads
  import opened Push
  import opened PushRuns

  /** The retryable failure of the examples. */
  const LOST: ClientError := Transport("")

  /** `k` failed attempts at one entry. */
  function Failures(entry: nat, hash: string, k: nat): seq<Call> {
    if k == 0 then [] else Failures(entry, hash, k - 1) + [Upload(entry, hash, Some(LOST))]
  }

  /** Three failures, then success. */
  function FourthTime(entry: nat, hash: string): seq<Call> { Failures(entry, hash, 3) + [Upload(entry, hash, None)] }

  /** A round in which each of the first `n` entries succeeds the fourth time. */
  function FourthTimes(uploads: seq<BlobUpload>, n: nat): seq<Call>
    requires n <= |uploads|
  {
    if n == 0 then [] else FourthTimes(uploads, n - 1) + FourthTime(n - 1, uploads[n - 1].hash)
  }

  lemma {:induction false} RepliesConcat(a: seq<Call>, b: seq<Call>, i: nat)
    ensures Replies(a + b, i) == Replies(a, i) + Replies(b, i)
  {
    if b == [] {
      assert a + b == a;
    } else {
      var front, c := b[..|b| - 1], b[|b| - 1];
      assert b == front + [c];
      RepliesConcat(a, front, i);
      RepliesMore(a, front, c, i);
    }
  }

  lemma RepliesMore(a: seq<Call>, b: seq<Call>, c: Call, i: nat)
    requires Replies(a + b, i) == Replies(a, i) + Replies(b, i)
    ensures Replies(a + (b + [c]), i) == Replies(a, i) + Replies(b + [c], i)
  {
    AppendLast(a, b, c);
    RepliesSnoc(a + b, c, i);
    RepliesSnoc(b, c, i);
  }

  ghost predicate AllLost(h: seq<Option<ClientError>>, k: nat) {
    |h| == k && forall j :: 0 <= j < k ==> h[j] == Some(LOST)
  }

  lemma AllLostSnoc(h: seq<Option<ClientError>>, k: nat)
    requires AllLost(h, k)
    ensures AllLost(h + [Some(LOST)], k + 1)
  {
  }

  lemma {:induction false} FailuresReply(entry: nat, hash: string, k: nat, i: nat)
    ensures AllLost(Replies(Failures(entry, hash, k), i), if i == entry then k else 0)
  {
    if k > 0 {
      FailuresReply(entry, hash, k - 1, i);
      RepliesSnoc(Failures(entry, hash, k - 1), Upload(entry, hash, Some(LOST)), i);
      if i == entry { AllLostSnoc(Replies(Failures(entry, hash, k - 1), i), k - 1); }
    }
  }

  ghost predicate Fourth(h: seq<Option<ClientError>>) { |h| == 4 && AllLost(h[..3], 3) && h[3] == None }

  lemma FourthIsFinished(h: seq<Option<ClientError>>)
    requires Fourth(h)
    ensures Finished(h) && Final(h).None?
  {
    assert Going(h[..|h| - 1]);
  }

  lemma FourthTimeReplies(entry: nat, hash: string, i: nat)
    ensures i == entry ==> Fourth(Replies(FourthTime(entry, hash), i))
    ensures i != entry ==> Replies(FourthTime(entry, hash), i) == []
  {
    FailuresReply(entry, hash, 3, i);
    RepliesSnoc(Failures(entry, hash, 3), Upload(entry, hash, None), i);
    var h := Replies(Failures(entry, hash, 3), i);
    assert (h + [None])[..|h|] == h;
  }

  /** The replies of entry `i` in a round of `n` entries. */
  ghost predicate FourthUpTo(r: seq<Option<ClientError>>, i: nat, n: nat) { if i < n then Fourth(r) else r == [] }

  lemma OneFourth(a: seq<Option<ClientError>>, c: seq<Option<ClientError>>, i: nat, n: nat)
    requires FourthUpTo(a, i, n) && if i == n then Fourth(c) else c == []
    ensures FourthUpTo(a + c, i, n + 1)
  {
    if i < n { assert a + c == a; } else { assert a + c == c; }
  }

  lemma FourthMore(uploads: seq<BlobUpload>, n: nat, i: nat)
    returns (a: seq<Option<ClientError>>, c: seq<Option<ClientError>>)
    requires 0 < n <= |uploads|
    ensures a == Replies(FourthTimes(uploads, n - 1), i) && c == Replies(FourthTime(n - 1, uploads[n - 1].hash), i)
    ensures Replies(FourthTimes(uploads, n), i) == a + c
  {
    a, c := Replies(FourthTimes(uploads, n - 1), i), Replies(FourthTime(n - 1, uploads[n - 1].hash), i);
    RepliesConcat(FourthTimes(uploads, n - 1), FourthTime(n - 1, uploads[n - 1].hash), i);
  }

  lemma FourthTimesStep(uploads: seq<BlobUpload>, n: nat, i: nat)
    requires 0 < n <= |uploads| && FourthUpTo(Replies(FourthTimes(uploads, n - 1), i), i, n - 1)
    ensures FourthUpTo(Replies(FourthTimes(uploads, n), i), i, n)
  {
    var a, c := FourthMore(uploads, n, i);
    FourthTimeReplies(n - 1, uploads[n - 1].hash, i);
    OneFourth(a, c, i, n - 1);
  }

  lemma {:induction false} FourthTimesReplies(uploads: seq<BlobUpload>, n: nat, i: nat)
    requires n <= |uploads|
    ensures FourthUpTo(Replies(FourthTimes(uploads, n), i), i, n)
  {
    if n > 0 {
      FourthTimesReplies(uploads, n - 1, i);
      FourthTimesStep(uploads, n, i);
    }
  }

  lemma {:induction false} FailuresUpload(entry: nat, hash: string, k: nat, uploads: seq<BlobUpload>)
    requires entry < |uploads| && uploads[entry].hash == hash
    ensures Uploads(Failures(entry, hash, k), uploads, entry + 1)
  {
    if k > 0 { FailuresUpload(entry, hash, k - 1, uploads); }
  }

  lemma {:induction false} FourthTimesUpload(uploads: seq<BlobUpload>, n: nat)
    requires n <= |uploads|
    ensures Uploads(FourthTimes(uploads, n), uploads, n)
  {
    if n > 0 {
      FourthTimesUpload(uploads, n - 1);
      FailuresUpload(n - 1, uploads[n - 1].hash, 3, uploads);
    }
  }

  lemma FourthTimesRound(uploads: seq<BlobUpload>)
    ensures var w := FourthTimes(uploads, |uploads|); Round(w, uploads) && AllAccepted(w, uploads)
  {
    FourthTimesUpload(uploads, |uploads|);
    forall i | 0 <= i < |uploads|
      ensures var h := Replies(FourthTimes(uploads, |uploads|), i); Finished(h) && Final(h).None?
    {
      FourthTimesReplies(uploads, |uploads|, i);
      FourthIsFinished(Replies(FourthTimes(uploads, |uploads|), i));
    }
  }

  lemma {:induction false} FourthTimesOf(uploads: seq<BlobUpload>, n: nat, h: string)
    requires n <= |uploads|
    ensures AttemptsOf(FourthTimes(uploads, |uploads|), uploads, n, h) == MAX_UPLOAD_ATTEMPTS * CopiesOf(uploads, n, h)
  {
    if n > 0 {
      FourthTimesOf(uploads, n - 1, h);
      FourthTimesReplies(uploads, |uploads|, n - 1);
    }
  }

  /** Asked for one blob, the client selects every file that holds it. */
  lemma {:induction false} AskedCopies(hashed: seq<HashedFile>, h: string)
    ensures CopiesOf(SelectUploads(hashed, [h]), |SelectUploads(hashed, [h])|, h) == Copies(hashed, h)
  {
    if hashed != [] {
      var front := SelectUploads(hashed[..|hashed| - 1], [h]);
      AskedCopies(hashed[..|hashed| - 1], h);
      CopiesGrow(front, SelectUploads(hashed, [h]), |front|, h);
    }
  }

  /** The round for one blob, of its every file four attempts. */
  function RoundFor(hashed: seq<HashedFile>, h: string): seq<Call> {
    var uploads := SelectUploads(hashed, [h]);
    FourthTimes(uploads, |uploads|)
  }

  lemma RoundForAttempts(hashed: seq<HashedFile>, h: string)
    ensures Round(RoundFor(hashed, h), SelectUploads(hashed, [h])) &&
      AllAccepted(RoundFor(hashed, h), SelectUploads(hashed, [h]))
    ensures Attempts(RoundFor(hashed, h), h) == MAX_UPLOAD_ATTEMPTS * Copies(hashed, h)
  {
    var uploads := SelectUploads(hashed, [h]);
    FourthTimesRound(uploads);
    AttemptsByEntry(RoundFor(hashed, h), uploads, h);
    FourthTimesOf(uploads, |uploads|, h);
    AskedCopies(hashed, h);
  }

  /** No round, whatever the server asks for and answers, tries the blob more than four times. */
  ghost predicate AtMostFour(hashed: seq<HashedFile>, h: string) {
    forall w, wanted :: Round(w, SelectUploads(hashed, wanted)) ==> Attempts(w, h) <= 4
  }

  /** Four attempts bound a round exactly for the blobs that at most one scanned file holds. */
  lemma AtMostFourExactlyWhen(hashed: seq<HashedFile>, h: string)
    ensures AtMostFour(hashed, h) <==> Copies(hashed, h) <= 1
  {
    if Copies(hashed, h) <= 1 {
      forall w, wanted | Round(w, SelectUploads(hashed, wanted)) ensures Attempts(w, h) <= MAX_UPLOAD_ATTEMPTS {
        RoundAttempts(w, hashed, wanted, h);
      }
    } else {
      RoundForAttempts(hashed, h);
      assert Attempts(RoundFor(hashed, h), h) > MAX_UPLOAD_ATTEMPTS;
    }
  }

  // --- When an attempt is repeated ---------------------------------------------------------------

  /** A lost connection, an error of the server, or a request to slow down. */
  predicate MayPass(e: ClientError) {
    e.Transport? || (e.Api? && (e.error.status >= 500 || e.error.status == 429))
  }

  lemma SplitAround(w: seq<Call>, k: nat)
    requires k < |w|
    ensures w == w[..k + 1] + w[k + 1..] && w[..k + 1] == w[..k] + [w[k]]
  {
  }

  lemma RepliesThrough(front: seq<Call>, c: Call, back: seq<Call>, i: nat)
    requires c.Upload? && c.entry == i
    ensures Replies(front + [c] + back, i) == Replies(front + [c], i) + Replies(back, i)
    ensures var h := Replies(front + [c], i); h != [] && h[|h| - 1] == c.failure
  {
    RepliesConcat(front + [c], back, i);
    RepliesSnoc(front, c, i);
  }

  /** The replies to an entry up to call `k`, and after it. */
  lemma RepliesAround(w: seq<Call>, k: nat) returns (h: seq<Option<ClientError>>, later: seq<Option<ClientError>>)
    requires k < |w| && w[k].Upload?
    ensures h == Replies(w[..k + 1], w[k].entry) && later == Replies(w[k + 1..], w[k].entry)
    ensures Replies(w, w[k].entry) == h + later && h != [] && h[|h| - 1] == w[k].failure
  {
    SplitAround(w, k);
    RepliesThrough(w[..k], w[k], w[k + 1..], w[k].entry);
    h, later := Replies(w[..k + 1], w[k].entry), Replies(w[k + 1..], w[k].entry);
  }

  lemma {:induction false} SomeReply(w: seq<Call>, j: nat)
    requires j < |w| && w[j].Upload?
    ensures Replies(w, w[j].entry) != []
  {
    if j < |w| - 1 { SomeReply(w[..|w| - 1], j); }
  }

  /** What has replies after it was worth another attempt. */
  lemma OnlyRetryable(h: seq<Option<ClientError>>, later: seq<Option<ClientError>>)
    requires Finished(h + later) && h != [] && later != []
    ensures h[|h| - 1].Some? && Retryable(h[|h| - 1].value)
  {
    assert (h + later)[..|h + later| - 1][|h| - 1] == h[|h| - 1];
  }

  lemma Unfinished(h: seq<Option<ClientError>>, later: seq<Option<ClientError>>)
    requires Finished(h + later) && h != [] && |h| < 4 && h[|h| - 1].Some? && Retryable(h[|h| - 1].value)
    ensures later != []
  {
    assert later == [] ==> h + later == h;
  }

  /** Any other failure ends the attempts at its entry. */
  lemma FatalFailureStops(w: seq<Call>, uploads: seq<BlobUpload>, k: nat, j: nat)
    requires Round(w, uploads) && k < j < |w| && w[k].Upload? && w[j].Upload? && w[k].failure.Some?
    requires !MayPass(w[k].failure.value)
    ensures w[j].entry != w[k].entry
  {
    if w[j].entry == w[k].entry {
      var h, later := RepliesAround(w, k);
      SomeReply(w[k + 1..], j - k - 1);
      OnlyRetryable(h, later);
    }
  }

  /** A failure that may pass is followed by another attempt, unless it was the fourth. */
  lemma LostAttemptIsRepeated(w: seq<Call>, uploads: seq<BlobUpload>, k: nat)
    requires Round(w, uploads) && k < |w| && w[k].Upload? && w[k].failure.Some? && MayPass(w[k].failure.value)
    requires |Replies(w[..k + 1], w[k].entry)| < 4
    ensures exists j :: k < j < |w| && w[j].Upload? && w[j].entry == w[k].entry
  {
    var h, later := RepliesAround(w, k);
    Unfinished(h, later);
    var j := ReplyIsCall(w[k + 1..], w[k].entry);
    assert w[k + 1 + j] == w[k + 1..][j];
  }

  lemma {:induction false} ReplyIsCall(w: seq<Call>, i: nat) returns (j: nat)
    requires Replies(w, i) != []
    ensures j < |w| && w[j].Upload? && w[j].entry == i
  {
    j := |w| - 1;
    if !(w[j].Upload? && w[j].entry == i) { j := ReplyIsCall(w[..j], i); }
  }

  // --- Whole pushes --------------------------------------------------------------------------

  lemma {:induction false} AttemptsConcat(a: seq<Call>, b: seq<Call>, h: string)
    ensures Attempts(a + b, h) == Attempts(a, h) + Attempts(b, h)
  {
    if b == [] {
      assert a + b == a;
    } else {
      AttemptsConcat(a, b[..|b| - 1], h);
      assert (a + b)[..|a + b| - 1] == a + b[..|b| - 1];
    }
  }

  /** The attempts of a push are those of its two rounds. */
  lemma PushAttempts(t: Trace, h: string)
    requires t.check.Check? && (t.commit.Some? ==> t.commit.value.Commit?) &&
      (t.recommit.Some? ==> t.recommit.value.Commit?)
    ensures Attempts(Flatten(t), h) == Attempts(t.first, h) + Attempts(t.second, h)
  {
    AttemptsConcat([t.check], t.first, h);
    AttemptsConcat([t.check] + t.first, Listed(t.commit), h);
    AttemptsConcat([t.check] + t.first + Listed(t.commit), t.second, h);
    AttemptsConcat([t.check] + t.first + Listed(t.commit) + t.second, Listed(t.recommit), h);
  }

  /** The server asks for one blob, and once more at the first commit. */
  function AskedTwice(hashed: seq<HashedFile>, parent: Option<int>, h: string): Trace {
    var files, again := Manifest(hashed), Err(Api(ApiError(409, MissingBlobs, "", [h])));
    var round := RoundFor(hashed, h);
    Trace(Check(files, Ok([h])), round, Some(Commit(files, parent, again)), round, Some(Commit(files, parent, Ok(1))))
  }

  function AskedTwiceOutcome(hashed: seq<HashedFile>, h: string): Outcome {
    var uploads := SelectUploads(hashed, [h]);
    Outcome(1, |hashed|, TotalBytes(hashed), 2 * |uploads|, 2 * TotalSize(uploads))
  }

  /** Such a push succeeds. */
  lemma AskedTwiceConforms(hashed: seq<HashedFile>, parent: Option<int>, h: string)
    ensures Conforms(AskedTwice(hashed, parent, h), hashed, parent, Ok(AskedTwiceOutcome(hashed, h)))
  {
    RoundForAttempts(hashed, h);
    var t := AskedTwice(hashed, parent, h);
    var uploads := SelectUploads(hashed, [h]);
    assert Retried(t.second, t.recommit, hashed, parent, [h], |uploads|, TotalSize(uploads),
                   Ok(AskedTwiceOutcome(hashed, h)));
  }

  lemma BothRounds(hashed: seq<HashedFile>, parent: Option<int>, h: string) returns (t: Trace)
    ensures t == AskedTwice(hashed, parent, h) && t.first == t.second == RoundFor(hashed, h)
    ensures t.check.Check? && (t.commit.Some? ==> t.commit.value.Commit?)
    ensures t.recommit.Some? ==> t.recommit.value.Commit?
  {
    t := AskedTwice(hashed, parent, h);
  }

  /** With eight attempts for each file that holds the blob. */
  lemma AskedTwiceAttempts(hashed: seq<HashedFile>, parent: Option<int>, h: string)
    ensures Attempts(Flatten(AskedTwice(hashed, parent, h)), h) == 8 * Copies(hashed, h)
  {
    var t := BothRounds(hashed, parent, h);
    var k := RoundAttemptsFor(hashed, h);
    SameRounds(t, h, k);
  }

  lemma RoundAttemptsFor(hashed: seq<HashedFile>, h: string) returns (k: nat)
    ensures k == Attempts(RoundFor(hashed, h), h) == 4 * Copies(hashed, h)
  {
    RoundForAttempts(hashed, h);
    k := 4 * Copies(hashed, h);
  }

  lemma SameRounds(t: Trace, h: string, k: nat)
    requires t.check.Check? && (t.commit.Some? ==> t.commit.value.Commit?)
    requires t.recommit.Some? ==> t.recommit.value.Commit?
    requires t.first == t.second && Attempts(t.first, h) == k
    ensures Attempts(Flatten(t), h) == 2 * k
  {
    PushAttempts(t, h);
  }

  lemma Kinds(t: Trace, hashed: seq<HashedFile>, parent: Option<int>, out: Result<Outcome, PushError>)
    requires Conforms(t, hashed, parent, out)
    ensures t.check.Check? && (t.commit.Some? ==> t.commit.value.Commit?)
    ensures t.recommit.Some? ==> t.recommit.value.Commit?
  {
    Rounds(t, hashed, parent, out);
  }

  lemma TwoRoundsBound(t: Trace, h: string, bound: nat)
    requires t.check.Check? && (t.commit.Some? ==> t.commit.value.Commit?)
    requires t.recommit.Some? ==> t.recommit.value.Commit?
    requires Attempts(t.first, h) <= bound && Attempts(t.second, h) <= bound
    ensures Attempts(Flatten(t), h) <= 2 * bound
  {
    PushAttempts(t, h);
  }

  /** A push tries a blob at most eight times for each file that holds it. */
  lemma EightPerFile(t: Trace, hashed: seq<HashedFile>, parent: Option<int>, out: Result<Outcome, PushError>, h: string)
    requires Conforms(t, hashed, parent, out)
    ensures Attempts(Flatten(t), h) <= 2 * (MAX_UPLOAD_ATTEMPTS * Copies(hashed, h))
  {
    Kinds(t, hashed, parent, out);
    FourAttemptsARound(t, hashed, parent, out, h);
    TwoRoundsBound(t, h, MAX_UPLOAD_ATTEMPTS * Copies(hashed, h));
  }

  /** No push, whatever the server asks for and answers, tries the blob more than `n` times. */
  ghost predicate PushAtMost(hashed: seq<HashedFile>, parent: Option<int>, h: string, n: nat) {
    forall t, out :: Conforms(t, hashed, parent, out) ==> Attempts(Flatten(t), h) <= n
  }

  /** A push can come to as many. */
  lemma NoSmallerBound(hashed: seq<HashedFile>, parent: Option<int>, h: string, n: nat)
    requires PushAtMost(hashed, parent, h, n)
    ensures 2 * MAX_UPLOAD_ATTEMPTS * Copies(hashed, h) <= n
  {
    AskedTwiceConforms(hashed, parent, h);
    AskedTwiceAttempts(hashed, parent, h);
  }

  /** The attempts at a blob that a push can come to: eight for each scanned file that holds it, and no
      fewer bound every push. */
  lemma PushAtMostExactlyWhen(hashed: seq<HashedFile>, parent: Option<int>, h: string, n: nat)
    ensures PushAtMost(hashed, parent, h, n) <==> 8 * Copies(hashed, h) <= n
  {
    if 2 * MAX_UPLOAD_ATTEMPTS * Copies(hashed, h) <= n {
      forall t, out | Conforms(t, hashed, parent, out) ensures Attempts(Flatten(t), h) <= n {
        EightPerFile(t, hashed, parent, out, h);
      }
    }
    if PushAtMost(hashed, parent, h, n) { NoSmallerBound(hashed, parent, h, n); }
  }

  /** So four attempts bound a push exactly for the blobs that no scanned file holds. */
  lemma PushAtMostFourExactlyWhen(hashed: seq<HashedFile>, parent: Option<int>, h: string)
    ensures PushAtMost(hashed, parent, h, 4) <==> Copies(hashed, h) == 0
  {
    PushAtMostExactlyWhen(hashed, parent, h, 4);
  }

  // --- A server that makes it eight ------------------------------------------------------------

  /** The answers that lead to it: the server turns away the first three attempts of each round, and the
      blob vanishes just before the first commit. */
  function Unlucky(hash: string): World {
    World(k => if k == 5 then {hash} else {}, k => if k in {1, 2, 3, 6, 7, 8} then Some(LOST) else None,
          k => None, k => 1)
  }

  lemma LostCall(w: World, calls: seq<Call>, hash: string)
    requires Genuine(w, {}, calls) && w.refuse(|calls|) == Some(LOST) && w.vanish(|calls|) == {}
    ensures Genuine(w, {}, calls + [Upload(0, hash, Some(LOST))])
    ensures Replay(w, {}, calls + [Upload(0, hash, Some(LOST))]) == Replay(w, {}, calls)
  {
    GenuineSnoc(w, {}, calls, Upload(0, hash, Some(LOST)));
  }

  lemma {:induction false} FailuresGenuine(w: World, calls: seq<Call>, hash: string, k: nat)
    requires Genuine(w, {}, calls)
    requires forall j :: |calls| <= j < |calls| + k ==> w.refuse(j) == Some(LOST) && w.vanish(j) == {}
    ensures Genuine(w, {}, calls + Failures(0, hash, k)) && |Failures(0, hash, k)| == k
    ensures Replay(w, {}, calls + Failures(0, hash, k)) == Replay(w, {}, calls)
  {
    if k == 0 {
      assert calls + Failures(0, hash, 0) == calls;
    } else {
      FailuresGenuine(w, calls, hash, k - 1);
      LostCall(w, calls + Failures(0, hash, k - 1), hash);
      AppendLast(calls, Failures(0, hash, k - 1), Upload(0, hash, Some(LOST)));
    }
  }

  lemma AppendLast(a: seq<Call>, b: seq<Call>, c: Call)
    ensures a + (b + [c]) == a + b + [c]
  {
  }

  lemma FourthTimeGenuine(w: World, calls: seq<Call>, hash: string)
    requires Genuine(w, {}, calls)
    requires forall j :: |calls| <= j < |calls| + 3 ==> w.refuse(j) == Some(LOST) && w.vanish(j) == {}
    requires w.refuse(|calls| + 3) == None && w.fail(|calls| + 3) == None && w.vanish(|calls| + 3) == {}
    ensures Genuine(w, {}, calls + FourthTime(0, hash)) && |FourthTime(0, hash)| == 4
    ensures Replay(w, {}, calls + FourthTime(0, hash)) == Replay(w, {}, calls) + {hash}
  {
    FailuresGenuine(w, calls, hash, 3);
    GenuineSnoc(w, {}, calls + Failures(0, hash, 3), Upload(0, hash, None));
    AppendLast(calls, Failures(0, hash, 3), Upload(0, hash, None));
  }

  function EightTries(f: HashedFile): Trace { AskedTwice([f], None, f.hash) }

  lemma OneRound(f: HashedFile)
    ensures RoundFor([f], f.hash) == FourthTime(0, f.hash)
  {
    OneSelected(f);
    assert FourthTimes([ToUpload(f)], 0) == [];
  }

  lemma Answers(f: HashedFile)
    ensures var w, t := Unlucky(f.hash), EightTries(f);
      Answered(w, 0, {}, t.check) && Answered(w, 5, {f.hash}, t.commit.value) &&
        Answered(w, 10, {f.hash}, t.recommit.value)
  {
    var none: set<string>, one := {}, {f.hash};
    assert none - none == none && one - one == none && one - none == one;
    OneMissing(f);
  }

  /** Up to the refused commit, which leaves no blob. */
  lemma FirstSixCalls(f: HashedFile)
    ensures var calls := [EightTries(f).check] + FourthTime(0, f.hash) + [EightTries(f).commit.value];
      |calls| == 6 && Genuine(Unlucky(f.hash), {}, calls) && Replay(Unlucky(f.hash), {}, calls) == {}
  {
    var w, t := Unlucky(f.hash), EightTries(f);
    var none: set<string>, one := {}, {f.hash};
    assert none - none == none && one - one == none && none + one == one;
    Answers(f);
    GenuineSnoc(w, {}, [], t.check);
    assert [] + [t.check] == [t.check];
    assert Replay(w, {}, [t.check]) == none;
    FourthTimeGenuine(w, [t.check], f.hash);
    GenuineSnoc(w, {}, [t.check] + FourthTime(0, f.hash), t.commit.value);
  }

  lemma EightTriesGenuine(f: HashedFile)
    ensures Genuine(Unlucky(f.hash), {}, Flatten(EightTries(f)))
  {
    var w, t, r := Unlucky(f.hash), EightTries(f), FourthTime(0, f.hash);
    var calls := [t.check] + r + [t.commit.value];
    var none: set<string>, one := {}, {f.hash};
    assert none + one == one;
    FirstSixCalls(f);
    FourthTimeGenuine(w, calls, f.hash);
    Answers(f);
    GenuineSnoc(w, {}, calls + r, t.recommit.value);
    OneRound(f);
    assert Flatten(t) == calls + r + [t.recommit.value];
  }

  lemma OneMissing(f: HashedFile)
    ensures Missing(Manifest([f]), {}) == [f.hash] && Missing(Manifest([f]), {f.hash}) == []
  {
    assert Manifest([f])[..0] == [];
  }

  lemma OneSelected(f: HashedFile)
    ensures SelectUploads([f], [f.hash]) == [ToUpload(f)]
  {
    assert [f][..0] == [];
  }

  lemma OneSize(f: HashedFile)
    ensures TotalBytes([f]) == f.size && TotalSize([ToUpload(f)]) == f.size
  {
    assert [f][..|[f]| - 1] == [] && [ToUpload(f)][..|[ToUpload(f)]| - 1] == [];
  }

  /** A push can try a blob that one scanned file holds eight times, and succeed, against a server that
      does nothing but turn uploads away and lose the blob. */
  lemma EightAttempts(f: HashedFile)
    ensures Copies([f], f.hash) == 1 && Attempts(Flatten(EightTries(f)), f.hash) == 8
    ensures Genuine(Unlucky(f.hash), {}, Flatten(EightTries(f)))
    ensures Conforms(EightTries(f), [f], None, Ok(Outcome(1, 1, f.size, 2, 2 * f.size)))
  {
    assert [f][..0] == [];
    EightTriesGenuine(f);
    AskedTwiceConforms([f], None, f.hash);
    AskedTwiceAttempts([f], None, f.hash);
    OneSelected(f);
    OneSize(f);
  }
}
