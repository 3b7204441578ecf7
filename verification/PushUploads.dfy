/** Uploading a batch of blobs, at most four at a time, each with its retries. */
module PushUploads {
  import opened Wrappers
  import opened BlobServer

  const UPLOAD_CONCURRENCY: nat := 4
  const MAX_UPLOAD_ATTEMPTS: nat := 4

  datatype BlobUpload = BlobUpload(hash: string, path: string, size: nat, relPath: string)

  /** The answers to the uploads of entry `i`, in order. */
  function Replies(w: seq<Call>, i: nat): seq<Option<ClientError>> {
    if w == [] then []
    else
      var last := w[|w| - 1];
      Replies(w[..|w| - 1], i) + if last.Upload? && last.entry == i then [last.failure] else []
  }

  lemma RepliesSnoc(w: seq<Call>, c: Call, i: nat)
    ensures Replies(w + [c], i) == if c.Upload? && c.entry == i then Replies(w, i) + [c.failure] else Replies(w, i)
  {
    assert (w + [c])[..|w|] == w;
  }

  /** Retryable failures only, with attempts left. */
  ghost predicate Going(h: seq<Option<ClientError>>) {
    |h| < MAX_UPLOAD_ATTEMPTS && forall k :: 0 <= k < |h| ==> h[k].Some? && Retryable(h[k].value)
  }

  /** The attempts at one blob: no more than four, each after the first only because the one before
      failed in a retryable way, and given up only on a fatal failure or after the fourth. */
  ghost predicate Finished(h: seq<Option<ClientError>>) {
    h != [] && Going(h[..|h| - 1])
    && var last := h[|h| - 1]; last.None? || !Retryable(last.value) || |h| == MAX_UPLOAD_ATTEMPTS
  }

  function Final(h: seq<Option<ClientError>>): Option<ClientError>
    requires h != []
  {
    h[|h| - 1]
  }

  /** Every call is an upload of the batch, and every entry is carried to its end. */
  ghost predicate Round(w: seq<Call>, uploads: seq<BlobUpload>) {
    Uploads(w, uploads, |uploads|) && forall i :: 0 <= i < |uploads| ==> Finished(Replies(w, i))
  }

  ghost predicate Uploads(w: seq<Call>, uploads: seq<BlobUpload>, next: nat)
    requires next <= |uploads|
  {
    forall k :: 0 <= k < |w| ==> w[k].Upload? && w[k].entry < next && w[k].hash == uploads[w[k].entry].hash
  }

  ghost predicate AllAccepted(w: seq<Call>, uploads: seq<BlobUpload>)
    requires Round(w, uploads)
  {
    forall i :: 0 <= i < |uploads| ==> Final(Replies(w, i)).None?
  }

  function TotalSize(uploads: seq<BlobUpload>): nat {
    if uploads == [] then 0 else TotalSize(uploads[..|uploads| - 1]) + uploads[|uploads| - 1].size
  }

  /** What the batch comes to: all the bytes, or one of the failures. */
  ghost predicate Comes(r: Result<nat, ClientError>, w: seq<Call>, uploads: seq<BlobUpload>)
    requires Round(w, uploads)
  {
    match r
    case Ok(bytes) => AllAccepted(w, uploads) && bytes == TotalSize(uploads)
    case Err(e) => exists i :: 0 <= i < |uploads| && Final(Replies(w, i)) == Some(e)
  }

  /** An entry that has started: on the way with so many attempts behind it, or done. */
  datatype Task = Running(attempt: nat) | Done(failure: Option<ClientError>)

  function CountRunning(tasks: seq<Task>): nat {
    if tasks == [] then 0
    else CountRunning(tasks[..|tasks| - 1]) + if tasks[|tasks| - 1].Running? then 1 else 0
  }

  /** The attempts that are left. */
  function Left(tasks: seq<Task>): nat {
    if tasks == [] then 0 else Left(tasks[..|tasks| - 1]) + LeftOf(tasks[|tasks| - 1])
  }

  function LeftOf(t: Task): nat {
    if t.Running? && t.attempt < MAX_UPLOAD_ATTEMPTS then MAX_UPLOAD_ATTEMPTS - t.attempt else 0
  }

  /** The bytes of the entries that are done. */
  function DoneSize(tasks: seq<Task>, uploads: seq<BlobUpload>): nat
    requires |tasks| <= |uploads|
  {
    if tasks == [] then 0
    else
      var n := |tasks| - 1;
      DoneSize(tasks[..n], uploads) + if tasks[n].Done? then uploads[n].size else 0
  }

  lemma {:induction false} Update(tasks: seq<Task>, i: nat, t: Task, uploads: seq<BlobUpload>)
    requires i < |tasks| <= |uploads|
    ensures Left(tasks[i := t]) == Left(tasks) - LeftOf(tasks[i]) + LeftOf(t)
    ensures CountRunning(tasks[i := t])
         == CountRunning(tasks) - (if tasks[i].Running? then 1 else 0) + if t.Running? then 1 else 0
    ensures DoneSize(tasks[i := t], uploads)
         == DoneSize(tasks, uploads) - (if tasks[i].Done? then uploads[i].size else 0)
           + if t.Done? then uploads[i].size else 0
  {
    var n := |tasks| - 1;
    if i == n {
      assert tasks[i := t][..n] == tasks[..n];
    } else {
      Update(tasks[..n], i, t, uploads);
      assert tasks[i := t][..n] == tasks[..n][i := t];
    }
  }

  lemma Append(tasks: seq<Task>, t: Task, uploads: seq<BlobUpload>)
    requires |tasks| < |uploads|
    ensures CountRunning(tasks + [t]) == CountRunning(tasks) + if t.Running? then 1 else 0
    ensures DoneSize(tasks + [t], uploads) == DoneSize(tasks, uploads) + if t.Done? then uploads[|tasks|].size else 0
  {
    assert (tasks + [t])[..|tasks|] == tasks;
  }

  lemma {:induction false} SomeRuns(tasks: seq<Task>)
    ensures CountRunning(tasks) > 0 <==> exists i :: 0 <= i < |tasks| && tasks[i].Running?
  {
    if tasks != [] {
      var n := |tasks| - 1;
      SomeRuns(tasks[..n]);
      assert forall i :: 0 <= i < n ==> tasks[i] == tasks[..n][i];
      if tasks[n].Running? { assert tasks[n].Running?; }
    }
  }

  /** Each task says how far the log has brought its entry. */
  ghost predicate Tracks(tasks: seq<Task>, w: seq<Call>) {
    forall i :: 0 <= i < |tasks| ==> TracksOne(tasks[i], Replies(w, i))
  }

  ghost predicate TracksOne(t: Task, h: seq<Option<ClientError>>) {
    match t
    case Running(attempt) => Going(h) && |h| == attempt
    case Done(failure) => Finished(h) && Final(h) == failure
  }

  /** The bytes of the entries named. */
  function SizeOf(done: seq<nat>, uploads: seq<BlobUpload>): nat
    requires forall k :: 0 <= k < |done| ==> done[k] < |uploads|
  {
    if done == [] then 0 else SizeOf(done[..|done| - 1], uploads) + uploads[done[|done| - 1]].size
  }

  /** `done` are the entries that are done, in the order they finished. */
  ghost predicate Finishers(done: seq<nat>, tasks: seq<Task>, uploads: seq<BlobUpload>)
    requires |tasks| <= |uploads|
  {
    && (forall k :: 0 <= k < |done| ==> done[k] < |tasks| && tasks[done[k]].Done?)
    && (forall i :: 0 <= i < |tasks| && tasks[i].Done? ==> i in done)
    && SizeOf(done, uploads) == DoneSize(tasks, uploads)
  }

  lemma NoReplies(w: seq<Call>, i: nat)
    requires forall k :: 0 <= k < |w| && w[k].Upload? ==> w[k].entry != i
    ensures Replies(w, i) == []
  {
    if w != [] {
      var front := w[..|w| - 1];
      assert forall k :: 0 <= k < |front| ==> front[k] == w[k];
      NoReplies(front, i);
    }
  }

  /** What one attempt makes of a running entry. */
  function AfterAttempt(attempt: nat, failure: Option<ClientError>): Task {
    if failure.Some? && attempt + 1 < MAX_UPLOAD_ATTEMPTS && Retryable(failure.value) then Running(attempt + 1)
    else Done(failure)
  }

  lemma AttemptTracks(h: seq<Option<ClientError>>, failure: Option<ClientError>)
    requires Going(h)
    ensures TracksOne(AfterAttempt(|h|, failure), h + [failure])
  {
    assert (h + [failure])[..|h|] == h;
  }

  lemma AttemptTracksAll(tasks: seq<Task>, w: seq<Call>, i: nat, hash: string, failure: Option<ClientError>)
    requires i < |tasks| && tasks[i].Running? && Tracks(tasks, w)
    ensures Tracks(tasks[i := AfterAttempt(tasks[i].attempt, failure)], w + [Upload(i, hash, failure)])
  {
    var t, c := AfterAttempt(tasks[i].attempt, failure), Upload(i, hash, failure);
    forall j | 0 <= j < |tasks|
      ensures TracksOne(if j == i then t else tasks[j], Replies(w + [c], j))
    {
      assert TracksOne(tasks[j], Replies(w, j));
      RepliesSnoc(w, c, j);
      if j == i { AttemptTracks(Replies(w, i), failure); }
    }
  }

  lemma FinishOne(done: seq<nat>, tasks: seq<Task>, i: nat, t: Task, uploads: seq<BlobUpload>)
    requires i < |tasks| <= |uploads| && tasks[i].Running? && Finishers(done, tasks, uploads)
    ensures Finishers(if t.Done? then done + [i] else done, tasks[i := t], uploads)
  {
    Update(tasks, i, t, uploads);
    assert (done + [i])[..|done|] == done;
  }

  /** A batch under way: the entries started, the ones done in the order they finished, and how many
      are running. */
  datatype Batch = Batch(tasks: seq<Task>, done: seq<nat>, running: nat)

  ghost predicate Consistent(b: Batch, uploads: seq<BlobUpload>, w: seq<Call>) {
    && |b.tasks| <= |uploads| && b.running == CountRunning(b.tasks) <= UPLOAD_CONCURRENCY
    && Uploads(w, uploads, |b.tasks|) && Tracks(b.tasks, w) && Finishers(b.done, b.tasks, uploads)
  }

  function Start(b: Batch): Batch { Batch(b.tasks + [Running(0)], b.done, b.running + 1) }

  function Settle(b: Batch, i: nat, failure: Option<ClientError>): Batch
    requires i < |b.tasks| && b.tasks[i].Running? && b.running > 0
  {
    var t := AfterAttempt(b.tasks[i].attempt, failure);
    if t.Done? then Batch(b.tasks[i := t], b.done + [i], b.running - 1) else b.(tasks := b.tasks[i := t])
  }

  lemma StartTracks(tasks: seq<Task>, w: seq<Call>)
    requires Tracks(tasks, w) && forall k :: 0 <= k < |w| && w[k].Upload? ==> w[k].entry != |tasks|
    ensures Tracks(tasks + [Running(0)], w)
  {
    NoReplies(w, |tasks|);
  }

  lemma StartKeeps(b: Batch, uploads: seq<BlobUpload>, w: seq<Call>)
    requires Consistent(b, uploads, w) && |b.tasks| < |uploads| && b.running < UPLOAD_CONCURRENCY
    ensures Consistent(Start(b), uploads, w)
  {
    Append(b.tasks, Running(0), uploads);
    StartTracks(b.tasks, w);
  }

  lemma SettleKeeps(b: Batch, uploads: seq<BlobUpload>, w: seq<Call>, i: nat, failure: Option<ClientError>)
    requires Consistent(b, uploads, w) && i < |b.tasks| && b.tasks[i].Running? && b.running > 0
    ensures Consistent(Settle(b, i, failure), uploads, w + [Upload(i, uploads[i].hash, failure)])
    ensures Left(Settle(b, i, failure).tasks) < Left(b.tasks)
  {
    AttemptTracksAll(b.tasks, w, i, uploads[i].hash, failure);
    FinishOne(b.done, b.tasks, i, AfterAttempt(b.tasks[i].attempt, failure), uploads);
    Update(b.tasks, i, AfterAttempt(b.tasks[i].attempt, failure), uploads);
    LeftOfRunning(b, w, i);
    UploadsSnoc(w, uploads, |b.tasks|, i, failure);
  }

  lemma UploadsSnoc(w: seq<Call>, uploads: seq<BlobUpload>, next: nat, i: nat, failure: Option<ClientError>)
    requires i < next <= |uploads| && Uploads(w, uploads, next)
    ensures Uploads(w + [Upload(i, uploads[i].hash, failure)], uploads, next)
  {
  }

  lemma LeftOfRunning(b: Batch, w: seq<Call>, i: nat)
    requires Tracks(b.tasks, w) && i < |b.tasks| && b.tasks[i].Running?
    ensures LeftOf(AfterAttempt(b.tasks[i].attempt, None)) == 0 < LeftOf(b.tasks[i])
    ensures forall f :: LeftOf(AfterAttempt(b.tasks[i].attempt, f)) < LeftOf(b.tasks[i])
  {
    assert TracksOne(b.tasks[i], Replies(w, i));
  }

  /** One attempt of some running entry. */
  method Attempt(server: Server, b: Batch, uploads: seq<BlobUpload>, ghost w: seq<Call>)
    returns (next: Batch, ghost c: Call)
    requires server.Valid() && Consistent(b, uploads, w) && b.running > 0
    modifies server
    ensures server.Valid() && server.calls == old(server.calls) + [c]
    ensures Consistent(next, uploads, w + [c]) && |next.tasks| == |b.tasks| && Left(next.tasks) < Left(b.tasks)
  {
    SomeRuns(b.tasks);
    var i :| 0 <= i < |b.tasks| && b.tasks[i].Running?;
    var failure := server.UploadBlob(i, uploads[i].hash);
    SettleKeeps(b, uploads, w, i, failure);
    c := Upload(i, uploads[i].hash, failure);
    next := Settle(b, i, failure);
  }

  lemma NothingStarted(uploads: seq<BlobUpload>)
    ensures Consistent(Batch([], [], 0), uploads, [])
  {
  }

  /** Starts the next entry while fewer than four run, and makes some running entry's attempt otherwise. */
  method Progress(server: Server, b: Batch, uploads: seq<BlobUpload>, ghost w: seq<Call>)
    returns (next: Batch, ghost more: seq<Call>)
    requires server.Valid() && Consistent(b, uploads, w) && (|b.tasks| < |uploads| || b.running > 0)
    modifies server
    ensures server.Valid() && server.calls == old(server.calls) + more && Consistent(next, uploads, w + more)
    ensures |b.tasks| < |next.tasks| || (|b.tasks| == |next.tasks| && Left(next.tasks) < Left(b.tasks))
  {
    more := [];
    if |b.tasks| < |uploads| && b.running < UPLOAD_CONCURRENCY {
      StartKeeps(b, uploads, w);
      next := Start(b);
      assert w + more == w;
    } else {
      ghost var c;
      next, c := Attempt(server, b, uploads, w);
      more := [c];
    }
  }

  lemma LogGrows(log: seq<Call>, w: seq<Call>, more: seq<Call>)
    ensures log + w + more == log + (w + more)
  {
  }

  method RunBatch(server: Server, uploads: seq<BlobUpload>) returns (b: Batch, ghost w: seq<Call>)
    requires server.Valid()
    modifies server
    ensures server.Valid() && server.calls == old(server.calls) + w
    ensures Consistent(b, uploads, w) && |b.tasks| == |uploads| && b.running == 0
  {
    b, w := Batch([], [], 0), [];
    NothingStarted(uploads);
    while |b.tasks| < |uploads| || b.running > 0
      invariant Consistent(b, uploads, w)
      invariant server.Valid() && server.calls == old(server.calls) + w
      decreases |uploads| - |b.tasks|, Left(b.tasks)
    {
      ghost var more;
      b, more := Progress(server, b, uploads, w);
      LogGrows(old(server.calls), w, more);
      w := w + more;
    }
  }

  /** All uploads of a batch. Up to four run at once, and any of those may make the next attempt; the
      rest go on when one fails, and only at the end does the first failure count. */
  method UploadMissing(server: Server, uploads: seq<BlobUpload>)
    returns (r: Result<nat, ClientError>, ghost w: seq<Call>)
    requires server.Valid()
    modifies server
    ensures server.Valid() && server.calls == old(server.calls) + w
    ensures Round(w, uploads) && Comes(r, w, uploads)
  {
    var b;
    b, w := RunBatch(server, uploads);
    r := Tally(b, uploads, w);
  }

  lemma BatchOver(b: Batch, uploads: seq<BlobUpload>, w: seq<Call>)
    requires Consistent(b, uploads, w) && |b.tasks| == |uploads| && b.running == 0
    ensures Round(w, uploads) && SizeOf(b.done, uploads) == TotalSize(uploads)
    ensures forall i :: 0 <= i < |uploads| ==>
      b.tasks[i].Done? && i in b.done && Final(Replies(w, i)) == b.tasks[i].failure
  {
    SomeRuns(b.tasks);
    AllDone(b.tasks, uploads);
    assert uploads[..|uploads|] == uploads;
    assert forall i :: 0 <= i < |uploads| ==> TracksOne(b.tasks[i], Replies(w, i));
  }

  /** Adds up the sizes in the order the entries finished; the first failure ends it. */
  method Tally(b: Batch, uploads: seq<BlobUpload>, ghost w: seq<Call>) returns (r: Result<nat, ClientError>)
    requires Consistent(b, uploads, w) && |b.tasks| == |uploads| && b.running == 0
    ensures Round(w, uploads) && Comes(r, w, uploads)
  {
    BatchOver(b, uploads, w);
    r := Sum(b, uploads);
  }

  /** The fold over the results. */
  method Sum(b: Batch, uploads: seq<BlobUpload>) returns (r: Result<nat, ClientError>)
    requires |b.tasks| == |uploads|
    requires forall k :: 0 <= k < |b.done| ==> b.done[k] < |b.tasks| && b.tasks[b.done[k]].Done?
    ensures r.Ok? ==> r.value == SizeOf(b.done, uploads) && forall i :: i in b.done ==> b.tasks[i].failure.None?
    ensures r.Err? ==> exists i :: 0 <= i < |uploads| && b.tasks[i].Done? && b.tasks[i].failure == Some(r.error)
  {
    var bytes := 0;
    for k := 0 to |b.done|
      invariant bytes == SizeOf(b.done[..k], uploads)
      invariant forall j :: 0 <= j < k ==> b.tasks[b.done[j]].failure.None?
    {
      var failure := b.tasks[b.done[k]].failure;
      if failure.Some? {
        return Err(failure.value);
      }
      assert b.done[..k + 1][..k] == b.done[..k];
      bytes := bytes + uploads[b.done[k]].size;
    }
    assert b.done[..|b.done|] == b.done;
    r := Ok(bytes);
  }

  lemma {:induction false} AllDone(tasks: seq<Task>, uploads: seq<BlobUpload>)
    requires |tasks| <= |uploads| && forall i :: 0 <= i < |tasks| ==> tasks[i].Done?
    ensures DoneSize(tasks, uploads) == TotalSize(uploads[..|tasks|])
  {
    if tasks != [] {
      AllDone(tasks[..|tasks| - 1], uploads);
      assert uploads[..|tasks|][..|tasks| - 1] == uploads[..|tasks| - 1];
    }
  }
}
