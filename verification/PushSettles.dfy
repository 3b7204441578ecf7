/** When a push succeeds although blobs may vanish. */
module PushSettles {
  import opened Wrappers
  import opened BlobServer
  import opened PushUploads
  import opened Push
  import opened PushRuns

  lemma GenuinePrefix(w: World, initial: set<string>, calls: seq<Call>, n: nat)
    requires Genuine(w, initial, calls) && n <= |calls|
    ensures Genuine(w, initial, calls[..n])
    ensures n < |calls| ==> Answered(w, n, Replay(w, initial, calls[..n]), calls[n])
  {
    forall k | 0 <= k < n ensures Answered(w, k, Replay(w, initial, calls[..n][..k]), calls[..n][k]) {
      assert calls[..n][..k] == calls[..k];
    }
  }

  lemma GenuineAt(w: World, initial: set<string>, before: seq<Call>, c: Call, later: seq<Call>)
    requires Genuine(w, initial, before + [c] + later)
    ensures Genuine(w, initial, before) && Answered(w, |before|, Replay(w, initial, before), c)
    ensures Genuine(w, initial, before + [c])
    ensures Replay(w, initial, before + [c]) == After(w, |before|, Replay(w, initial, before), c)
  {
    var all := before + [c] + later;
    GenuinePrefix(w, initial, all, |before| + 1);
    assert all[..|before| + 1] == before + [c];
    GenuineLast(w, initial, before, c);
  }

  /** The server answers the call by the blobs alone. */
  ghost predicate Willing(w: World, k: nat) { w.refuse(k).None? && w.fail(k).None? }

  /** A commit that is not otherwise refused goes through exactly when all its blobs are there. */
  lemma CommitNeedsBlobs(w: World, k: nat, files: seq<FileEntry>, blobs: set<string>)
    requires Willing(w, k)
    ensures CommitReply(w, k, files, blobs).Ok? <==> Hashes(files) <= blobs - w.vanish(k)
    ensures var r := CommitReply(w, k, files, blobs);
      r.Err? ==> AsksAgain(r) && forall h :: h in Asked(r) <==> h in Hashes(files) && h !in blobs - w.vanish(k)
  {
    var there := blobs - w.vanish(k);
    var missing := Missing(files, there);
    forall h ensures h in missing <==> h in Hashes(files) && h !in there {
      MissingIs(files, there, h);
    }
    if missing != [] { assert missing[0] in missing; }
  }

  /** A blob that was asked for again is there once the retry's uploads are accepted. */
  lemma AskedArrives(second: seq<Call>, hashed: seq<HashedFile>, asked: seq<string>, blobs: set<string>, h: string)
    requires Round(second, SelectUploads(hashed, asked)) && AllAccepted(second, SelectUploads(hashed, asked))
    requires Arrived(second, Hashes(Manifest(hashed)), blobs)
    requires h in asked && h in Hashes(Manifest(hashed))
    ensures h in blobs
  {
    var i :| 0 <= i < |Manifest(hashed)| && Manifest(hashed)[i].hash == h;
    var k := WantedIsSelected(hashed, asked, i);
    assert Finished(Replies(second, k)) && Final(Replies(second, k)).None?;
    var m := LastAttempt(second, SelectUploads(hashed, asked), k);
    assert second[m].hash == h;
  }

  /** After the retry's uploads the whole manifest is there, if nothing of it vanished since the first
      commit. */
  lemma RetryCompletes(w: World, initial: set<string>, before: seq<Call>, commit: Call, second: seq<Call>,
                       hashed: seq<HashedFile>)
    requires Genuine(w, initial, before + [commit] + second) && Willing(w, |before|)
    requires commit.Commit? && commit.files == Manifest(hashed) && AsksAgain(commit.number)
    requires Round(second, SelectUploads(hashed, Asked(commit.number)))
    requires AllAccepted(second, SelectUploads(hashed, Asked(commit.number)))
    requires KeepsFrom(w, Hashes(Manifest(hashed)), |before| + 1)
    ensures Hashes(Manifest(hashed)) <= Replay(w, initial, before + [commit] + second)
  {
    var blobs := Replay(w, initial, before + [commit] + second);
    GenuineAt(w, initial, before, commit, second);
    CommitNeedsBlobs(w, |before|, commit.files, Replay(w, initial, before));
    NothingVanishes(w, initial, before + [commit], second, Hashes(Manifest(hashed)));
    forall h | h in Hashes(Manifest(hashed)) ensures h in blobs {
      if h in Asked(commit.number) {
        AskedArrives(second, hashed, Asked(commit.number), blobs, h);
      }
    }
  }

  /** The push ended because of this failed upload. */
  ghost predicate EndedBy(w: seq<Call>, out: Result<Outcome, PushError>) {
    out.Err? && out.error.Failed? && exists k :: 0 <= k < |w| && w[k].Upload? && w[k].failure == Some(out.error.error)
  }

  lemma RoundFailure(w: seq<Call>, uploads: seq<BlobUpload>, out: Result<Outcome, PushError>)
    requires Round(w, uploads) && EndsWith(w, uploads, out)
    ensures EndedBy(w, out)
  {
    var i :| 0 <= i < |uploads| && Final(Replies(w, i)) == Some(out.error.error);
    var m := LastAttempt(w, uploads, i);
  }

  /** The retried commit decides the push: it goes through exactly when the whole manifest is there. */
  lemma RetryDecides(w: World, initial: set<string>, before: seq<Call>, t: Trace, hashed: seq<HashedFile>,
                     parent: Option<int>, out: Result<Outcome, PushError>)
    requires Genuine(w, initial, before + Listed(t.recommit)) && t.recommit.Some? && Willing(w, |before|)
    requires Conforms(t, hashed, parent, out)
    ensures out.Ok? <==> Hashes(Manifest(hashed)) <= Replay(w, initial, before) - w.vanish(|before|)
  {
    Rounds(t, hashed, parent, out);
    GenuineLast(w, initial, before, t.recommit.value);
    CommitNeedsBlobs(w, |before|, Manifest(hashed), Replay(w, initial, before));
  }

  /** How the log of a push splits at its commits. */
  lemma Splits(base: seq<Call>, t: Trace)
    requires t.commit.Some?
    ensures var before := base + [t.check] + t.first;
      base + Flatten(t) == before + [t.commit.value] + t.second + Listed(t.recommit)
  {
  }

  /** If the server refuses no check and no commit for any other reason, and no blob of the manifest
      vanishes after the first commit, then only a failed upload can make the push fail. */
  lemma SettledPush(w: World, initial: set<string>, base: seq<Call>, t: Trace, hashed: seq<HashedFile>,
                    parent: Option<int>, out: Result<Outcome, PushError>)
    requires Genuine(w, initial, base + Flatten(t)) && Conforms(t, hashed, parent, out)
    requires Willing(w, |base|) && Willing(w, |base| + 1 + |t.first|) && Willing(w, |base| + 2 + |t.first| + |t.second|)
    requires KeepsFrom(w, Hashes(Manifest(hashed)), |base| + 2 + |t.first|)
    ensures out.Ok? || EndedBy(t.first, out) || EndedBy(t.second, out)
  {
    CheckAnswers(w, initial, base, t);
    if t.commit.None? {
      RoundFailure(t.first, SelectUploads(hashed, t.check.reply.value), out);
    } else {
      Rounds(t, hashed, parent, out);
      Splits(base, t);
      SettledCommit(w, initial, base + [t.check] + t.first, t, hashed, parent, out);
    }
  }

  lemma CheckAnswers(w: World, initial: set<string>, base: seq<Call>, t: Trace)
    requires Genuine(w, initial, base + Flatten(t)) && Willing(w, |base|) && t.check.Check?
    ensures t.check.reply.Ok?
  {
    Places(t);
    GenuinePrefix(w, initial, base + Flatten(t), |base|);
  }

  lemma SettledCommit(w: World, initial: set<string>, before: seq<Call>, t: Trace, hashed: seq<HashedFile>,
                      parent: Option<int>, out: Result<Outcome, PushError>)
    requires Conforms(t, hashed, parent, out) && IsCommit(t.commit, hashed, parent)
    requires Genuine(w, initial, before + [t.commit.value] + t.second + Listed(t.recommit))
    requires Willing(w, |before|) && Willing(w, |before| + 1 + |t.second|)
    requires KeepsFrom(w, Hashes(Manifest(hashed)), |before| + 1)
    ensures out.Ok? || EndedBy(t.second, out)
  {
    var again := before + [t.commit.value] + t.second;
    GenuinePrefix(w, initial, again + Listed(t.recommit), |again|);
    assert (again + Listed(t.recommit))[..|again|] == again;
    FirstAnswer(w, initial, before, t, hashed);
    if t.recommit.Some? {
      RetrySettles(w, initial, before, t, hashed, parent, out);
    } else if AsksAgain(t.commit.value.number) {
      RoundFailure(t.second, SelectUploads(hashed, Asked(t.commit.value.number)), out);
    }
  }

  lemma FirstAnswer(w: World, initial: set<string>, before: seq<Call>, t: Trace, hashed: seq<HashedFile>)
    requires t.commit.Some? && t.commit.value.Commit? && t.commit.value.files == Manifest(hashed)
    requires Genuine(w, initial, before + [t.commit.value] + t.second) && Willing(w, |before|)
    ensures t.commit.value.number.Ok? || AsksAgain(t.commit.value.number)
  {
    GenuineAt(w, initial, before, t.commit.value, t.second);
    CommitNeedsBlobs(w, |before|, Manifest(hashed), Replay(w, initial, before));
  }

  lemma RetrySettles(w: World, initial: set<string>, before: seq<Call>, t: Trace, hashed: seq<HashedFile>,
                     parent: Option<int>, out: Result<Outcome, PushError>)
    requires Conforms(t, hashed, parent, out) && t.recommit.Some? && IsCommit(t.commit, hashed, parent)
    requires Genuine(w, initial, before + [t.commit.value] + t.second + Listed(t.recommit))
    requires Genuine(w, initial, before + [t.commit.value] + t.second)
    requires Willing(w, |before|) && Willing(w, |before| + 1 + |t.second|)
    requires KeepsFrom(w, Hashes(Manifest(hashed)), |before| + 1)
    ensures out.Ok?
  {
    var again := before + [t.commit.value] + t.second;
    SecondRound(t, hashed, parent, out);
    RetryCompletes(w, initial, before, t.commit.value, t.second, hashed);
    RetryDecides(w, initial, again, t, hashed, parent, out);
    assert w.vanish(|again|) !! Hashes(Manifest(hashed));
  }
}
