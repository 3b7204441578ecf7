/** Where the event of a push ends up, over every run of the live feed. */
module EventStream {
  import opened Wrappers
  import opened SessionStore
  import opened EventFeed

  /** Step `t` put an event into the history of an existing session. */
  ghost predicate Stored(steps: seq<Step>, t: nat) {
    t < |steps| && steps[t] == Insert && Run(steps[..t]).history.Some?
  }

  /** The inserts after step `t`. */
  function Newer(steps: seq<Step>, t: nat): nat {
    if |steps| <= t + 1 then 0
    else Newer(steps[..|steps| - 1], t) + if steps[|steps| - 1] == Insert then 1 else 0
  }

  /** `step` happens strictly after `t`. */
  ghost predicate Since(steps: seq<Step>, t: nat, step: Step) {
    exists k :: t < k < |steps| && steps[k] == step
  }

  /** The history of a run: each stored event, at the place given by the number of newer ones, until
      the hundredth newer one or a reset. */
  lemma {:induction false} HistoryAt(steps: seq<Step>, t: nat, j: nat)
    ensures (Run(steps).history.Some? && j < |Run(steps).history.value| && Run(steps).history.value[j] == t)
       <==> (Stored(steps, t) && !Since(steps, t, ClearSessions) && Newer(steps, t) == j && j < 100)
  {
    if steps != [] {
      var n := |steps| - 1;
      var front, last := steps[..n], steps[n];
      assert t < n ==> front[..t] == steps[..t];
      if t < n { SinceFront(steps, t, ClearSessions); }
      if last == Insert {
        if j > 0 { HistoryAt(front, t, j - 1); }
      } else {
        HistoryAt(front, t, j);
      }
    }
  }

  lemma SinceFront(steps: seq<Step>, t: nat, step: Step)
    requires t < |steps| - 1
    ensures Since(steps, t, step) <==> Since(steps[..|steps| - 1], t, step) || steps[|steps| - 1] == step
  {
    var front := steps[..|steps| - 1];
    if Since(front, t, step) {
      var k :| t < k < |front| && front[k] == step;
      assert steps[k] == step;
    }
    if Since(steps, t, step) && steps[|steps| - 1] != step {
      var k :| t < k < |steps| && steps[k] == step;
      assert front[k] == step;
    }
  }

  ghost predicate Sent(steps: seq<Step>, t: nat) { exists k :: 0 <= k < |steps| && steps[k] == Send(t) }

  lemma SentFront(steps: seq<Step>, t: nat)
    requires steps != []
    ensures Sent(steps, t) <==> Sent(steps[..|steps| - 1], t) || steps[|steps| - 1] == Send(t)
  {
    var front := steps[..|steps| - 1];
    if Sent(front, t) {
      var k :| 0 <= k < |front| && front[k] == Send(t);
      assert steps[k] == Send(t);
    }
    if Sent(steps, t) && steps[|steps| - 1] != Send(t) {
      var k :| 0 <= k < |steps| && steps[k] == Send(t);
      assert front[k] == Send(t);
    }
  }

  lemma StoredFront(steps: seq<Step>, t: nat)
    requires t < |steps| - 1
    ensures Stored(steps, t) <==> Stored(steps[..|steps| - 1], t)
  {
    assert steps[..|steps| - 1][..t] == steps[..t];
  }

  /** A push is in flight from its insert to its one send. */
  lemma {:induction false} InFlightUntilSent(steps: seq<Step>, t: nat)
    requires Legal(steps)
    ensures t in Run(steps).inFlight <==> Stored(steps, t) && !Sent(steps, t)
    ensures Sent(steps, t) ==> Stored(steps, t)
  {
    if steps != [] {
      LegalFront(steps);
      InFlightUntilSent(steps[..|steps| - 1], t);
      if t < |steps| - 1 { StoredFront(steps, t); }
      SentFront(steps, t);
    }
  }

  lemma StaysNext(s: State, step: Step, now: nat)
    requires Enabled(s, step) && s.feed.Some?
    ensures Next(s, step, now).feed.Some?
    ensures Next(s, step, now).feed.value.attached <==> s.feed.value.attached && step != ClearChannels
  {
  }

  ghost predicate Attached(steps: seq<Step>, a: nat) {
    Run(steps).feed.Some? && (Run(steps).feed.value.attached <==> !Since(steps, a, ClearChannels))
  }

  /** Once it has subscribed, the client stays so, on a live channel until a reset clears it. */
  lemma {:induction false} StaysSubscribed(steps: seq<Step>, a: nat)
    requires Legal(steps) && a < |steps| && steps[a] == Subscribe
    ensures Attached(steps, a)
  {
    if a < |steps| - 1 {
      LegalFront(steps);
      StaysSubscribed(steps[..|steps| - 1], a);
      StaysOn(steps, a);
    } else {
      Attaches(steps);
    }
  }

  lemma Attaches(steps: seq<Step>)
    requires steps != [] && steps[|steps| - 1] == Subscribe
    ensures Attached(steps, |steps| - 1)
  {
  }

  lemma StaysOn(steps: seq<Step>, a: nat)
    requires a < |steps| - 1 && Attached(steps[..|steps| - 1], a)
    requires Enabled(Run(steps[..|steps| - 1]), steps[|steps| - 1])
    ensures Attached(steps, a)
  {
    StaysNext(Run(steps[..|steps| - 1]), steps[|steps| - 1], |steps| - 1);
    SinceFront(steps, a, ClearChannels);
  }

  /** The client reads the history only after it has subscribed. */
  lemma {:induction false} FeedNeedsSubscribe(steps: seq<Step>)
    requires Run(steps).feed.Some?
    ensures exists a :: 0 <= a < |steps| && steps[a] == Subscribe
  {
    if steps[|steps| - 1] != Subscribe {
      FeedNeedsSubscribe(steps[..|steps| - 1]);
      var a :| 0 <= a < |steps| - 1 && steps[..|steps| - 1][a] == Subscribe;
      assert steps[a] == Subscribe;
    }
  }

  lemma LegalPrefix(steps: seq<Step>, n: nat)
    requires Legal(steps) && n <= |steps|
    ensures Legal(steps[..n]) && (n < |steps| ==> Enabled(Run(steps[..n]), steps[n]))
  {
    forall k | 0 <= k < n ensures Enabled(Run(steps[..n][..k]), steps[..n][k]) {
      assert steps[..n][..k] == steps[..k];
    }
  }

  lemma SubscribeBeforeSnapshot(steps: seq<Step>, a: nat, b: nat)
    requires Legal(steps) && a < |steps| && b < |steps| && steps[a] == Subscribe && steps[b] == Snapshot
    ensures a < b
  {
    LegalPrefix(steps, a);
    LegalPrefix(steps, b);
    FeedNeedsSubscribe(steps[..b]);
    var c :| 0 <= c < b && steps[..b][c] == Subscribe;
    if b < a {
      StaysSubscribed(steps[..a], c);
    }
  }

  lemma SnapshotStays(s: State, step: Step, now: nat)
    requires Enabled(s, step) && s.feed.Some? && s.feed.value.snapshot.Some?
    ensures Next(s, step, now).feed.Some? && Next(s, step, now).feed.value.snapshot == s.feed.value.snapshot
  {
  }

  /** The snapshot is the history as it was at the client's `Snapshot`. */
  lemma {:induction false} SnapshotIsHistory(steps: seq<Step>, b: nat)
    requires Legal(steps) && b < |steps| && steps[b] == Snapshot
    ensures Run(steps).feed.Some? && Run(steps).feed.value.snapshot == Some(GetOr(Run(steps[..b]).history, []))
  {
    var n := |steps| - 1;
    LegalFront(steps);
    if b < n {
      SnapshotIsHistory(steps[..n], b);
      SnapshotStays(Run(steps[..n]), steps[n], n);
      assert steps[..n][..b] == steps[..b];
    }
  }

  /** Step `s` sends the push `t` to a client that subscribed at `a`. */
  ghost predicate SentTo(steps: seq<Step>, a: nat, s: nat, t: nat) {
    a < s < |steps| && steps[s] == Send(t) && !Since(steps[..s], a, ClearChannels)
  }

  /** Some step sends `t` to the client that subscribed at `a`. */
  ghost predicate Heard(steps: seq<Step>, a: nat, t: nat) { exists s :: SentTo(steps, a, s, t) }

  lemma HeardFront(steps: seq<Step>, a: nat, t: nat)
    requires a < |steps| - 1
    ensures Heard(steps, a, t) <==> Heard(steps[..|steps| - 1], a, t) || SentTo(steps, a, |steps| - 1, t)
  {
    var front := steps[..|steps| - 1];
    forall s | 0 <= s < |front| ensures SentTo(steps, a, s, t) <==> SentTo(front, a, s, t) {
      assert front[..s] == steps[..s];
    }
  }

  lemma SentGrows(s: State, step: Step, now: nat, t: nat)
    requires Enabled(s, step) && s.feed.Some?
    ensures Next(s, step, now).feed.Some?
    ensures t in Next(s, step, now).feed.value.sent
       <==> t in s.feed.value.sent || (step == Send(t) && s.feed.value.attached)
  {
  }

  lemma NewChannel(steps: seq<Step>, t: nat)
    requires steps != [] && steps[|steps| - 1] == Subscribe
    ensures Run(steps).feed == Some(Feed(true, None, [], 0, [], false)) && !Heard(steps, |steps| - 1, t)
  {
  }

  ghost predicate Carries(steps: seq<Step>, a: nat, t: nat) {
    Run(steps).feed.Some? && (t in Run(steps).feed.value.sent <==> Heard(steps, a, t))
  }

  /** The channel carries exactly what was sent since the subscription. */
  lemma {:induction false} ChannelCarries(steps: seq<Step>, a: nat, t: nat)
    requires Legal(steps) && a < |steps| && steps[a] == Subscribe
    ensures Carries(steps, a, t)
  {
    if a == |steps| - 1 {
      NewChannel(steps, t);
    } else {
      LegalFront(steps);
      ChannelCarries(steps[..|steps| - 1], a, t);
      CarriesOn(steps, a, t);
    }
  }

  lemma CarriesOn(steps: seq<Step>, a: nat, t: nat)
    requires a < |steps| - 1 && steps[a] == Subscribe && Legal(steps[..|steps| - 1])
    requires Enabled(Run(steps[..|steps| - 1]), steps[|steps| - 1]) && Carries(steps[..|steps| - 1], a, t)
    ensures Carries(steps, a, t)
  {
    var front, last := steps[..|steps| - 1], steps[|steps| - 1];
    StaysSubscribed(front, a);
    SentGrows(Run(front), last, |front|, t);
    HeardGrows(steps, a, t);
  }

  lemma HeardGrows(steps: seq<Step>, a: nat, t: nat)
    requires a < |steps| - 1
    ensures Heard(steps, a, t) <==>
      Heard(steps[..|steps| - 1], a, t) ||
        (steps[|steps| - 1] == Send(t) && !Since(steps[..|steps| - 1], a, ClearChannels))
  {
    HeardFront(steps, a, t);
  }

  /** Every push in flight, or carried by the channel, is from an earlier step than `now`; the channel
      repeats nothing; a client that never had to skip has every event up to its position; and only
      more than a channelful can make it skip. */
  ghost predicate Sound(s: State, now: nat) {
    && (forall t :: t in s.inFlight ==> t < now)
    && (s.feed.Some? ==>
        var f := s.feed.value;
        && (forall i :: 0 <= i < |f.sent| ==> f.sent[i] < now && f.sent[i] !in s.inFlight)
        && (forall i, j :: 0 <= i < j < |f.sent| ==> f.sent[i] != f.sent[j])
        && f.position <= |f.sent| && (f.lagged ==> |f.sent| > EVENT_CHANNEL_CAP)
        && (!f.lagged ==> f.delivered == f.sent[..f.position]))
  }

  lemma SoundNext(s: State, step: Step, now: nat)
    requires Sound(s, now) && Enabled(s, step)
    ensures Sound(Next(s, step, now), now + 1)
  {
  }

  lemma {:induction false} AlwaysSound(steps: seq<Step>)
    requires Legal(steps)
    ensures Sound(Run(steps), |steps|)
  {
    if steps != [] {
      var n := |steps| - 1;
      LegalFront(steps);
      AlwaysSound(steps[..n]);
      SoundNext(Run(steps[..n]), steps[n], n);
    }
  }

  /** A push that is sent was stored before, and was not sent before. */
  lemma SentOnce(steps: seq<Step>, s: nat, t: nat)
    requires Legal(steps) && s < |steps| && steps[s] == Send(t)
    ensures t < s && Stored(steps, t) && forall k :: 0 <= k < s ==> steps[k] != Send(t)
  {
    LegalPrefix(steps, s);
    InFlightUntilSent(steps[..s], t);
    assert steps[..s][..t] == steps[..t];
    assert forall k :: 0 <= k < s ==> steps[k] == steps[..s][k];
  }

  lemma HeardWhenSent(steps: seq<Step>, a: nat, s: nat, t: nat)
    requires Legal(steps) && s < |steps| && steps[s] == Send(t)
    ensures Heard(steps, a, t) <==> a < s && !Since(steps[..s], a, ClearChannels)
  {
    if Heard(steps, a, t) {
      var k :| SentTo(steps, a, k, t);
      SentOnce(steps, k, t);
      SentOnce(steps, s, t);
    } else {
      assert !SentTo(steps, a, s, t);
    }
  }

  lemma InSnapshot(steps: seq<Step>, b: nat, t: nat)
    requires b < |steps| && Stored(steps, t)
    ensures t in GetOr(Run(steps[..b]).history, [])
       <==> t < b && !Since(steps[..b], t, ClearSessions) && Newer(steps[..b], t) < 100
  {
    var h := Run(steps[..b]).history;
    assert t < b ==> steps[..b][..t] == steps[..t];
    HistoryAt(steps[..b], t, Newer(steps[..b], t));
    if h.Some? && t in h.value {
      var j :| 0 <= j < |h.value| && h.value[j] == t;
      HistoryAt(steps[..b], t, j);
    }
  }

  /** Where the event of push `t`, sent at `s`, reaches the client that subscribed at `a` and read the
      history at `b`: in the snapshot exactly when it was inserted by then, with fewer than a hundred
      newer ones and no reset between; in the channel exactly when it was sent after the subscription. */
  lemma WhereAnEventArrives(steps: seq<Step>, a: nat, b: nat, s: nat, t: nat)
    requires Legal(steps) && a < |steps| && b < |steps| && s < |steps|
    requires steps[a] == Subscribe && steps[b] == Snapshot && steps[s] == Send(t)
    ensures a < b && t < s && Run(steps).feed.Some? && Run(steps).feed.value.snapshot.Some?
    ensures t in Run(steps).feed.value.snapshot.value
       <==> t < b && !Since(steps[..b], t, ClearSessions) && Newer(steps[..b], t) < 100
    ensures t in Run(steps).feed.value.sent <==> a < s && !Since(steps[..s], a, ClearChannels)
  {
    SubscribeBeforeSnapshot(steps, a, b);
    SentOnce(steps, s, t);
    SnapshotIsHistory(steps, b);
    InSnapshot(steps, b, t);
    ChannelCarries(steps, a, t);
    HeardWhenSent(steps, a, s, t);
  }

  lemma SinceMeansSome(steps: seq<Step>, n: nat, t: nat, step: Step)
    requires n <= |steps| && step !in steps
    ensures !Since(steps[..n], t, step)
  {
    assert forall k :: 0 <= k < n ==> steps[..n][k] == steps[k];
  }

  /** No event is lost: without a reset, the only event that a client sees neither in its snapshot nor
      in its channel was sent before the subscription and has a hundred newer ones. It sees one twice
      exactly when the event was inserted before the snapshot and sent after the subscription. */
  lemma NoLostEvent(steps: seq<Step>, a: nat, b: nat, s: nat, t: nat)
    requires Legal(steps) && a < |steps| && b < |steps| && s < |steps|
    requires steps[a] == Subscribe && steps[b] == Snapshot && steps[s] == Send(t)
    requires ClearSessions !in steps && ClearChannels !in steps
    ensures Run(steps).feed.Some? && Run(steps).feed.value.snapshot.Some?
    ensures var f := Run(steps).feed.value;
      && (t !in f.snapshot.value && t !in f.sent <==> s < a && Newer(steps[..b], t) >= 100)
      && (t in f.snapshot.value && t in f.sent <==> t < b && a < s && Newer(steps[..b], t) < 100)
  {
    WhereAnEventArrives(steps, a, b, s, t);
    SinceMeansSome(steps, b, t, ClearSessions);
    SinceMeansSome(steps, s, a, ClearChannels);
    if !(t < b) { NewerThanLater(steps[..b], t); }
  }

  lemma NewerThanLater(steps: seq<Step>, t: nat)
    requires |steps| <= t
    ensures Newer(steps, t) == 0
  {
  }

  /** A client that has polled until nothing is left has heard all its channel carried, each event
      once and in order, unless it fell more than a channelful behind. */
  lemma DrainedFeedIsComplete(steps: seq<Step>)
    requires Legal(steps) && Run(steps).feed.Some?
    ensures var f := Run(steps).feed.value;
      && (forall i, j :: 0 <= i < j < |f.sent| ==> f.sent[i] != f.sent[j])
      && (f.position == |f.sent| && !f.lagged ==> f.delivered == f.sent)
      && (|f.sent| <= 64 ==> !f.lagged)
  {
    AlwaysSound(steps);
  }

  /** From place `q` on the client has heard everything up to its position, last of all; and `q` leaves the
      channel's last 64 events to be heard, or is the start. */
  ghost predicate HearsFrom(f: Feed, q: nat) {
    && q <= f.position <= |f.sent| && (q == 0 || q + 64 <= |f.sent|)
    && f.position - q <= |f.delivered| && f.delivered[|f.delivered| - (f.position - q)..] == f.sent[q..f.position]
  }

  lemma PollHears(f: Feed, q: nat) returns (r: nat)
    requires HearsFrom(f, q)
    ensures HearsFrom(Poll(f), r)
  {
    r := q;
    if |f.sent| > f.position + 64 {
      r := |f.sent| - 64;
    } else if f.position < |f.sent| {
      assert f.sent[q..f.position + 1] == f.sent[q..f.position] + [f.sent[f.position]];
    }
  }

  lemma {:induction false} AlwaysHears(steps: seq<Step>) returns (q: nat)
    requires Legal(steps) && Run(steps).feed.Some?
    ensures HearsFrom(Run(steps).feed.value, q)
  {
    LegalFront(steps);
    var was, step := Run(steps[..|steps| - 1]), steps[|steps| - 1];
    q := 0;
    if was.feed.Some? {
      q := AlwaysHears(steps[..|steps| - 1]);
      if step.Receive? { q := PollHears(was.feed.value, q); }
    }
  }

  /** However often it fell behind, a client that has polled until nothing is left has heard, last and in
      order, the last 64 events of its channel, or all of fewer. */
  lemma DrainedFeedHasTheLast(steps: seq<Step>)
    requires Legal(steps) && Run(steps).feed.Some? && Run(steps).feed.value.position == |Run(steps).feed.value.sent|
    ensures var f := Run(steps).feed.value;
      var n := if |f.sent| < 64 then |f.sent| else 64;
      n <= |f.delivered| && f.delivered[|f.delivered| - n..] == f.sent[|f.sent| - n..]
  {
    var q := AlwaysHears(steps);
    var f := Run(steps).feed.value;
    var n := if |f.sent| < 64 then |f.sent| else 64;
    var t := f.sent[q..];
    assert f.sent[q..f.position] == t;
    assert f.delivered[|f.delivered| - n..] == f.delivered[|f.delivered| - |t|..][|t| - n..];
    assert f.sent[|f.sent| - n..] == t[|t| - n..];
  }
}
