/** The live event feed of one session: pushes from any number of handlers, interleaved with one
    client that subscribes and then reads the history. A push is named by the position of its insert
    in the run, so that two equal entries stay two pushes. */
module EventFeed {
  import opened Wrappers
  import opened SessionStore

  /** The channel keeps this many events for a client that has fallen behind. */
  const EVENT_CHANNEL_CAP: nat := 64

  /** What happens atomically: a push is `Insert`, then `Send`; the feed is `Subscribe`, then
      `Snapshot`, then one `Receive` per poll; a reset is `ClearSessions`, then `ClearChannels`. */
  datatype Step =
    | Create
    | Insert
    | Send(push: nat)
    | Subscribe
    | Snapshot
    | Receive
    | ClearSessions
    | ClearChannels

  /** `sent` is what the client's channel has carried since it subscribed, `position` how far the
      client has read it, `lagged` whether it ever had to skip. */
  datatype Feed = Feed(attached: bool, snapshot: Option<seq<nat>>, sent: seq<nat>, position: nat,
                       delivered: seq<nat>, lagged: bool)

  /** `inFlight` are the pushes between their insert and their send. */
  datatype State = State(history: Option<seq<nat>>, inFlight: set<nat>, feed: Option<Feed>)

  predicate Enabled(s: State, step: Step) {
    match step
    case Send(push) => push in s.inFlight
    case Subscribe => s.feed.None?
    case Snapshot => s.feed.Some? && s.feed.value.snapshot.None?
    case Receive => s.feed.Some? && s.feed.value.snapshot.Some?
    case _ => true
  }

  /** The client's next poll: the oldest event it has not read, unless the channel has dropped it,
      in which case the client moves to the oldest event kept and hears nothing. */
  function Poll(f: Feed): Feed {
    if |f.sent| > f.position + EVENT_CHANNEL_CAP then f.(position := |f.sent| - EVENT_CHANNEL_CAP, lagged := true)
    else if f.position < |f.sent| then f.(position := f.position + 1, delivered := f.delivered + [f.sent[f.position]])
    else f
  }

  /** One step, the `now`-th of the run. */
  function Next(s: State, step: Step, now: nat): State {
    match step
    case Create => if s.history.None? then s.(history := Some([])) else s
    case Insert =>
      if s.history.None? then s
      else s.(history := Some(PushHistory(s.history.value, now)), inFlight := s.inFlight + {now})
    case Send(push) =>
      var rest := s.(inFlight := s.inFlight - {push});
      if s.feed.Some? && s.feed.value.attached
      then rest.(feed := Some(s.feed.value.(sent := s.feed.value.sent + [push])))
      else rest
    case Subscribe => s.(feed := Some(Feed(true, None, [], 0, [], false)))
    case Snapshot => if s.feed.None? then s else s.(feed := Some(s.feed.value.(snapshot := Some(GetOr(s.history, [])))))
    case Receive => if s.feed.None? then s else s.(feed := Some(Poll(s.feed.value)))
    case ClearSessions => s.(history := None)
    case ClearChannels => if s.feed.None? then s else s.(feed := Some(s.feed.value.(attached := false)))
  }

  function Run(steps: seq<Step>): State {
    if steps == [] then State(None, {}, None)
    else Next(Run(steps[..|steps| - 1]), steps[|steps| - 1], |steps| - 1)
  }

  /** Every step could happen when it did. */
  ghost predicate Legal(steps: seq<Step>) {
    forall k :: 0 <= k < |steps| ==> Enabled(Run(steps[..k]), steps[k])
  }

  lemma LegalFront(steps: seq<Step>)
    requires Legal(steps) && steps != []
    ensures Legal(steps[..|steps| - 1]) && Enabled(Run(steps[..|steps| - 1]), steps[|steps| - 1])
  {
    var front := steps[..|steps| - 1];
    forall k | 0 <= k < |front| ensures Enabled(Run(front[..k]), front[k]) {
      assert front[..k] == steps[..k];
    }
  }
}
