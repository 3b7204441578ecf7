/** The native wallet: `/play` and `/end-round` as sequences of store updates, and as functions. */
module Wallet {
  import opened Wrappers
  import opened Bets
  import opened Costs
  import opened WeightedDraw
  import opened SessionStore

  datatype GameMode = GameMode(name: string, cost: Cost)

  /** A loaded mode: its weights, and the events whose book can be read. */
  datatype ModeAssets = ModeAssets(sampler: WeightSampler, readable: set<nat>)

  /** The modes as `index.json` lists them, and the assets of those that load. */
  datatype Game = Game(listed: seq<GameMode>, assets: map<string, ModeAssets>) {
    /** A draw from weights that sum to zero panics, so no loaded table is one. */
    ghost predicate Valid() {
      forall m :: m in assets ==> assets[m].sampler.Valid() && assets[m].sampler.totalWeight > 0
    }

    /** The native config is refused as a whole when one cost is not accepted. */
    predicate CostsAccepted() {
      forall i :: 0 <= i < |listed| ==> Accepted(listed[i].cost)
    }
  }

  datatype Error = SessionNotFound | ModeNotFound | InsufficientBalance | ModeNotLoaded
                 | EventNotInWeights | EventUnreadable

  datatype Spin = Spin(eventId: nat, multiplier: nat, payout: u64)

  /** The first mode of that name. */
  function FindMode(modes: seq<GameMode>, name: string): (r: Option<GameMode>)
    ensures r.Some? ==> r.value in modes && r.value.name == name
    ensures r.None? ==> forall i :: 0 <= i < |modes| ==> modes[i].name != name
  {
    if modes == [] then None
    else if modes[0].name == name then Some(modes[0])
    else FindMode(modes[1..], name)
  }

  function GetMode(game: Game, name: string): Option<GameMode> {
    if game.CostsAccepted() then FindMode(game.listed, name) else None
  }

  /** The stake; an unknown mode stakes the bare amount. */
  function TotalBetCost(game: Game, mode: string, amount: u64): u64 {
    match GetMode(game, mode)
    case None => amount
    case Some(m) => TotalBet(amount, CostMilli(m.cost))
  }

  function BuildResult(m: GameMode, assets: ModeAssets, e: WeightEntry, stake: u64): Result<Spin, Error> {
    if e.eventId !in assets.readable then Err(EventUnreadable)
    else
      var base := BaseBet(stake, CostMilli(m.cost));
      Ok(Spin(e.eventId, e.payoutMultiplier, Payout(base, e.payoutMultiplier)))
  }

  /** `play_spin` with the generator's raw value as an input. */
  ghost function PlaySpin(game: Game, mode: string, stake: u64, raw: nat): Result<Spin, Error>
    requires game.Valid()
  {
    var m := GetMode(game, mode);
    if m.None? then Err(ModeNotFound)
    else if mode !in game.assets then Err(ModeNotLoaded)
    else
      var assets := game.assets[mode];
      BuildResult(m.value, assets, Drawn(assets, raw % assets.sampler.totalWeight), stake)
  }

  /** The entry that `pick` draws. */
  function Drawn(assets: ModeAssets, pick: nat): WeightEntry
    requires pick < WeightSum(assets.sampler.entries)
  {
    assets.sampler.entries[Chosen(assets.sampler.entries, pick)]
  }

  function FindEvent(entries: seq<WeightEntry>, eventId: nat): (r: Option<WeightEntry>)
    ensures r.Some? ==> r.value in entries && r.value.eventId == eventId
    ensures r.None? ==> forall i :: 0 <= i < |entries| ==> entries[i].eventId != eventId
  {
    if entries == [] then None
    else if entries[0].eventId == eventId then Some(entries[0])
    else FindEvent(entries[1..], eventId)
  }

  function PlayForced(game: Game, mode: string, stake: u64, eventId: nat): Result<Spin, Error> {
    var m := GetMode(game, mode);
    if m.None? then Err(ModeNotFound)
    else if mode !in game.assets then Err(ModeNotLoaded)
    else
      var e := FindEvent(game.assets[mode].sampler.entries, eventId);
      if e.None? then Err(EventNotInWeights) else BuildResult(m.value, game.assets[mode], e.value, stake)
  }

  /** A debug override: this event is returned in this mode. */
  datatype Forced = Forced(mode: string, eventId: nat)

  datatype PlayRequest = PlayRequest(mode: string, amount: u64, raw: nat, forced: Option<Forced>, now: nat)

  predicate IsForced(req: PlayRequest) { req.forced.Some? && req.forced.value.mode == req.mode }

  ghost function Outcome(game: Game, req: PlayRequest): Result<Spin, Error>
    requires game.Valid()
  {
    var stake := TotalBetCost(game, req.mode, req.amount);
    if IsForced(req) then PlayForced(game, req.mode, stake, req.forced.value.eventId)
    else PlaySpin(game, req.mode, stake, req.raw)
  }

  /** What must hold for an event to come: the mode is listed and loaded, and the event, drawn or
      forced and in the weights, can be read. */
  ghost predicate Drawable(game: Game, req: PlayRequest): (b: bool)
    requires game.Valid()
    ensures b <==> Outcome(game, req).Ok?
  {
    GetMode(game, req.mode).Some? && req.mode in game.assets &&
    var assets := game.assets[req.mode];
    if IsForced(req) then
      var e := FindEvent(assets.sampler.entries, req.forced.value.eventId);
      e.Some? && e.value.eventId in assets.readable
    else Drawn(assets, req.raw % assets.sampler.totalWeight).eventId in assets.readable
  }

  /** One session and the shared bet counter. */
  datatype State = State(session: Session, betCounter: nat)

  function Pending(s: Session): u64 { if s.activeRound.Some? then s.activeRound.value.payout else 0 }

  /** The pending payout goes to the balance; the round stays where it is. */
  function Credit(s: Session): Session { s.(balance := SaturatingAdd(s.balance, Pending(s))) }

  function NewRound(betId: nat, req: PlayRequest, spin: Spin): Round {
    Round(betId, req.amount, spin.payout, spin.multiplier, req.mode, spin.eventId)
  }

  /** The session once the round is drawn: last event, history and active round; no payout yet. */
  function Recorded(s: Session, req: PlayRequest, stake: u64, spin: Spin, round: Round): Session {
    var entry := EventEntry(spin.eventId, req.mode, stake, spin.payout, spin.multiplier, IsForced(req), req.now);
    s.(lastEvent := Some((spin.eventId, spin.multiplier)), history := PushHistory(s.history, entry),
       activeRound := Some(round))
  }

  /** `/play`: credit the pending payout, take the stake, draw, then record the new round. What
      fails on the way leaves what was already done. */
  ghost function PlayStep(game: Game, st: State, req: PlayRequest): (State, Result<Round, Error>)
    requires game.Valid()
  {
    var credited := Credit(st.session);
    var stake := TotalBetCost(game, req.mode, req.amount);
    if stake > credited.balance then (st.(session := credited), Err(InsufficientBalance))
    else
      var staked := credited.(balance := credited.balance - stake);
      match Outcome(game, req)
      case Err(e) => (st.(session := staked), Err(e))
      case Ok(spin) =>
        var round := NewRound(st.betCounter + 1, req, spin);
        (State(Recorded(staked, req, stake, spin, round), st.betCounter + 1), Ok(round))
  }

  /** `/end-round`: credit the pending payout and clear the round. */
  function EndRoundStep(st: State): State {
    st.(session := Credit(st.session).(activeRound := None))
  }

  // --- The handlers ------------------------------------------------------------------------

  /** `play_spin` and `play_forced`. */
  method Draw(game: Game, req: PlayRequest, stake: u64) returns (r: Result<Spin, Error>)
    requires game.Valid() && stake == TotalBetCost(game, req.mode, req.amount)
    ensures r == Outcome(game, req)
  {
    if IsForced(req) {
      return PlayForced(game, req.mode, stake, req.forced.value.eventId);
    }
    var m := GetMode(game, req.mode);
    if m.None? { return Err(ModeNotFound); }
    if req.mode !in game.assets { return Err(ModeNotLoaded); }
    var assets := game.assets[req.mode];
    var e := WeightedPick(assets.sampler, req.raw % assets.sampler.totalWeight);
    r := BuildResult(m.value, assets, e, stake);
  }

  /** Both handlers credit a pending payout first; the round itself stays. */
  method CreditPending(store: Store, id: string, session: Session)
    requires id in store.sessions && store.sessions[id] == session
    modifies store
    ensures store.sessions == old(store.sessions)[id := Credit(session)]
    ensures store.betCounter == old(store.betCounter)
  {
    if session.activeRound.Some? && session.activeRound.value.payout > 0 {
      store.AddWinnings(id, session.activeRound.value.payout);
    }
  }

  /** The `/play` handler, run alone on its session. */
  method Play(store: Store, game: Game, id: string, req: PlayRequest) returns (r: Result<Round, Error>)
    requires game.Valid()
    modifies store
    ensures id !in old(store.sessions) ==>
      r == Err(SessionNotFound) && store.sessions == old(store.sessions) && store.betCounter == old(store.betCounter)
    ensures id in old(store.sessions) ==>
      var step := PlayStep(game, State(old(store.sessions)[id], old(store.betCounter)), req);
      && store.sessions == old(store.sessions)[id := step.0.session]
      && store.betCounter == step.0.betCounter && r == step.1
  {
    if id !in store.sessions { return Err(SessionNotFound); }
    var existing := store.sessions[id];
    CreditPending(store, id, existing);
    var stake := TotalBetCost(game, req.mode, req.amount);
    var paid := store.DeductBet(id, stake);
    if !paid { return Err(InsufficientBalance); }
    var drawn := Draw(game, req, stake);
    if drawn.Err? { return Err(drawn.error); }
    var round := RecordRound(store, id, req, stake, drawn.value);
    r := Ok(round);
  }

  /** The end of `/play`: the winnings wait on the active round. */
  method RecordRound(store: Store, id: string, req: PlayRequest, stake: u64, spin: Spin) returns (round: Round)
    requires id in store.sessions
    modifies store
    ensures store.betCounter == old(store.betCounter) + 1 && round == NewRound(store.betCounter, req, spin)
    ensures store.sessions == old(store.sessions)[id := Recorded(old(store.sessions)[id], req, stake, spin, round)]
  {
    store.SetLastEvent(id, spin.eventId, spin.multiplier);
    store.PushEvent(id, EventEntry(spin.eventId, req.mode, stake, spin.payout, spin.multiplier, IsForced(req),
                                   req.now));
    var betId := store.NextBetId();
    round := Round(betId, req.amount, spin.payout, spin.multiplier, req.mode, spin.eventId);
    store.SetActiveRound(id, Some(round));
  }

  /** The `/end-round` handler. */
  method EndRound(store: Store, id: string) returns (r: Result<nat, Error>)
    modifies store
    ensures store.betCounter == old(store.betCounter)
    ensures id !in old(store.sessions) ==> r == Err(SessionNotFound) && store.sessions == old(store.sessions)
    ensures id in old(store.sessions) ==>
      var st := EndRoundStep(State(old(store.sessions)[id], old(store.betCounter)));
      store.sessions == old(store.sessions)[id := st.session] && r == Ok(st.session.balance)
  {
    if id !in store.sessions { return Err(SessionNotFound); }
    var session := store.sessions[id];
    CreditPending(store, id, session);
    store.SetActiveRound(id, None);
    r := Ok(store.sessions[id].balance);
  }
}
