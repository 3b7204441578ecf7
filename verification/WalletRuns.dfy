/** Whole runs of the wallet: where the money goes, and that the two wallets are one. */
module WalletRuns {
  import opened Wrappers
  import opened Bets
  import opened Costs
  import opened WeightedDraw
  import opened SessionStore
  import opened Wallet
  import opened BrowserWallet

  datatype Op = DoPlay(req: PlayRequest) | DoEndRound

  ghost function Apply(game: Game, st: State, op: Op): State
    requires game.Valid()
  {
    match op
    case DoPlay(req) => PlayStep(game, st, req).0
    case DoEndRound => EndRoundStep(st)
  }

  ghost function Run(game: Game, st: State, ops: seq<Op>): State
    requires game.Valid()
    decreases |ops|
  {
    if ops == [] then st else Run(game, Apply(game, st, ops[0]), ops[1..])
  }

  // --- Conservation ----------------------------------------------------------------------

  /** What the player holds: the balance and the payout still to be credited. */
  function Wealth(st: State): int { st.session.balance + Pending(st.session) }

  /** What a credit of the pending payout really adds, the balance being capped at 64 bits. */
  function Credited(s: Session): nat {
    if s.balance + Pending(s) <= U64_MAX then Pending(s) else U64_MAX - s.balance
  }

  function Stake(game: Game, req: PlayRequest): u64 { TotalBetCost(game, req.mode, req.amount) }

  predicate Affordable(game: Game, s: Session, req: PlayRequest) {
    Stake(game, req) <= s.balance + Credited(s)
  }

  ghost predicate Succeeds(game: Game, s: Session, req: PlayRequest)
    requires game.Valid()
  {
    Affordable(game, s, req) && Drawable(game, req)
  }

  /** A play succeeds exactly when the guards of its branches hold. */
  lemma SucceedsWhen(game: Game, st: State, req: PlayRequest)
    requires game.Valid()
    ensures PlayStep(game, st, req).1.Ok? <==> Succeeds(game, st.session, req)
  {
  }

  /** The money an operation brings in: a played round its payout less its stake; what saturation
      cuts is lost; a failed play keeps the round whose payout it credited, so that payout counts
      twice, and one that fails after the stake is taken loses the stake as well. */
  ghost function Flow(game: Game, s: Session, op: Op): int
    requires game.Valid()
  {
    match op
    case DoEndRound => Credited(s) - Pending(s)
    case DoPlay(req) =>
      if Succeeds(game, s, req) then Outcome(game, req).value.payout - Stake(game, req) + Credited(s) - Pending(s)
      else if Affordable(game, s, req) then Credited(s) - Stake(game, req)
      else Credited(s)
  }

  ghost function TotalFlow(game: Game, st: State, ops: seq<Op>): int
    requires game.Valid()
    decreases |ops|
  {
    if ops == [] then 0
    else Flow(game, st.session, ops[0]) + TotalFlow(game, Apply(game, st, ops[0]), ops[1..])
  }

  /** Every run, failures and saturation included: wealth moves by exactly the flows. */
  lemma {:induction false} RunFlow(game: Game, st: State, ops: seq<Op>)
    requires game.Valid()
    ensures Wealth(Run(game, st, ops)) == Wealth(st) + TotalFlow(game, st, ops)
    decreases |ops|
  {
    if ops != [] {
      RunFlow(game, Apply(game, st, ops[0]), ops[1..]);
    }
  }

  /** The operation neither fails nor saturates. */
  ghost predicate Clean(game: Game, s: Session, op: Op)
    requires game.Valid()
  {
    s.balance + Pending(s) <= U64_MAX && (op.DoPlay? ==> Succeeds(game, s, op.req))
  }

  ghost predicate CleanRun(game: Game, st: State, ops: seq<Op>)
    requires game.Valid()
    decreases |ops|
  {
    ops == [] || (Clean(game, st.session, ops[0]) && CleanRun(game, Apply(game, st, ops[0]), ops[1..]))
  }

  /** Payouts less stakes of the rounds played. */
  ghost function NetOfRounds(game: Game, ops: seq<Op>): int
    requires game.Valid()
  {
    if ops == [] then 0
    else if ops[0].DoPlay? && Drawable(game, ops[0].req) then
      Outcome(game, ops[0].req).value.payout - Stake(game, ops[0].req) + NetOfRounds(game, ops[1..])
    else NetOfRounds(game, ops[1..])
  }

  /** With successful plays only and no saturation, balance and pending payout are the initial
      ones less all stakes plus all payouts. */
  lemma {:induction false} Conservation(game: Game, st: State, ops: seq<Op>)
    requires game.Valid() && CleanRun(game, st, ops)
    ensures Wealth(Run(game, st, ops)) == Wealth(st) + NetOfRounds(game, ops)
    decreases |ops|
  {
    if ops != [] {
      Conservation(game, Apply(game, st, ops[0]), ops[1..]);
    }
  }

  /** A new player holds the balance asked for, or ten thousand units of a million, and a clean run
      from there ends with that and the net of its rounds. */
  lemma NewPlayerConserves(game: Game, init: SessionInit, betCounter: nat, ops: seq<Op>)
    requires game.Valid() && CleanRun(game, State(NewSession(init), betCounter), ops)
    ensures var start := match init.balance case Some(b) => b case None => 10_000_000_000;
      Wealth(Run(game, State(NewSession(init), betCounter), ops)) == start + NetOfRounds(game, ops)
  {
    Conservation(game, State(NewSession(init), betCounter), ops);
  }

  /** One play, without saturation, conserves money exactly when it succeeds, or when its failure
      credited just what it took: nothing, or a stake equal to the pending payout. */
  lemma PlayConservesExactlyWhen(game: Game, st: State, req: PlayRequest)
    requires game.Valid() && st.session.balance + Pending(st.session) <= U64_MAX
    ensures
      var net := if Succeeds(game, st.session, req) then Outcome(game, req).value.payout - Stake(game, req) else 0;
      var taken := if Affordable(game, st.session, req) then Stake(game, req) else 0;
      (Wealth(Apply(game, st, DoPlay(req))) == Wealth(st) + net
       <==> (Succeeds(game, st.session, req) || Pending(st.session) == taken))
  {
  }

  // --- Each payout once ------------------------------------------------------------------

  /** The round whose payout is still to be credited, if any. */
  function PendingId(s: Session): seq<nat> {
    if s.activeRound.Some? && s.activeRound.value.payout > 0 then [s.activeRound.value.betId] else []
  }

  /** The bet ids credited, in order: both operations credit the pending round first. */
  ghost function Credits(game: Game, st: State, ops: seq<Op>): seq<nat>
    requires game.Valid()
    decreases |ops|
  {
    if ops == [] then [] else PendingId(st.session) + Credits(game, Apply(game, st, ops[0]), ops[1..])
  }

  /** The bet id of the round an operation plays, if that round wins. */
  ghost function Won(game: Game, st: State, op: Op): seq<nat>
    requires game.Valid()
  {
    if op.DoPlay? && Succeeds(game, st.session, op.req) && Outcome(game, op.req).value.payout > 0
    then [st.betCounter + 1] else []
  }

  /** The bet ids of the winning rounds played, in order. */
  ghost function Wins(game: Game, st: State, ops: seq<Op>): seq<nat>
    requires game.Valid()
    decreases |ops|
  {
    if ops == [] then [] else Won(game, st, ops[0]) + Wins(game, Apply(game, st, ops[0]), ops[1..])
  }

  /** The plays of the run that fail while a payout is pending. */
  ghost function PendingFails(game: Game, st: State, ops: seq<Op>): nat
    requires game.Valid()
    decreases |ops|
  {
    if ops == [] then 0
    else
      (if ops[0].DoPlay? && !Succeeds(game, st.session, ops[0].req) && PendingId(st.session) != [] then 1 else 0)
      + PendingFails(game, Apply(game, st, ops[0]), ops[1..])
  }

  /** Over every run: each play that fails while a payout is pending credits one payout too many. */
  lemma {:induction false} CreditCount(game: Game, st: State, ops: seq<Op>)
    requires game.Valid()
    ensures |Credits(game, st, ops)| + |PendingId(Run(game, st, ops).session)|
         == |PendingId(st.session)| + |Wins(game, st, ops)| + PendingFails(game, st, ops)
    decreases |ops|
  {
    if ops != [] {
      CreditCount(game, Apply(game, st, ops[0]), ops[1..]);
      PendingAfter(game, st, ops[0]);
    }
  }

  /** Over every run: the credits are the winning rounds in order, each once, the last one possibly
      still pending, exactly when no play fails while a payout is pending. */
  lemma EachPayoutOnce(game: Game, st: State, ops: seq<Op>)
    requires game.Valid()
    ensures (Credits(game, st, ops) + PendingId(Run(game, st, ops).session)
             == PendingId(st.session) + Wins(game, st, ops))
       <==> PendingFails(game, st, ops) == 0
  {
    CreditCount(game, st, ops);
    if PendingFails(game, st, ops) == 0 {
      OnceWithoutPendingFails(game, st, ops);
    }
  }

  lemma {:induction false} OnceWithoutPendingFails(game: Game, st: State, ops: seq<Op>)
    requires game.Valid() && PendingFails(game, st, ops) == 0
    ensures Credits(game, st, ops) + PendingId(Run(game, st, ops).session)
      == PendingId(st.session) + Wins(game, st, ops)
    decreases |ops|
  {
    if ops != [] {
      var next, rest := Apply(game, st, ops[0]), ops[1..];
      OnceWithoutPendingFails(game, next, rest);
      PendingAfter(game, st, ops[0]);
      Regroup(PendingId(st.session), Credits(game, next, rest), PendingId(Run(game, next, rest).session),
              PendingId(next.session), Wins(game, next, rest));
    }
  }

  lemma Regroup(a: seq<nat>, rest: seq<nat>, last: seq<nat>, win: seq<nat>, wins: seq<nat>)
    requires rest + last == win + wins
    ensures a + rest + last == a + (win + wins)
  {
    assert a + rest + last == a + (rest + last);
  }

  /** After an operation, what is pending is the round it played, or after a failed play what was. */
  lemma PendingAfter(game: Game, st: State, op: Op)
    requires game.Valid()
    ensures op.DoPlay? && !Succeeds(game, st.session, op.req) ==>
      PendingId(Apply(game, st, op).session) == PendingId(st.session) && Won(game, st, op) == []
    ensures !(op.DoPlay? && !Succeeds(game, st.session, op.req)) ==>
      PendingId(Apply(game, st, op).session) == Won(game, st, op)
  {
  }

  /** Bet ids grow, so the winning rounds of a run are distinct. */
  lemma {:induction false} WinsIncrease(game: Game, st: State, ops: seq<Op>)
    requires game.Valid()
    ensures forall i :: 0 <= i < |Wins(game, st, ops)| ==> Wins(game, st, ops)[i] > st.betCounter
    ensures forall i, j :: 0 <= i < j < |Wins(game, st, ops)| ==> Wins(game, st, ops)[i] < Wins(game, st, ops)[j]
    decreases |ops|
  {
    if ops != [] {
      WinsIncrease(game, Apply(game, st, ops[0]), ops[1..]);
    }
  }

  /** The excluded case: a failed play credits the pending round and keeps it, so the next
      operation credits the same round again. */
  lemma FailedPlayCreditsTwice(game: Game, st: State, req: PlayRequest, next: Op)
    requires game.Valid() && PendingId(st.session) != [] && !Succeeds(game, st.session, req)
    ensures Credits(game, st, [DoPlay(req), next]) == PendingId(st.session) + PendingId(st.session)
  {
    var ops := [DoPlay(req), next];
    var st1 := Apply(game, st, ops[0]);
    assert ops[1..] == [next];
    assert PendingId(st1.session) == PendingId(st.session);
    assert Credits(game, st1, [next]) == PendingId(st1.session) + Credits(game, Apply(game, st1, next), []);
  }

  // --- The two wallets -------------------------------------------------------------------

  /** Same balance, same pending round, same next bet id. */
  ghost predicate Twin(st: State, p: Preview) {
    p.balance == st.session.balance && p.activeRound == st.session.activeRound && p.betId == st.betCounter + 1
  }

  /** A play both wallets can run: no forced event, a listed mode, loaded on both sides alike. */
  ghost predicate Plain(game: Game, web: Game, req: PlayRequest) {
    && req.forced.None? && FindMode(game.listed, req.mode).Some?
    && req.mode in game.assets && req.mode in web.assets && game.assets[req.mode] == web.assets[req.mode]
  }

  /** The value the browser must draw for the raw value of the native generator. */
  ghost function PickOf(web: Game, req: PlayRequest): nat
    requires web.Valid()
  {
    if req.mode in web.assets then req.raw % web.assets[req.mode].sampler.totalWeight else 0
  }

  /** The two sides have the same `index.json`; what they have loaded can differ. */
  ghost predicate SameModes(game: Game, web: Game) {
    game.Valid() && web.Valid() && game.listed == web.listed
  }

  lemma TwinPlay(game: Game, web: Game, st: State, p: Preview, req: PlayRequest)
    requires SameModes(game, web) && game.CostsAccepted() && Plain(game, web, req) && Twin(st, p)
    ensures var native := PlayStep(game, st, req);
      var browser := PreviewPlay(web, p, req.mode, req.amount, PickOf(web, req));
      Twin(native.0, browser.0) && native.1 == browser.1
  {
  }

  datatype Observed = Observed(balance: u64, reply: Option<Result<Round, Error>>)

  /** What a client sees of a run: the reply and the balance after each operation. */
  ghost function NativeTrace(game: Game, st: State, ops: seq<Op>): seq<Observed>
    requires game.Valid()
    decreases |ops|
  {
    if ops == [] then []
    else
      var next := Apply(game, st, ops[0]);
      var reply := if ops[0].DoPlay? then Some(PlayStep(game, st, ops[0].req).1) else None;
      [Observed(next.session.balance, reply)] + NativeTrace(game, next, ops[1..])
  }

  ghost predicate PlainOps(game: Game, web: Game, ops: seq<Op>) {
    forall i :: 0 <= i < |ops| && ops[i].DoPlay? ==> Plain(game, web, ops[i].req)
  }

  ghost function BrowserTrace(web: Game, p: Preview, ops: seq<Op>): seq<Observed>
    requires web.Valid()
    decreases |ops|
  {
    if ops == [] then []
    else if ops[0].DoPlay? then
      var step := PreviewPlay(web, p, ops[0].req.mode, ops[0].req.amount, PickOf(web, ops[0].req));
      [Observed(step.0.balance, Some(step.1))] + BrowserTrace(web, step.0, ops[1..])
    else
      var next := PreviewEndRound(p);
      [Observed(next.balance, None)] + BrowserTrace(web, next, ops[1..])
  }

  /** From twin states, every run shows the client the same successes, failures, rounds, bet ids,
      payouts and balances. */
  lemma {:induction false} WalletsAgree(game: Game, web: Game, st: State, p: Preview, ops: seq<Op>)
    requires SameModes(game, web) && game.CostsAccepted() && PlainOps(game, web, ops) && Twin(st, p)
    ensures NativeTrace(game, st, ops) == BrowserTrace(web, p, ops)
    decreases |ops|
  {
    if ops != [] {
      var next := Apply(game, st, ops[0]);
      if ops[0].DoPlay? {
        var req := ops[0].req;
        TwinPlay(game, web, st, p, req);
        WalletsAgree(game, web, next, PreviewPlay(web, p, req.mode, req.amount, PickOf(web, req)).0, ops[1..]);
      } else {
        WalletsAgree(game, web, next, PreviewEndRound(p), ops[1..]);
      }
    }
  }

  /** The fresh session of `/authenticate` and the fresh engine are twins. */
  lemma FreshTwins(game: string, language: Option<string>)
    ensures Twin(State(NewSession(SessionInit(game, language, None, None)), 0), FRESH_PREVIEW)
  {
  }

  // --- When the wallets part ---------------------------------------------------------------

  /** What the native play takes. */
  function NativeTakes(game: Game, s: Session, req: PlayRequest): nat {
    if Affordable(game, s, req) then Stake(game, req) else 0
  }

  /** The browser refuses a mode it has not loaded before it touches the balance. */
  predicate WebLoaded(web: Game, mode: string) { FindMode(web.listed, mode).Some? && mode in web.assets }

  /** The stake of the browser, which does not check the costs of the other modes or its own. */
  function WebStake(web: Game, req: PlayRequest): u64
    requires WebLoaded(web, req.mode)
  {
    TotalBet(req.amount, CostMilli(FindMode(web.listed, req.mode).value.cost))
  }

  predicate WebAffordable(web: Game, s: Session, req: PlayRequest)
    requires WebLoaded(web, req.mode)
  {
    WebStake(web, req) <= s.balance + Credited(s)
  }

  /** What a play in the browser adds to the balance. */
  function WebNet(web: Game, s: Session, req: PlayRequest): int {
    if !WebLoaded(web, req.mode) then 0
    else if WebAffordable(web, s, req) then Credited(s) - WebStake(web, req)
    else Credited(s)
  }

  ghost predicate PickFits(web: Game, mode: string, pick: nat)
    requires web.Valid()
  {
    mode in web.assets ==> pick < web.assets[mode].sampler.totalWeight
  }

  ghost predicate WebSucceeds(web: Game, s: Session, req: PlayRequest, pick: nat)
    requires web.Valid() && PickFits(web, req.mode, pick)
  {
    && WebLoaded(web, req.mode) && WebAffordable(web, s, req)
    && Drawn(web.assets[req.mode], pick).eventId in web.assets[req.mode].readable
  }

  /** Both draw the same event with the same payout multiplier. */
  ghost predicate SameDraw(game: Game, web: Game, req: PlayRequest, pick: nat)
    requires game.Valid() && web.Valid() && PickFits(web, req.mode, pick)
    requires req.mode in game.assets && req.mode in web.assets
  {
    var native := Drawn(game.assets[req.mode], req.raw % game.assets[req.mode].sampler.totalWeight);
    var browser := Drawn(web.assets[req.mode], pick);
    native.eventId == browser.eventId && native.payoutMultiplier == browser.payoutMultiplier
  }

  /** When one unforced play leaves the wallets as they correspond: both balances move alike, and both
      succeed, on the same draw, or neither does. */
  ghost predicate KeepsTwins(game: Game, web: Game, s: Session, req: PlayRequest, pick: nat)
    requires SameModes(game, web) && req.forced.None? && PickFits(web, req.mode, pick)
  {
    && Credited(s) - NativeTakes(game, s, req) == WebNet(web, s, req)
    && (Succeeds(game, s, req) <==> WebSucceeds(web, s, req, pick))
    && (Succeeds(game, s, req) ==> SameDraw(game, web, req, pick))
  }

  /** The browser's play succeeds exactly when the guards of its branches hold. */
  lemma WebSucceedsWhen(web: Game, p: Preview, s: Session, req: PlayRequest, pick: nat)
    requires web.Valid() && PickFits(web, req.mode, pick)
    requires p.balance == s.balance && p.activeRound == s.activeRound
    ensures PreviewPlay(web, p, req.mode, req.amount, pick).1.Ok? <==> WebSucceeds(web, s, req, pick)
    ensures PreviewPlay(web, p, req.mode, req.amount, pick).0.balance == s.balance + WebNet(web, s, req)
  {
  }

  /** One unforced play of corresponding wallets, whatever each side has loaded and draws and whatever
      the costs: they correspond afterwards if and only if the condition holds. */
  lemma TwinsStayTwins(game: Game, web: Game, st: State, p: Preview, req: PlayRequest, pick: nat)
    requires SameModes(game, web) && req.forced.None? && PickFits(web, req.mode, pick) && Twin(st, p)
    ensures var native, browser := PlayStep(game, st, req), PreviewPlay(web, p, req.mode, req.amount, pick);
      && (Twin(native.0, browser.0) <==> KeepsTwins(game, web, st.session, req, pick))
      && (native.1.Ok? && browser.1.Ok? ==> (native.1 == browser.1 <==> SameDraw(game, web, req, pick)))
  {
    SucceedsWhen(game, st, req);
    WebSucceedsWhen(web, p, st.session, req, pick);
  }

  /** A mode that only the native side has loaded: where the play succeeds there, the browser refuses it
      and the wallets part. */
  lemma NativeModeParts(game: Game, web: Game, st: State, p: Preview, req: PlayRequest)
    requires SameModes(game, web) && req.forced.None? && Twin(st, p)
    requires Succeeds(game, st.session, req) && req.mode !in web.assets
    ensures var native, browser := PlayStep(game, st, req), PreviewPlay(web, p, req.mode, req.amount, 0);
      native.1.Ok? && browser == (p, Err(ModeNotLoaded)) && !Twin(native.0, browser.0)
  {
    TwinsStayTwins(game, web, st, p, req, 0);
  }

  /** Such a play: one mode of cost 1, one event, nothing staked and nothing pending. */
  lemma FreshWalletsCanPart() returns (game: Game, web: Game, req: PlayRequest)
    ensures SameModes(game, web) && game.CostsAccepted() && req.forced.None? && req.amount == 0
    ensures var st := State(NewSession(SessionInit("", None, None, None)), 0);
      var native, browser := PlayStep(game, st, req), PreviewPlay(web, FRESH_PREVIEW, req.mode, 0, 0);
      native.1.Ok? && browser == (FRESH_PREVIEW, Err(ModeNotLoaded)) && !Twin(native.0, browser.0)
  {
    var modes, e := [GameMode("base", Product(1.0, Some(1000.0)))], WeightEntry(1, 1, 100);
    game := Game(modes, map["base" := ModeAssets(WeightSampler([e], [1], 1), {1})]);
    web, req := Game(modes, map[]), PlayRequest("base", 0, 0, None, 0);
    var st := State(NewSession(SessionInit("", None, None, None)), 0);
    assert [e][..0] == [] && [e][..1] == [e] && WeightSum([e]) == 1;
    assert game.assets["base"].sampler.Valid();
    FreshTwins("", None);
    NativeModeParts(game, web, st, FRESH_PREVIEW, req);
  }
}
