/** What a played round costs and pays, in both wallets. */
module Payouts {
  import opened Bets
  import opened Costs
  import opened WeightedDraw
  import opened SessionStore
  import opened Wallet
  import opened BrowserWallet
  import opened WalletRuns

  // --- The arithmetic -----------------------------------------------------------------------

  /** The base bet a stake buys is never more than the amount played. */
  lemma BoughtBack(b: nat, c: nat)
    requires c >= 1 && b <= U64_MAX
    ensures BaseBet(TotalBet(b, c), c) <= b
  {
    var t := TotalBet(b, c);
    var q := t * COST_SCALE / c;
    assert t * COST_SCALE <= b * c;
    if q > b { MulMono(b + 1, q, c); }
  }

  lemma Hundredths(n: nat, p: nat)
    requires p == Saturate(n) / 100
    ensures 100 * p <= n && (n <= U64_MAX ==> n < 100 * p + 100)
  {
  }

  /** What a stake of `t` leaves of `n` thousandths. */
  lemma Thousandths(n: nat, t: nat)
    requires t == Saturate(n / COST_SCALE)
    ensures 1000 * t <= n && (n / 1000 <= U64_MAX ==> n < 1000 * t + 1000)
  {
  }

  /** A base bet that is `loss` short of the amount pays that much less. */
  lemma PaidOn(b: nat, base: nat, loss: nat, m: nat, p: nat)
    requires base == b - loss && p == Payout(base, m)
    ensures 100 * p <= b * m
    ensures b * m <= U64_MAX ==> b * m < 100 * p + 100 + loss * m
  {
    assert b * m == base * m + loss * m;
    Hundredths(base * m, p);
  }

  // --- The rounds -----------------------------------------------------------------------------

  /** Neither the stake nor the payout of `amount` at `c` thousandths leaves 64 bits. */
  predicate Fits(amount: nat, c: nat, multiplier: nat) {
    amount * c / 1000 <= U64_MAX && amount * multiplier <= U64_MAX
  }

  /** The round pays the amount times the multiplier in hundredths, rounded down; of an amount whose stake
      has a fraction it may pay on up to ceil(999 / c) less, and on saturation less still. */
  ghost predicate PaysFor(round: Round, c: nat)
    requires c > 0
  {
    && 100 * round.payout <= round.amount * round.multiplier
    && (Fits(round.amount, c, round.multiplier) && round.amount * c % 1000 == 0 ==>
          round.amount * round.multiplier < 100 * round.payout + 100)
    && (Fits(round.amount, c, round.multiplier) ==>
          round.amount * round.multiplier < 100 * round.payout + 100 + (998 + c) / c * round.multiplier)
  }

  lemma PaysOnBase(round: Round, c: nat)
    requires c >= 1 && round.payout == Payout(BaseBet(TotalBet(round.amount, c), c), round.multiplier)
    ensures PaysFor(round, c)
  {
    var b, m := round.amount, round.multiplier;
    var base := BaseBet(TotalBet(b, c), c);
    BoughtBack(b, c);
    PaidOn(b, base, b - base, m, round.payout);
    if Fits(b, c, m) {
      RoundTripBound(b, c);
      RoundTripExact(b, c);
      MulMono(b - base, CeilDiv(999, c), m);
    }
  }

  /** The stake taken is the amount times the cost, rounded down. */
  ghost predicate Stakes(taken: int, amount: nat, c: nat) {
    1000 * taken <= amount * c && (amount * c / 1000 <= U64_MAX ==> amount * c < 1000 * taken + 1000)
  }

  /** Every round the native wallet plays: its stake and its payout. */
  lemma NativeRoundPays(game: Game, st: State, req: PlayRequest)
    requires game.Valid() && PlayStep(game, st, req).1.Ok?
    ensures var round, c := PlayStep(game, st, req).1.value, CostMilli(GetMode(game, req.mode).value.cost);
      && round.amount == req.amount && round.mode == req.mode && PaysFor(round, c)
      && Stakes(st.session.balance + Credited(st.session) - PlayStep(game, st, req).0.session.balance, req.amount, c)
  {
    var round, c := PlayStep(game, st, req).1.value, CostMilli(GetMode(game, req.mode).value.cost);
    PaysOnBase(round, c);
    Thousandths(req.amount * c, TotalBet(req.amount, c));
  }

  /** Of a mode it does not know, and of any when one listed cost is not accepted, the native wallet takes
      the bare amount, and pays nothing. */
  lemma UnknownModeTakesAmount(game: Game, st: State, req: PlayRequest)
    requires game.Valid()
    requires (exists i :: 0 <= i < |game.listed| && !Accepted(game.listed[i].cost))
      || forall i :: 0 <= i < |game.listed| ==> game.listed[i].name != req.mode
    ensures PlayStep(game, st, req).1.Err?
    ensures var balance, left := st.session.balance + Credited(st.session), PlayStep(game, st, req).0.session.balance;
      left == if req.amount <= balance then balance - req.amount else balance
  {
  }

  /** Every round the browser's wallet plays. */
  lemma BrowserRoundPays(web: Game, p: Preview, s: Session, mode: string, amount: u64, pick: nat)
    requires web.Valid() && PickFits(web, mode, pick) && PreviewPlay(web, p, mode, amount, pick).1.Ok?
    requires p.balance == s.balance && p.activeRound == s.activeRound
    ensures var round := PreviewPlay(web, p, mode, amount, pick).1.value;
      var c := CostMilli(FindMode(web.listed, mode).value.cost);
      && round.amount == amount && round.mode == mode && PaysFor(round, c)
      && Stakes(p.balance + Credited(s) - PreviewPlay(web, p, mode, amount, pick).0.balance, amount, c)
  {
    var round := PreviewPlay(web, p, mode, amount, pick).1.value;
    var c := CostMilli(FindMode(web.listed, mode).value.cost);
    PaysOnBase(round, c);
    Thousandths(amount * c, TotalBet(amount, c));
  }

  /** The round is of the event drawn: the entry whose share of the weights holds the raw value, cut to
      their total, or the first entry of a forced id. */
  lemma RoundIsDrawn(game: Game, st: State, req: PlayRequest) returns (i: nat)
    requires game.Valid() && PlayStep(game, st, req).1.Ok?
    ensures req.mode in game.assets
    ensures var entries, round := game.assets[req.mode].sampler.entries, PlayStep(game, st, req).1.value;
      && i < |entries| && round.eventId == entries[i].eventId && round.multiplier == entries[i].payoutMultiplier
      && (req.forced.Some? && req.forced.value.mode == req.mode ==>
            && entries[i].eventId == req.forced.value.eventId
            && forall j :: 0 <= j < i ==> entries[j].eventId != req.forced.value.eventId)
      && (!(req.forced.Some? && req.forced.value.mode == req.mode) ==>
            WeightSum(entries) > 0 && InShare(entries, i, req.raw % WeightSum(entries)))
  {
    var entries := game.assets[req.mode].sampler.entries;
    if IsForced(req) {
      i := FirstEntry(entries, req.forced.value.eventId);
    } else {
      var pick := req.raw % game.assets[req.mode].sampler.totalWeight;
      i := Chosen(entries, pick);
      ChosenInShare(entries, pick);
    }
  }

  /** Both wallets play the first mode of the name. */
  lemma {:induction false} FirstMode(modes: seq<GameMode>, name: string) returns (i: nat)
    requires FindMode(modes, name).Some?
    ensures i < |modes| && modes[i] == FindMode(modes, name).value && modes[i].name == name
    ensures forall j :: 0 <= j < i ==> modes[j].name != name
  {
    i := 0;
    if modes[0].name != name {
      i := FirstMode(modes[1..], name);
      i := i + 1;
    }
  }

  lemma {:induction false} FirstEntry(entries: seq<WeightEntry>, id: nat) returns (i: nat)
    requires FindEvent(entries, id).Some?
    ensures i < |entries| && entries[i] == FindEvent(entries, id).value && entries[i].eventId == id
    ensures forall j :: 0 <= j < i ==> entries[j].eventId != id
  {
    i := 0;
    if entries[0].eventId != id {
      i := FirstEntry(entries[1..], id);
      i := i + 1;
    }
  }

  /** At any cost, a multiple of the bet step is paid on in full. */
  lemma StepBetsPayInFull(round: Round, c: nat, k: nat)
    requires c > 0 && PaysFor(round, c) && round.amount == 10_000 * k && Fits(round.amount, c, round.multiplier)
    ensures 100 * round.payout <= round.amount * round.multiplier < 100 * round.payout + 100
  {
    assert round.amount * c == 1000 * (10 * k * c);
  }
}
