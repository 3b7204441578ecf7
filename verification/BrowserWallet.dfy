/** The browser twin of the wallet: one session held in the engine's own fields. */
module BrowserWallet {
  import opened Wrappers
  import opened Bets
  import opened Costs
  import opened WeightedDraw
  import opened SessionStore
  import opened Wallet

  /** The engine's fields; `betId` is the id of the next round. */
  datatype Preview = Preview(balance: u64, betId: nat, activeRound: Option<Round>)

  const FRESH_PREVIEW := Preview(10_000_000_000, 1, None)

  function PendingOf(p: Preview): u64 { if p.activeRound.Some? then p.activeRound.value.payout else 0 }

  function CreditOf(p: Preview): Preview { p.(balance := SaturatingAdd(p.balance, PendingOf(p))) }

  /** The book of a drawn entry, and what it pays. */
  function Settle(m: GameMode, assets: ModeAssets, e: WeightEntry, stake: u64): Result<u64, Error> {
    if e.eventId !in assets.readable then Err(EventUnreadable)
    else Ok(Payout(BaseBet(stake, CostMilli(m.cost)), e.payoutMultiplier))
  }

  /** `PreviewEngine::play`. Unlike the native handler it looks the mode up before it touches
      the balance; its generator draws below the total directly. */
  ghost function PreviewPlay(game: Game, p: Preview, mode: string, amount: u64, pick: nat)
    : (Preview, Result<Round, Error>)
    requires game.Valid()
    requires mode in game.assets ==> pick < game.assets[mode].sampler.totalWeight
  {
    var m := FindMode(game.listed, mode);
    if m.None? then (p, Err(ModeNotFound))
    else if mode !in game.assets then (p, Err(ModeNotLoaded))
    else
      var assets, credited := game.assets[mode], CreditOf(p);
      var stake := TotalBet(amount, CostMilli(m.value.cost));
      if stake > credited.balance then (credited, Err(InsufficientBalance))
      else
        var staked := credited.(balance := credited.balance - stake);
        var e := Drawn(assets, pick);
        match Settle(m.value, assets, e, stake)
        case Err(x) => (staked, Err(x))
        case Ok(payout) =>
          var round := Round(p.betId, amount, payout, e.payoutMultiplier, mode, e.eventId);
          (Preview(staked.balance, p.betId + 1, Some(round)), Ok(round))
  }

  function PreviewEndRound(p: Preview): Preview { CreditOf(p).(activeRound := None) }

  class PreviewEngine {
    const game: Game
    var balance: u64
    var betId: nat
    var activeRound: Option<Round>

    constructor (game: Game)
      ensures this.game == game && View() == FRESH_PREVIEW
    {
      this.game := game;
      balance, betId, activeRound := 10_000_000_000, 1, None;
    }

    function View(): Preview
      reads this
    {
      Preview(balance, betId, activeRound)
    }

    method Play(mode: string, amount: u64, pick: nat) returns (r: Result<Round, Error>)
      requires game.Valid()
      requires mode in game.assets ==> pick < game.assets[mode].sampler.totalWeight
      modifies this
      ensures (View(), r) == PreviewPlay(game, old(View()), mode, amount, pick)
    {
      var m := FindMode(game.listed, mode);
      if m.None? { return Err(ModeNotFound); }
      if mode !in game.assets { return Err(ModeNotLoaded); }
      var assets := game.assets[mode];
      if activeRound.Some? && activeRound.value.payout > 0 {
        balance := SaturatingAdd(balance, activeRound.value.payout);
      }
      var stake := TotalBet(amount, CostMilli(m.value.cost));
      if stake > balance { return Err(InsufficientBalance); }
      balance := balance - stake;
      var e := WeightedPick(assets.sampler, pick);
      if e.eventId !in assets.readable { return Err(EventUnreadable); }
      var payout := Payout(BaseBet(stake, CostMilli(m.value.cost)), e.payoutMultiplier);
      var round := Round(betId, amount, payout, e.payoutMultiplier, mode, e.eventId);
      betId := betId + 1;
      activeRound := Some(round);
      r := Ok(round);
    }

    method EndRound()
      modifies this
      ensures View() == PreviewEndRound(old(View()))
    {
      if activeRound.Some? && activeRound.value.payout > 0 {
        balance := SaturatingAdd(balance, activeRound.value.payout);
      }
      activeRound := None;
    }
  }
}
