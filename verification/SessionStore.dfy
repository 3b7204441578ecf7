/** The wallet's sessions and the store that keeps them, in memory. */
module SessionStore {
  import opened Wrappers
  import opened Bets

  const HISTORY_CAP: nat := 100
  const INITIAL_BALANCE: u64 := 10_000_000_000

  /** A payout multiplier is in hundredths. */
  datatype Round = Round(betId: nat, amount: u64, payout: u64, multiplier: nat, mode: string, eventId: nat)

  datatype EventEntry = EventEntry(eventId: nat, mode: string, betAmount: u64, payout: u64, multiplier: nat,
                                   forced: bool, at: nat)

  datatype Session = Session(
    game: string, balance: u64, currency: string, language: string, activeRound: Option<Round>,
    lastEvent: Option<(nat, nat)>, history: seq<EventEntry>)

  datatype SessionInit = SessionInit(game: string, language: Option<string>, balance: Option<u64>,
                                     currency: Option<string>)

  function GetOr<T>(o: Option<T>, default: T): T { if o.Some? then o.value else default }

  function NewSession(init: SessionInit): Session {
    Session(init.game, GetOr(init.balance, INITIAL_BALANCE), GetOr(init.currency, "USD"),
            GetOr(init.language, "en"), None, None, [])
  }

  function SaturatingAdd(a: u64, b: u64): u64 { Saturate(a + b) }

  /** Most recent first, capped. */
  function PushHistory<T>(history: seq<T>, entry: T): seq<T> {
    var h := [entry] + history;
    if |h| > HISTORY_CAP then h[..HISTORY_CAP] else h
  }

  class Store {
    var sessions: map<string, Session>
    var betCounter: nat

    constructor ()
      ensures sessions == map[] && betCounter == 0
    {
      sessions, betCounter := map[], 0;
    }

    method Upsert(id: string, init: SessionInit)
      modifies `sessions
      ensures sessions == old(sessions)[id := NewSession(init)]
    {
      sessions := sessions[id := NewSession(init)];
    }

    /** A missing session is created; an existing one keeps its balance, its pending round and its
        history. */
    method Prepare(id: string, init: SessionInit)
      modifies `sessions
      ensures id in sessions && sessions - {id} == old(sessions) - {id}
      ensures id !in old(sessions) ==> sessions[id] == NewSession(init)
      ensures id in old(sessions) ==> var was := old(sessions)[id];
        sessions[id] == was.(game := init.game, language := GetOr(init.language, was.language),
                             currency := GetOr(init.currency, was.currency))
    {
      if id in sessions {
        var s := sessions[id];
        s := s.(game := init.game);
        if init.language.Some? { s := s.(language := init.language.value); }
        if init.currency.Some? { s := s.(currency := init.currency.value); }
        sessions := sessions[id := s];
      } else {
        Upsert(id, init);
      }
    }

    method GetOrCreate(id: string, game: string, language: Option<string>) returns (s: Session)
      modifies `sessions
      ensures id in sessions && sessions[id] == s
      ensures if id in old(sessions) then sessions == old(sessions)
              else sessions == old(sessions)[id := NewSession(SessionInit(game, language, None, None))]
    {
      if id !in sessions {
        Upsert(id, SessionInit(game, language, None, None));
      }
      s := sessions[id];
    }

    method SetLastEvent(id: string, eventId: nat, multiplier: nat)
      modifies `sessions
      ensures sessions == if id in old(sessions)
        then old(sessions)[id := old(sessions)[id].(lastEvent := Some((eventId, multiplier)))] else old(sessions)
    {
      if id in sessions {
        sessions := sessions[id := sessions[id].(lastEvent := Some((eventId, multiplier)))];
      }
    }

    method PushEvent(id: string, entry: EventEntry)
      modifies `sessions
      ensures sessions == if id in old(sessions)
        then old(sessions)[id := old(sessions)[id].(history := PushHistory(old(sessions)[id].history, entry))]
        else old(sessions)
    {
      if id in sessions {
        var history := [entry] + sessions[id].history;
        if |history| > HISTORY_CAP {
          history := history[..HISTORY_CAP];
        }
        sessions := sessions[id := sessions[id].(history := history)];
      }
    }

    method SetActiveRound(id: string, round: Option<Round>)
      modifies `sessions
      ensures sessions == if id in old(sessions)
        then old(sessions)[id := old(sessions)[id].(activeRound := round)] else old(sessions)
    {
      if id in sessions {
        sessions := sessions[id := sessions[id].(activeRound := round)];
      }
    }

    /** Refused, with nothing changed, when the balance is short: a balance never goes negative. */
    method DeductBet(id: string, amount: u64) returns (ok: bool)
      modifies `sessions
      ensures ok <==> id in old(sessions) && amount <= old(sessions)[id].balance
      ensures sessions == if ok
        then old(sessions)[id := old(sessions)[id].(balance := old(sessions)[id].balance - amount)]
        else old(sessions)
    {
      ok := id in sessions && sessions[id].balance >= amount;
      if ok {
        sessions := sessions[id := sessions[id].(balance := sessions[id].balance - amount)];
      }
    }

    method AddWinnings(id: string, amount: u64)
      modifies `sessions
      ensures sessions == if id in old(sessions)
        then old(sessions)[id := old(sessions)[id].(balance := SaturatingAdd(old(sessions)[id].balance, amount))]
        else old(sessions)
    {
      if id in sessions {
        sessions := sessions[id := sessions[id].(balance := SaturatingAdd(sessions[id].balance, amount))];
      }
    }

    method NextBetId() returns (betId: nat)
      modifies `betCounter
      ensures betId == betCounter == old(betCounter) + 1
    {
      betCounter := betCounter + 1;
      betId := betCounter;
    }
  }
}
