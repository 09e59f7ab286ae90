/**
 * `calculatePendingEvents` (src/helpers/eventCalculators.ts): the streams a partner
 * has agreed to and the asks still waiting for their answer, in game order and then
 * ask order.
 */
module EventCalculators {
  import opened JsBuiltins
  import opened Types

  datatype EventStatus = Streaming | Asking

  datatype PendingEvent = PendingEvent(gameId: string, gameName: string, status: EventStatus)

  /** `!ask.response`: no response, or an empty one. */
  predicate NoResponse(ask: AskRecord) {
    ask.response.None? || ask.response.value == ""
  }

  /** `!game.done`: a game is open until it gets a done date. */
  predicate Open(game: Game) {
    game.done.None?
  }

  /** The event one ask of an open game contributes, if any. */
  function AskEvent(partner: Partner, game: Game, ask: AskRecord): (e: Option<PendingEvent>)
    ensures e.Some? <==> ask.partnerId == partner.id && (ask.confirmed || NoResponse(ask))
    ensures e.Some? ==> e.value.gameId == game.id && e.value.gameName == game.name
    ensures e.Some? ==> (e.value.status == Streaming <==> ask.confirmed)
  {
    if ask.partnerId != partner.id then None
    else if ask.confirmed then Some(PendingEvent(game.id, game.name, Streaming))
    else if NoResponse(ask) then Some(PendingEvent(game.id, game.name, Asking))
    else None
  }

  /** The events of a list of asks of one game, in ask order. */
  function AskEvents(partner: Partner, game: Game, asks: seq<AskRecord>): seq<PendingEvent> {
    if |asks| == 0 then []
    else
      var e := AskEvent(partner, game, asks[|asks| - 1]);
      AskEvents(partner, game, asks[..|asks| - 1]) + (if e.Some? then [e.value] else [])
  }

  /** The events of one game: none once it is done. */
  function GameEvents(partner: Partner, game: Game): seq<PendingEvent> {
    if Open(game) then AskEvents(partner, game, game.asks) else []
  }

  /** The events of a list of games, in game order. */
  function PendingEvents(partner: Partner, games: seq<Game>): seq<PendingEvent> {
    if |games| == 0 then []
    else PendingEvents(partner, games[..|games| - 1]) + GameEvents(partner, games[|games| - 1])
  }

  /** `calculatePendingEvents`: two nested loops pushing onto the result. */
  method CalculatePendingEvents(partner: Partner, games: seq<Game>) returns (pendingEvents: seq<PendingEvent>)
    ensures pendingEvents == PendingEvents(partner, games)
  {
    pendingEvents := [];
    var i := 0;
    while i < |games|
      invariant 0 <= i <= |games|
      invariant pendingEvents == PendingEvents(partner, games[..i])
    {
      var game := games[i];
      if !game.done.Some? {
        ghost var done := pendingEvents;
        var j := 0;
        while j < |game.asks|
          invariant 0 <= j <= |game.asks|
          invariant pendingEvents == done + AskEvents(partner, game, game.asks[..j])
        {
          var ask := game.asks[j];
          ghost var prev := pendingEvents;
          if ask.partnerId == partner.id {
            if ask.confirmed {
              pendingEvents := pendingEvents + [PendingEvent(game.id, game.name, Streaming)];
            } else if ask.response.None? || ask.response.value == "" {
              pendingEvents := pendingEvents + [PendingEvent(game.id, game.name, Asking)];
            }
          }
          AskStep(partner, game, game.asks, j, done, prev, pendingEvents);
          j := j + 1;
        }
        assert game.asks[..j] == game.asks;
      }
      GameStep(partner, games, i, pendingEvents);
      i := i + 1;
    }
    assert games[..i] == games;
  }

  /** One turn of the outer loop appends the events of game `i`. */
  lemma GameStep(partner: Partner, games: seq<Game>, i: nat, next: seq<PendingEvent>)
    requires i < |games| && next == PendingEvents(partner, games[..i]) + GameEvents(partner, games[i])
    ensures next == PendingEvents(partner, games[..i + 1])
  {
    assert games[..i + 1] == games[..i] + [games[i]];
    LastGame(partner, games[..i], games[i]);
  }

  /** One turn of the inner loop appends the event of ask `j`, if any. */
  lemma AskStep(partner: Partner, game: Game, asks: seq<AskRecord>, j: nat,
                done: seq<PendingEvent>, prev: seq<PendingEvent>, next: seq<PendingEvent>)
    requires j < |asks| && prev == done + AskEvents(partner, game, asks[..j])
    requires var ask := asks[j];
             next == prev + (if ask.partnerId != partner.id then []
                             else if ask.confirmed then [PendingEvent(game.id, game.name, Streaming)]
                             else if NoResponse(ask) then [PendingEvent(game.id, game.name, Asking)]
                             else [])
    ensures next == done + AskEvents(partner, game, asks[..j + 1])
  {
    assert asks[..j + 1] == asks[..j] + [asks[j]];
    LastAsk(partner, game, asks[..j], asks[j]);
  }

  /** The events of `init + [ask]` are those of `init`, then the one `ask` gives, if any. */
  lemma LastAsk(partner: Partner, game: Game, init: seq<AskRecord>, ask: AskRecord)
    ensures var e := AskEvent(partner, game, ask);
            AskEvents(partner, game, init + [ask]) == AskEvents(partner, game, init) + (if e.Some? then [e.value] else [])
  {
    assert (init + [ask])[..|init|] == init;
  }

  // ---------------------------------------------------------------------
  // Order.
  // ---------------------------------------------------------------------

  /** The events of two lists of asks are the events of the first, then of the second. */
  lemma {:induction false} AskEventsAppend(partner: Partner, game: Game, a: seq<AskRecord>, b: seq<AskRecord>)
    ensures AskEvents(partner, game, a + b) == AskEvents(partner, game, a) + AskEvents(partner, game, b)
    decreases |b|
  {
    if |b| == 0 {
      assert a + b == a;
    } else {
      AskEventsAppend(partner, game, a, b[..|b| - 1]);
      assert (a + b)[..|a + b| - 1] == a + b[..|b| - 1];
    }
  }

  /** The events of two lists of games are the events of the first, then of the second. */
  lemma {:induction false} PendingEventsAppend(partner: Partner, g1: seq<Game>, g2: seq<Game>)
    ensures PendingEvents(partner, g1 + g2) == PendingEvents(partner, g1) + PendingEvents(partner, g2)
    decreases |g2|
  {
    if |g2| == 0 {
      assert g1 + g2 == g1;
    } else {
      var init, last := g2[..|g2| - 1], g2[|g2| - 1];
      assert g2 == init + [last];
      calc {
        PendingEvents(partner, g1 + g2);
        { assert g1 + g2 == (g1 + init) + [last]; }
        PendingEvents(partner, (g1 + init) + [last]);
        { LastGame(partner, g1 + init, last); }
        PendingEvents(partner, g1 + init) + GameEvents(partner, last);
        { PendingEventsAppend(partner, g1, init); }
        PendingEvents(partner, g1) + PendingEvents(partner, init) + GameEvents(partner, last);
        { LastGame(partner, init, last); }
        PendingEvents(partner, g1) + PendingEvents(partner, g2);
      }
    }
  }

  /** The events of `init + [last]` are those of `init`, then those of `last`. */
  lemma LastGame(partner: Partner, init: seq<Game>, last: Game)
    ensures PendingEvents(partner, init + [last]) == PendingEvents(partner, init) + GameEvents(partner, last)
  {
    assert (init + [last])[..|init|] == init;
  }

  // ---------------------------------------------------------------------
  // Which asks give events.
  // ---------------------------------------------------------------------

  /** Done games give no events: dropping them changes nothing. */
  lemma {:induction false} DoneGamesIgnored(partner: Partner, games: seq<Game>)
    ensures PendingEvents(partner, games) == PendingEvents(partner, Filter(games, Open))
  {
    if |games| > 0 {
      var init, last := games[..|games| - 1], games[|games| - 1];
      DoneGamesIgnored(partner, init);
      if Open(last) {
        assert Filter(games, Open) == Filter(init, Open) + [last];
        PendingEventsAppend(partner, Filter(init, Open), [last]);
        assert [last][..0] == [];
      } else {
        assert Filter(games, Open) == Filter(init, Open);
      }
    }
  }

  /** An event comes from an ask of its game, and every ask that qualifies gives one. */
  lemma {:induction false} AskEventsMembers(partner: Partner, game: Game, asks: seq<AskRecord>, e: PendingEvent)
    ensures e in AskEvents(partner, game, asks) <==> exists k :: 0 <= k < |asks| && AskEvent(partner, game, asks[k]) == Some(e)
  {
    if |asks| > 0 {
      var init := asks[..|asks| - 1];
      AskEventsMembers(partner, game, init, e);
      if exists k :: 0 <= k < |asks| && AskEvent(partner, game, asks[k]) == Some(e) {
        var k :| 0 <= k < |asks| && AskEvent(partner, game, asks[k]) == Some(e);
        if k < |init| {
          assert init[k] == asks[k];
        }
      }
    }
  }

  /**
   * An event is in the result exactly when some ask of some open game gives it: an
   * ask for this partner that is confirmed ('Streaming') or has no response yet
   * ('Asking'), carrying that game's id and name.
   */
  lemma {:induction false} PendingEventsMembers(partner: Partner, games: seq<Game>, e: PendingEvent)
    ensures e in PendingEvents(partner, games) <==>
            exists i, k :: 0 <= i < |games| && Open(games[i]) && 0 <= k < |games[i].asks|
                           && AskEvent(partner, games[i], games[i].asks[k]) == Some(e)
  {
    if |games| > 0 {
      var init, last := games[..|games| - 1], games[|games| - 1];
      PendingEventsMembers(partner, init, e);
      if Open(last) {
        AskEventsMembers(partner, last, last.asks, e);
      }
      if exists i, k :: 0 <= i < |games| && Open(games[i]) && 0 <= k < |games[i].asks|
                        && AskEvent(partner, games[i], games[i].asks[k]) == Some(e) {
        var i, k :| 0 <= i < |games| && Open(games[i]) && 0 <= k < |games[i].asks|
                    && AskEvent(partner, games[i], games[i].asks[k]) == Some(e);
        if i < |init| {
          assert init[i] == games[i];
        }
      }
    }
  }

  /** An unconfirmed ask with a non-empty response gives no event. */
  lemma AnsweredAskIgnored(partner: Partner, game: Game, ask: AskRecord)
    requires !ask.confirmed && ask.response.Some? && ask.response.value != ""
    ensures AskEvent(partner, game, ask) == None
  {
  }

  // ---------------------------------------------------------------------
  // How many.
  // ---------------------------------------------------------------------

  /** The number of asks in the open games. */
  function OpenAskCount(games: seq<Game>): nat {
    if |games| == 0 then 0
    else OpenAskCount(games[..|games| - 1]) + (if Open(games[|games| - 1]) then |games[|games| - 1].asks| else 0)
  }

  lemma {:induction false} AskEventsCount(partner: Partner, game: Game, asks: seq<AskRecord>)
    ensures |AskEvents(partner, game, asks)| <= |asks|
  {
    if |asks| > 0 {
      AskEventsCount(partner, game, asks[..|asks| - 1]);
    }
  }

  /** At most one event per ask of an open game. */
  lemma {:induction false} PendingEventsCount(partner: Partner, games: seq<Game>)
    ensures |PendingEvents(partner, games)| <= OpenAskCount(games)
  {
    if |games| > 0 {
      PendingEventsCount(partner, games[..|games| - 1]);
      AskEventsCount(partner, games[|games| - 1], games[|games| - 1].asks);
    }
  }
}
