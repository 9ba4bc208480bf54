/** The `Game` class of app.py: one round of dealing and resolution
    (`deal_valid`), the bounded history, and `add_player`. */
module Baccarat {
  import opened Wrappers
  import opened Seqs
  import opened Cards
  import opened Decks
  import opened Messages
  import opened Players

  /** `history` keeps at most this many rounds. */
  const HistoryLimit := 9

  /** A side whose two-card score is below this takes a third card. */
  const DrawBelow := 6

  /** The fields of `Game` that the modelled operations read and write.
      The clock (`last_time`) is left out. */
  datatype Game = Game(
    history: seq<RoundRecord>,
    players: seq<Player>,
    deck: Deck,
    isActive: bool,
    bankerCards: seq<Card>,
    playerCards: seq<Card>,
    bankerScore: int,
    playerScore: int)

  /** What holds between rounds: a full shuffled deck, a bounded history,
      no round in progress, and no player object listed twice. */
  predicate Valid(g: Game) {
    && IsShuffle(g.deck.cards)
    && |g.history| <= HistoryLimit
    && !g.isActive
    && DistinctIds(g.players)
  }

  /** `Game()`: the deck's shuffle is the parameter. */
  function NewGame(shuffled: seq<Card>): (g: Game)
    requires IsShuffle(shuffled)
    ensures Valid(g)
    ensures g.history == [] && g.players == []
    ensures Size(g.deck) == 52
  {
    Game([], [], NewDeck(shuffled), false, [], [], 0, 0)
  }

  // ---------------------------------------------------------------------------
  // Resolution and history

  /** The winner by plain comparison of the final scores. */
  function Decide(playerScore: int, bankerScore: int): (w: Winner)
    ensures w == PlayerWins <==> playerScore > bankerScore
    ensures w == BankerWins <==> playerScore < bankerScore
    ensures w == Tie <==> playerScore == bankerScore
  {
    if playerScore > bankerScore then PlayerWins
    else if playerScore < bankerScore then BankerWins
    else Tie
  }

  /** The last `n` elements of `s`, or all of it when it is shorter. */
  function Recent<T>(s: seq<T>, n: nat): seq<T> {
    if |s| <= n then s else s[|s| - n..]
  }

  /** `history.append(...)` followed by `history.pop(0)` when the list has
      grown past the limit. */
  function Record(history: seq<RoundRecord>, rec: RoundRecord): (r: seq<RoundRecord>)
    ensures |r| > 0 && r[|r| - 1] == rec
    ensures |history| < HistoryLimit ==> r == history + [rec]
    ensures |history| >= HistoryLimit ==> |r| == |history| && r[..|r| - 1] == history[1..]
    ensures |history| <= HistoryLimit ==> r == Recent(history + [rec], HistoryLimit)
  {
    var h := history + [rec];
    if |h| > HistoryLimit then h[1..] else h
  }

  /** The history after several rounds, one `Record` per round. */
  function RecordAll(history: seq<RoundRecord>, recs: seq<RoundRecord>): seq<RoundRecord>
    decreases |recs|
  {
    if recs == [] then history else RecordAll(Record(history, recs[0]), recs[1..])
  }

  /** However many rounds are played, the history holds exactly the last
      nine of them, oldest first. */
  lemma {:induction false} HistoryKeepsLastNine(history: seq<RoundRecord>, recs: seq<RoundRecord>)
    requires |history| <= HistoryLimit
    ensures RecordAll(history, recs) == Recent(history + recs, HistoryLimit)
    ensures |RecordAll(history, recs)| <= HistoryLimit
    decreases |recs|
  {
    if recs == [] {
      assert history + recs == history;
    } else {
      var h1 := Record(history, recs[0]);
      assert h1 == Recent(history + [recs[0]], HistoryLimit) && |h1| <= HistoryLimit;
      assert RecordAll(history, recs) == RecordAll(h1, recs[1..]);
      HistoryKeepsLastNine(h1, recs[1..]);
      RecentOfSuffix(history + [recs[0]], h1, recs[1..]);
      assert history + [recs[0]] + recs[1..] == history + recs;
    }
  }

  /** Keeping the last nine of a list, then appending, then keeping the last
      nine again, is the same as appending to the whole list. */
  lemma RecentOfSuffix(s: seq<RoundRecord>, t: seq<RoundRecord>, more: seq<RoundRecord>)
    requires t == Recent(s, HistoryLimit)
    ensures Recent(t + more, HistoryLimit) == Recent(s + more, HistoryLimit)
  {
    if |s| > HistoryLimit {
      var n := |s + more|;
      assert t + more == (s + more)[|s| - HistoryLimit..];
    }
  }

  // ---------------------------------------------------------------------------
  // Dealing

  /** The (side, index) of each card in the order `deal_valid` deals them. */
  function Schedule(bankerCount: nat, playerCount: nat): seq<(Side, nat)> {
    [(BankerSide, 0), (PlayerSide, 0), (BankerSide, 1), (PlayerSide, 1)]
      + (if playerCount == 3 then [(PlayerSide, 2)] else [])
      + (if bankerCount == 3 then [(BankerSide, 2)] else [])
  }

  /** `m` announces the card at position `slot.1` of side `slot.0`, with the
      score of that side's cards dealt so far. */
  predicate Announces(m: Message, banker: seq<Card>, player: seq<Card>, slot: (Side, nat)) {
    var hand := if slot.0 == BankerSide then banker else player;
    && slot.1 < |hand|
    && m == DealMsg(hand[slot.1], slot.0, Score(hand[..slot.1 + 1]), slot.1)
  }

  /** The deal messages announce every card, in dealing order. */
  predicate NarratesDeals(deals: seq<Message>, banker: seq<Card>, player: seq<Card>) {
    var sched := Schedule(|banker|, |player|);
    && |deals| == |sched|
    && forall k :: 0 <= k < |sched| ==> Announces(deals[k], banker, player, sched[k])
  }

  /** Which deck card each side holds, the deck being dealt from its end:
      banker, player, banker, player, then the player's third card, then the
      banker's. */
  predicate DealtFromTop(cards: seq<Card>, banker: seq<Card>, player: seq<Card>) {
    var n := |cards|;
    && 2 <= |banker| <= 3 && 2 <= |player| <= 3
    && |banker| + |player| <= n
    && banker[0] == cards[n - 1] && player[0] == cards[n - 2]
    && banker[1] == cards[n - 3] && player[1] == cards[n - 4]
    && (|player| == 3 ==> player[2] == cards[n - 5])
    && (|banker| == 3 ==> banker[2] == cards[n - |player| - 3])
  }

  /** Each side takes a third card exactly when its own two-card score is
      below six; the banker's decision ignores the player's third card. */
  predicate ThirdCardRule(banker: seq<Card>, player: seq<Card>)
    requires |banker| >= 2 && |player| >= 2
  {
    && (|player| == 3 <==> Score(player[..2]) < DrawBelow)
    && (|banker| == 3 <==> Score(banker[..2]) < DrawBelow)
  }

  /** The last card of a non-empty deck, the one `pop()` takes. */
  function Top(d: Deck): Card
    requires Size(d) > 0
  {
    d.cards[|d.cards| - 1]
  }

  /** Lines 142-190 of `deal_valid`: four cards dealt alternately from the
      end of the deck, banker first, each announced with its side's score. */
  datatype Opening = Opening(banker: seq<Card>, player: seq<Card>, deals: seq<Message>, rest: Deck)

  function DealOpening(deck: Deck): (r: Result<Opening, Fault>)
    ensures r.Success? <==> Size(deck) >= 4
    ensures r.Failure? ==> r.error == EmptyDeck
    ensures r.Success? ==>
      var c, n := deck.cards, |deck.cards|;
      && r.value.banker == [c[n - 1], c[n - 3]]
      && r.value.player == [c[n - 2], c[n - 4]]
      && r.value.rest == Deck(c[..n - 4])
      && r.value.deals == OpeningDeals(r.value.banker, r.value.player)
  {
    var b0 :- Draw(deck);
    var p0 :- Draw(b0.rest);
    var b1 :- Draw(p0.rest);
    var p1 :- Draw(b1.rest);
    var banker, player := [b0.card, b1.card], [p0.card, p1.card];
    Success(Opening(banker, player, OpeningDeals(banker, player), p1.rest))
  }

  /** The four opening deal messages, each with the score of its side's
      cards dealt so far. */
  function OpeningDeals(banker: seq<Card>, player: seq<Card>): seq<Message>
    requires |banker| == 2 && |player| == 2
  {
    [DealMsg(banker[0], BankerSide, Score(banker[..1]), 0),
     DealMsg(player[0], PlayerSide, Score(player[..1]), 0),
     DealMsg(banker[1], BankerSide, Score(banker[..2]), 1),
     DealMsg(player[1], PlayerSide, Score(player[..2]), 1)]
  }

  /** One hand after a possible third card, its deal message, and the deck left. */
  datatype Extended = Extended(hand: seq<Card>, deals: seq<Message>, rest: Deck)

  /** Lines 192-217 of `deal_valid` for one side: when `draw` holds, the
      deck's top card joins the hand and is announced as card 2. */
  function Third(draw: bool, hand: seq<Card>, side: Side, deck: Deck): (r: Result<Extended, Fault>)
    ensures r.Success? <==> !draw || Size(deck) > 0
    ensures r.Failure? ==> r.error == EmptyDeck
    ensures r.Success? && !draw ==> r.value == Extended(hand, [], deck)
    ensures r.Success? && draw ==>
      && r.value.hand == hand + [Top(deck)]
      && r.value.rest.cards == deck.cards[..Size(deck) - 1]
      && r.value.deals == [DealMsg(Top(deck), side, Score(hand + [Top(deck)]), 2)]
  {
    if !draw then Success(Extended(hand, [], deck))
    else
      var d :- Draw(deck);
      var hand' := hand + [d.card];
      Success(Extended(hand', [DealMsg(d.card, side, Score(hand'), 2)], d.rest))
  }

  /** The two hands and their deal messages. */
  datatype Hands = Hands(banker: seq<Card>, player: seq<Card>, deals: seq<Message>)

  /** Lines 142-217 of `deal_valid`: the opening four cards, then the
      third-card rule for the player and, after it, for the banker. */
  function DealHands(deck: Deck): (r: Result<Hands, Fault>)
    ensures Size(deck) >= 6 ==> r.Success?
    ensures Size(deck) < 4 ==> r.Failure?
    ensures r.Failure? ==> r.error == EmptyDeck
  {
    var o :- DealOpening(deck);
    var p :- Third(Score(o.player) < DrawBelow, o.player, PlayerSide, o.rest);
    var b :- Third(Score(o.banker) < DrawBelow, o.banker, BankerSide, p.rest);
    Success(Hands(b.hand, p.hand, o.deals + p.deals + b.deals))
  }

  /** Every card of both hands comes off the end of the deck in dealing
      order. */
  lemma DealtInOrder(deck: Deck)
    requires DealHands(deck).Success?
    ensures DealtFromTop(deck.cards, DealHands(deck).value.banker, DealHands(deck).value.player)
  {
    var o := DealOpening(deck).value;
    var p := Third(Score(o.player) < DrawBelow, o.player, PlayerSide, o.rest).value;
    var b := Third(Score(o.banker) < DrawBelow, o.banker, BankerSide, p.rest).value;
    assert DealHands(deck).value == Hands(b.hand, p.hand, o.deals + p.deals + b.deals);
  }

  /** Each side draws a third card exactly when its first two score below
      six. */
  lemma DealDrawsByRule(deck: Deck)
    requires DealHands(deck).Success?
    ensures ThirdCardRule(DealHands(deck).value.banker, DealHands(deck).value.player)
  {
    var o := DealOpening(deck).value;
    var p := Third(Score(o.player) < DrawBelow, o.player, PlayerSide, o.rest).value;
    var b := Third(Score(o.banker) < DrawBelow, o.banker, BankerSide, p.rest).value;
    assert DealHands(deck).value == Hands(b.hand, p.hand, o.deals + p.deals + b.deals);
    assert p.hand[..2] == o.player && b.hand[..2] == o.banker;
  }

  /** The four opening messages announce the four opening cards. */
  lemma OpeningNarrated(banker: seq<Card>, player: seq<Card>)
    requires |banker| == 2 && |player| == 2
    ensures NarratesDeals(OpeningDeals(banker, player), banker, player)
  {
  }

  /** An announcement stays true when the hands grow at their ends. */
  lemma AnnouncesExtended(m: Message, banker: seq<Card>, player: seq<Card>,
                          banker': seq<Card>, player': seq<Card>, slot: (Side, nat))
    requires Announces(m, banker, player, slot)
    requires banker <= banker' && player <= player'
    ensures Announces(m, banker', player', slot)
  {
    var hand := if slot.0 == BankerSide then banker else player;
    var hand' := if slot.0 == BankerSide then banker' else player';
    assert hand'[..slot.1 + 1] == hand[..slot.1 + 1];
  }

  /** How a side's hand and messages look after `Third`. */
  predicate ThirdShape(e: Extended, before: seq<Card>, side: Side) {
    || (e.hand == before && e.deals == [])
    || (&& |e.hand| == |before| + 1 && e.hand[..|before|] == before
        && e.deals == [DealMsg(e.hand[|before|], side, Score(e.hand), |before|)])
  }

  /** Gluing the opening messages to the two third-card messages narrates
      the whole deal. */
  lemma {:induction false} NarrationJoin(o: Opening, p: Extended, b: Extended)
    requires |o.banker| == 2 && |o.player| == 2
    requires NarratesDeals(o.deals, o.banker, o.player)
    requires ThirdShape(p, o.player, PlayerSide) && ThirdShape(b, o.banker, BankerSide)
    ensures NarratesDeals(o.deals + p.deals + b.deals, b.hand, p.hand)
  {
    var deals := o.deals + p.deals + b.deals;
    var sched := Schedule(|b.hand|, |p.hand|);
    assert sched[..4] == Schedule(2, 2);
    forall k | 0 <= k < |sched|
      ensures Announces(deals[k], b.hand, p.hand, sched[k])
    {
      if k < 4 {
        assert deals[k] == o.deals[k];
        AnnouncesExtended(o.deals[k], o.banker, o.player, b.hand, p.hand, sched[k]);
      } else if k == 4 && |p.hand| == 3 {
        assert p.hand[..3] == p.hand;
      } else {
        assert b.hand[..3] == b.hand;
        assert deals[k] == b.deals[0];
      }
    }
  }

  /** The deal messages of a round announce every card of both hands, in
      dealing order, each with its side's running score. */
  lemma DealNarrated(deck: Deck)
    requires DealHands(deck).Success?
    ensures NarratesDeals(DealHands(deck).value.deals, DealHands(deck).value.banker, DealHands(deck).value.player)
  {
    var o := DealOpening(deck).value;
    var p := Third(Score(o.player) < DrawBelow, o.player, PlayerSide, o.rest).value;
    var b := Third(Score(o.banker) < DrawBelow, o.banker, BankerSide, p.rest).value;
    assert DealHands(deck).value == Hands(b.hand, p.hand, o.deals + p.deals + b.deals);
    OpeningNarrated(o.banker, o.player);
    assert p.hand[..2] == o.player && b.hand[..2] == o.banker;
    NarrationJoin(o, p, b);
  }

  // ---------------------------------------------------------------------------
  // The round

  /** The game after a round, the round's history entry, and the messages it
      broadcasts, in order. */
  datatype Round = Round(game: Game, record: RoundRecord, events: seq<Message>)

  /** `deal_valid`: start, deal, resolve, record, announce the result, and
      put a fresh deck in place. A deck that runs out part way is the
      `IndexError` of `pop()`. Who is still listed after the broadcasts is
      `PlayRound`'s concern; here the player list is left as it was. */
  function DealValid(g: Game, shuffled: seq<Card>): (r: Result<Round, Fault>)
    requires IsShuffle(shuffled)
    ensures Size(g.deck) >= 6 ==> r.Success?
    ensures Size(g.deck) < 4 ==> r.Failure?
    ensures r.Failure? ==> r.error == EmptyDeck
    ensures r.Success? ==>
      var banker, player := r.value.record.banker, r.value.record.player;
      && DealtFromTop(g.deck.cards, banker, player)
      && ThirdCardRule(banker, player)
      && (r.value.record.winner == PlayerWins <==> Score(player) > Score(banker))
      && (r.value.record.winner == BankerWins <==> Score(player) < Score(banker))
      && (r.value.record.winner == Tie <==> Score(player) == Score(banker))
    ensures r.Success? ==>
      var ev := r.value.events;
      && |ev| >= 6
      && ev[0] == StartMsg
      && NarratesDeals(ev[1..|ev| - 1], r.value.record.banker, r.value.record.player)
      && ev[|ev| - 1] == ResultMsg(r.value.record)
    ensures r.Success? ==>
      var g' := r.value.game;
      && g'.bankerCards == r.value.record.banker && g'.playerCards == r.value.record.player
      && g'.bankerScore == Score(g'.bankerCards) && g'.playerScore == Score(g'.playerCards)
      && g'.history == Record(g.history, r.value.record)
      && g'.deck == NewDeck(shuffled)
      && !g'.isActive
      && g'.players == g.players
  {
    var h :- DealHands(g.deck);
    DealtInOrder(g.deck);
    DealDrawsByRule(g.deck);
    DealNarrated(g.deck);
    var bankerScore, playerScore := Score(h.banker), Score(h.player);
    var rec := RoundRecord(h.banker, h.player, Decide(playerScore, bankerScore));
    var events := [StartMsg] + h.deals + [ResultMsg(rec)];
    assert events[1..|events| - 1] == h.deals;
    Success(Round(
      Game(Record(g.history, rec), g.players, NewDeck(shuffled), false,
           h.banker, h.player, bankerScore, playerScore),
      rec, events))
  }

  /** From a valid game a round always completes and leaves a valid game. */
  lemma RoundKeepsGameValid(g: Game, shuffled: seq<Card>)
    requires Valid(g) && IsShuffle(shuffled)
    ensures DealValid(g, shuffled).Success?
    ensures Valid(DealValid(g, shuffled).value.game)
  {
    ShuffleIsFullDeck(g.deck.cards);
  }

  /** Hands dealt from the top of a deck without repeats share no card and
      repeat none. */
  lemma FromTopDistinct(c: seq<Card>, banker: seq<Card>, player: seq<Card>)
    requires Distinct(c) && DealtFromTop(c, banker, player)
    ensures Distinct(banker + player)
  {
    var n := |c|;
    var hands := banker + player;
    var pos := [n - 1, n - 3] + (if |banker| == 3 then [n - |player| - 3] else [])
             + [n - 2, n - 4] + (if |player| == 3 then [n - 5] else []);
    assert |pos| == |hands|;
    forall i | 0 <= i < |hands| ensures 0 <= pos[i] < n && hands[i] == c[pos[i]] {
    }
    forall i, j | 0 <= i < j < |hands| ensures hands[i] != hands[j] {
      assert pos[i] != pos[j];
    }
  }

  /** Dealt from a full deck, no card is in both hands or twice in one. */
  lemma DealtCardsDistinct(g: Game, shuffled: seq<Card>)
    requires Valid(g) && IsShuffle(shuffled)
    ensures DealValid(g, shuffled).Success?
    ensures Distinct(DealValid(g, shuffled).value.record.banker + DealValid(g, shuffled).value.record.player)
  {
    ShuffleIsFullDeck(g.deck.cards);
    var rec := DealValid(g, shuffled).value.record;
    FromTopDistinct(g.deck.cards, rec.banker, rec.player);
  }

  // ---------------------------------------------------------------------------
  // A round with its broadcasts

  /** Every one of `events` reached `p`. */
  predicate ReachedAll(p: Player, events: seq<Message>, outcome: (Message, Player) -> SendResult) {
    forall k :: 0 <= k < |events| ==> outcome(events[k], p) == Sent
  }

  /** Passing each of `events` in turn through `broadcast`, taken with the
      correction of `BroadcastSnapshot`; `outcome(m, p)` is what sending `m`
      to `p` does. */
  method BroadcastAll(players: seq<Player>, events: seq<Message>, outcome: (Message, Player) -> SendResult)
    returns (remaining: seq<Player>)
    requires DistinctIds(players)
    ensures Subseq(remaining, players)
    ensures forall p :: p in remaining <==> p in players && ReachedAll(p, events, outcome)
  {
    remaining := players;
    SubseqRefl(players);
    var k := 0;
    while k < |events|
      invariant 0 <= k <= |events|
      invariant Subseq(remaining, players)
      invariant forall p :: p in remaining <==> p in players && ReachedAll(p, events[..k], outcome)
    {
      var m := events[k];
      SubseqDistinctIds(remaining, players);
      var left, _ := BroadcastSnapshot(remaining, p => outcome(m, p));
      SubseqTrans(left, remaining, players);
      forall p ensures ReachedAll(p, events[..k + 1], outcome) <==>
                       ReachedAll(p, events[..k], outcome) && outcome(m, p) == Sent {
        assert events[..k + 1] == events[..k] + [m];
      }
      remaining := left;
      k := k + 1;
    }
    assert events[..k] == events;
  }

  /** `deal_valid` with its broadcasts: the game state is that of
      `DealValid`, and exactly the players every message reached are still
      listed, in their order. */
  method PlayRound(g: Game, shuffled: seq<Card>, outcome: (Message, Player) -> SendResult)
    returns (r: Round)
    requires Valid(g) && IsShuffle(shuffled)
    ensures DealValid(g, shuffled).Success?
    ensures r.record == DealValid(g, shuffled).value.record
    ensures r.events == DealValid(g, shuffled).value.events
    ensures r.game == DealValid(g, shuffled).value.game.(players := r.game.players)
    ensures Valid(r.game)
    ensures Subseq(r.game.players, g.players)
    ensures forall p :: p in r.game.players <==> p in g.players && ReachedAll(p, r.events, outcome)
  {
    RoundKeepsGameValid(g, shuffled);
    var round := DealValid(g, shuffled).value;
    var players := BroadcastAll(g.players, round.events, outcome);
    SubseqDistinctIds(players, g.players);
    r := round.(game := round.game.(players := players));
  }

  // ---------------------------------------------------------------------------
  // Joining

  /** The game after `add_player`, the messages that reached the new player,
      and the exception that escaped, if any. */
  datatype Joined = Joined(game: Game, sent: seq<Message>, escaped: Option<Fault>)

  /** `add_player`: list the player, send the history and, while a round is
      on, the state of the table. A disconnect on either send takes the
      player off the list again; a `RuntimeError` is not caught there and
      leaves the player listed. */
  function AddPlayer(g: Game, p: Player, historySend: SendResult, tableSend: SendResult): (r: Joined)
    ensures r.game == g.(players := r.game.players)
    ensures |r.sent| <= 2
    ensures historySend == Sent <==> |r.sent| >= 1
    ensures |r.sent| >= 1 ==> r.sent[0] == HistoryMsg(g.history)
    ensures |r.sent| == 2 <==> historySend == Sent && g.isActive && tableSend == Sent
    ensures |r.sent| == 2 ==> r.sent[1] == GameMsg(g.bankerCards, g.bankerScore, g.playerCards, g.playerScore)
    ensures r.escaped.Some? <==>
              historySend == RuntimeFailure || (historySend == Sent && g.isActive && tableSend == RuntimeFailure)
    ensures r.escaped.Some? ==> r.escaped.value == SendRuntimeError
  {
    var listed := g.players + [p];
    var history := HistoryMsg(g.history);
    var table := GameMsg(g.bankerCards, g.bankerScore, g.playerCards, g.playerScore);
    match historySend
    case Disconnected => Joined(g.(players := Leave(listed, p)), [], None)
    case RuntimeFailure => Joined(g.(players := listed), [], Some(SendRuntimeError))
    case Sent =>
      if !g.isActive then Joined(g.(players := listed), [history], None)
      else match tableSend
        case Sent => Joined(g.(players := listed), [history, table], None)
        case Disconnected => Joined(g.(players := Leave(listed, p)), [history], None)
        case RuntimeFailure => Joined(g.(players := listed), [history], Some(SendRuntimeError))
  }

  /** The send that hangs up the new player: the history, or the table
      while a round is on. */
  predicate HangsUp(g: Game, historySend: SendResult, tableSend: SendResult) {
    historySend == Disconnected || (historySend == Sent && g.isActive && tableSend == Disconnected)
  }

  /** After `add_player` the new player is last in the list, unless a send
      hung up; then the list holds what it held before. */
  lemma JoinedPlayers(g: Game, p: Player, historySend: SendResult, tableSend: SendResult)
    ensures !HangsUp(g, historySend, tableSend) ==>
              AddPlayer(g, p, historySend, tableSend).game.players == g.players + [p]
    ensures HangsUp(g, historySend, tableSend) ==>
              RemovePlayer(g.players + [p], p) == Success(AddPlayer(g, p, historySend, tableSend).game.players)
    ensures HangsUp(g, historySend, tableSend) && Unlisted(p, g.players) ==>
              AddPlayer(g, p, historySend, tableSend).game.players == g.players
  {
    var listed := g.players + [p];
    var ps := AddPlayer(g, p, historySend, tableSend).game.players;
    if HangsUp(g, historySend, tableSend) {
      assert ps == Leave(listed, p);
      assert listed[..|listed| - 1] == g.players;
      if Unlisted(p, g.players) {
        UnlistedFirst(listed, p, |g.players|);
      }
    } else {
      assert ps == listed;
    }
  }

  /** `remove_player` right after the player was appended, which always
      finds a player to remove. */
  function Leave(listed: seq<Player>, p: Player): (r: seq<Player>)
    requires |listed| > 0 && listed[|listed| - 1] == p
    ensures RemovePlayer(listed, p) == Success(r)
  {
    assert listed[|listed| - 1].id == p.id;
    RemovePlayer(listed, p).value
  }

  /** A newly built player joining a valid game leaves it valid: the new
      object's identity is one no listed player has. */
  lemma JoinKeepsGameValid(g: Game, id: nat, name: string, historySend: SendResult, tableSend: SendResult)
    requires Valid(g) && forall q :: q in g.players ==> q.id != id
    ensures Valid(AddPlayer(g, NewPlayer(id, name), historySend, tableSend).game)
  {
    var p := NewPlayer(id, name);
    var ps := AddPlayer(g, p, historySend, tableSend).game.players;
    JoinedPlayers(g, p, historySend, tableSend);
    if ps == g.players + [p] {
      var ids := Ids(ps);
      forall i, j | 0 <= i < j < |ps| ensures ids[i] != ids[j] {
        if j == |ps| - 1 {
          assert ps[i] in g.players;
        } else {
          assert Ids(g.players)[i] != Ids(g.players)[j];
        }
      }
    }
  }

  // ---------------------------------------------------------------------------
  // Both sides drawing

  /** When both sides draw, the six cards on top of the deck go banker,
      player, banker, player, player, banker. */
  lemma BothDraw(c: seq<Card>, banker: seq<Card>, player: seq<Card>, x: seq<Card>)
    requires DealtFromTop(c, banker, player) && ThirdCardRule(banker, player)
    requires |c| >= 6 && |x| == 6 && c[|c| - 6..] == x
    requires Score([x[4], x[2]]) < DrawBelow && Score([x[5], x[3]]) < DrawBelow
    ensures banker == [x[5], x[3], x[0]] && player == [x[4], x[2], x[1]]
  {
    var n := |c|;
    assert c[n - 1] == x[5] && c[n - 2] == x[4] && c[n - 3] == x[3];
    assert c[n - 4] == x[2] && c[n - 5] == x[1] && c[n - 6] == x[0];
    assert banker[..2] == [x[5], x[3]] && player[..2] == [x[4], x[2]];
  }
}
