# Baccarat round engine

A Dafny model of the game logic in `app.py` of a small multiplayer baccarat
server. The server deals one round at a time to everyone connected and
streams each step to the players as JSON messages. The model covers:

- the card identifiers (`"7_of_hearts"`) and `score`, the baccarat point
  count;
- `Deck`: the 52 identifiers, shuffled, dealt with `list.pop()` from the end;
- `Player` and `Player.bet`;
- `Game.deal_valid`: the deal schedule, the third-card rule, the winner, the
  nine-round history, the fresh deck, and the messages it broadcasts;
- `Game.add_player`, `Game.remove_player` and `Game.broadcast`, the player
  list.

Modules follow the program: `Cards` (identifiers and `score`), `Decks`
(`Deck`), `Messages` (the JSON payloads as a datatype), `Players` (`Player`,
`remove_player`, `broadcast`) and `Baccarat` (`Game`). `Seqs` and `Wrappers`
hold the sequence facts and the `Option`/`Result` types the others use.

How the model stands in for what it cannot see:

- `random.shuffle` becomes a parameter `shuffled` of `NewDeck`, `NewGame` and
  `DealValid`. It may be any rearrangement of the 52 identifiers
  (`Decks.IsShuffle`).
- Each `player.send` becomes an outcome: it returns (`Sent`), raises
  `WebSocketDisconnect` (`Disconnected`), or raises `RuntimeError`
  (`RuntimeFailure`). `broadcast` takes a function from player (or from
  message and player) to outcome. `add_player` takes the outcome of each of
  its two sends.
- A player's object identity is its `id` field. `remove_player` removes the
  first listed player whose `id` is that of the player it is given, so it
  finds a player whose bets have changed since it joined. A valid game lists
  no `id` twice. `broadcast` removes the very entry it visited, which in
  such a list is the same thing (`Players.RemoveListed`).
- `deal_valid` is a function from the game and the next shuffle to a
  `Round`: the new game state, the history entry, and the messages in the
  order it broadcasts them. `pop()` on an empty list raises `IndexError`;
  here that is `Failure(EmptyDeck)`. `RoundKeepsGameValid` shows it cannot
  happen from a valid game, because every round starts from a full deck.
- `PlayRound` applies `broadcast`, with the correction under "Findings", to
  each of a round's messages and reports who is still listed.
- `add_player` tests the module-level `game.is_active` (app.py:253) rather
  than its own `self`. There is only one game, so `AddPlayer` reads the flag
  of the game it is given.

`Player.bet` only records the bet and confirms it. A hand's score is `score`
of whatever strings it holds. An empty hand scores 0, and a prefix outside
the value table counts 0. The comment at app.py:232 speaks
of a length above 10, but the code drops the oldest entry once the history
exceeds 9. The model keeps 9.

## Model

| member | source | states |
|---|---|---|
| Cards.RankPrefix | app.py:108 | `card.split("_")[0]`: the result is a prefix of the card with no underscore, and it stops exactly at the first underscore or at the end |
| Cards.Value | app.py:91-109 | a card is worth 0 to 9 points, and 0 when its rank prefix is not in the value table |
| Cards.Score | app.py:106-110 | `score` is always between 0 and 9, for any list including the empty one, where it is 0 |
| Cards.RankPrefixOfCard | app.py:29 | the rank of an identifier `rank_of_suit` is recovered by splitting at the first underscore |
| Cards.MakeCardInjective | app.py:29 | different (rank, suit) pairs give different identifiers |
| Cards.ValueOfDeckCard | app.py:91-105 | each deck card is worth its rank's points, from an independent statement of the rules: ace 1, two to nine face value, ten and court cards 0 |
| Cards.ScoreSnoc | app.py:107-110 | adding one card to a hand adds its value to the score, modulo ten |
| Cards.ScorePermutation | app.py:106-110 | the score does not depend on the order of the cards |
| Decks.Unshuffled | app.py:28-46 | the comprehension yields 52 identifiers |
| Decks.UnshuffledAt | app.py:28-46 | position k of the unshuffled list is rank k mod 13 of suit k div 13, in the order the lists are written |
| Decks.UnshuffledDistinct | app.py:28-46 | the unshuffled list has no repeats |
| Decks.ShuffleIsFullDeck | app.py:27-48 | any shuffle of it has 52 cards, no repeats, every (rank, suit) pair and no other card |
| Decks.NewDeck | app.py:27-48 | a fresh deck holds exactly one card per (rank, suit) and nothing else |
| Decks.Draw | app.py:50-51 | `draw` fails exactly on an empty deck; otherwise it returns the last card and leaves the others in order, one fewer |
| Players.NewPlayer | app.py:74-77 | `Player(name, socket)` is a new object with the given name and no bets |
| Players.PlaceBet | app.py:82-84 | `bet` appends the new bet, keeps every earlier bet and the player's identity, and answers with a bet message |
| Seqs.RemoveFirst | app.py:271 | `list.remove` removes the first occurrence and nothing else: the result is the list with exactly that position cut out, one copy fewer in the multiset, the rest in order |
| Players.RemovePlayer | app.py:270-271 | `remove_player` succeeds exactly when some listed player is the same object (same `id`), and otherwise raises; the first such player is cut out and the rest stay in order |
| Players.RemoveAfterBet | app.py:270-271 | a player that placed a bet after joining is still found and removed, since `bet` changes the listed object in place |
| Players.RemoveListed | app.py:270-280 | when `broadcast` removes a player it visited from a list that holds no object twice, `remove_player` takes out that very entry and the list still holds no object twice |
| Players.Broadcast | app.py:273-280 | `broadcast` as written yields exactly the players the left-to-right fate reading keeps and reaches, where the fate reading is `Fates` |
| Players.PickFacts | app.py:273-280 | after `broadcast` the list is an order-preserving subsequence of the list before it; a player is removed only if its send raised; every player reached had a successful send; if every send succeeds nothing changes |
| Players.FatesRule | app.py:273-280 | the fate reading itself: a player is skipped exactly when the one before it was removed, and a visited player is delivered to exactly when its send succeeds |
| Players.SkipAfterRemoval | app.py:273-280 | with two players whose sends both fail, the second is never sent to and is not removed |
| Players.BroadcastSnapshot | app.py:273-280 | the corrected `broadcast` keeps, in order, exactly the players whose send succeeded, and reaches exactly those |
| Players.SentOnlyMembers | app.py:273-280 | a player is kept by the corrected `broadcast` if and only if it was listed and its send succeeded |
| Baccarat.NewGame | app.py:114-124 | a new game is valid, with an empty history, no players and a full deck |
| Baccarat.Decide | app.py:219-224 | the winner is the player iff the player's score is higher, the banker iff it is lower, a tie iff they are equal |
| Baccarat.Record | app.py:225-234 | the round becomes the last history entry; below nine entries nothing is dropped; at nine the oldest goes |
| Baccarat.HistoryKeepsLastNine | app.py:225-234 | after any number of rounds the history holds exactly the last nine of them, oldest first, and never more than nine |
| Baccarat.DealOpening | app.py:142-187 | the first four cards are the last four of the deck, going banker, player, banker, player, and each is announced with its side's score so far |
| Baccarat.Third | app.py:192-217 | a third card, when drawn, is the deck's last card and is announced as index 2 with the new score |
| Baccarat.DealHands | app.py:142-217 | dealing succeeds whenever six cards are left and fails when fewer than four are |
| Baccarat.DealtInOrder | app.py:142-217 | the hands hold 2 or 3 cards taken from the end of the deck in the order banker, player, banker, player, then the player's third, then the banker's third |
| Baccarat.DealDrawsByRule | app.py:188-217 | the player draws a third card iff its two-card score is below 6; the banker likewise, whatever the player's third card was |
| Baccarat.OpeningNarrated | app.py:142-187 | the four opening messages announce the four opening cards in dealing order |
| Baccarat.NarrationJoin | app.py:142-217 | the opening messages followed by the third-card messages announce every card of both hands |
| Baccarat.DealNarrated | app.py:142-217 | every deal message carries the card, the side, the score of that side's cards dealt so far, and the card's position in the hand, in dealing order |
| Baccarat.DealValid | app.py:138-247 | a round starts with "start", announces every card, ends with "result"; the hands follow the dealing and third-card rules; the winner follows the scores; the round is recorded in the history; the deck is a new shuffle; the round is no longer active. The players its broadcasts remove are left to `PlayRound` |
| Baccarat.RoundKeepsGameValid | app.py:138-247 | from a valid game a round always completes and leaves a valid game: full deck, at most nine history entries, not active |
| Baccarat.FromTopDistinct | app.py:142-217 | hands dealt from a deck without repeats share no card and repeat none |
| Baccarat.DealtCardsDistinct | app.py:142-217 | in every round from a valid game, no card appears twice across both hands |
| Baccarat.BothDraw | app.py:142-217 | when both sides draw, the last six deck cards go banker, player, banker, player, player, banker |
| Baccarat.BroadcastAll | app.py:273-280 | broadcasting a list of messages keeps, in order, exactly the players every message reached |
| Baccarat.PlayRound | app.py:138-247 | a round with its broadcasts changes the game as `DealValid` does, and keeps listed exactly the players every message reached |
| Baccarat.AddPlayer | app.py:249-268 | the history is sent first, and the table only while a round is on; delivery stops at the first failed send; only a `RuntimeError` escapes; nothing but the player list changes |
| Baccarat.JoinedPlayers | app.py:249-271 | the new player ends up last in the list unless a send hangs up; then `remove_player` takes off the first listed player that is the same object, which leaves the list as it was when the player was a new object |
| Baccarat.JoinKeepsGameValid | app.py:249-268 | a player newly built by `NewPlayer`, with an identity no listed player has, joining a valid game leaves it valid: still no object listed twice |

## Left out

- The FastAPI app, the template and static routes, the startup hook, the websocket endpoint and the uvicorn entry point (app.py:16-23, 283-313). They are transport glue. The endpoint's `bet` branch reads two fields and does nothing with them.
- The `start` loop (app.py:126-136), with its clock, its sleeps, and its "time" and "clear" messages. Wall-clock time and scheduling are not modelled. Neither are the sleeps inside `deal_valid`.
- Interleaving: `add_player` may run while a round is in progress, at any `await` in `deal_valid`. `AddPlayer` accepts any game state, including an active one, and then sends a table message built from whatever table fields that game holds. No modelled operation produces an active game: `DealValid` goes from one inactive state to the next, and the states in between are not modelled.
- `socket.send_json` (app.py:79-80) and the JSON encoding. Each send is an abstract outcome, and messages are a datatype.
- `random.shuffle` (app.py:48) is the `shuffled` parameter. The debugging `print` (app.py:47) and `logging` are left out.
- Baccarat.DealValid: leaves the player list as it was. The players that the broadcasts inside `deal_valid` remove are accounted for by `PlayRound`, which runs the broadcasts over the messages `DealValid` returns.
- Baccarat.DealValid: a deck that runs out mid-round gives `Failure(EmptyDeck)` without the partial state that Python leaves behind (cards drawn, messages already sent). From a valid game this cannot happen.
- Players.PlaceBet: the bet confirmation's send failure is not modelled, and neither is `Bet`'s back-reference to its player. The updated player is returned and is not written back into the game's player list, which keeps each player as it joined.
- Players.Broadcast: requires a list that holds no object twice (no repeated `id`). `add_player` only ever appends a newly built `Player` (`NewPlayer`), and `Baccarat.JoinKeepsGameValid` shows that such a join keeps every listed `id` distinct.
- Baccarat.BroadcastAll: runs the corrected broadcast of the finding below, not the one as written, so a player that the loop at app.py:274-280 jumps over after a removal is visited here.
- Baccarat.PlayRound: uses the corrected broadcast of the finding below through `BroadcastAll`, not the one as written.
- `Deck.__len__` is `Decks.Size`, which carries no contract of its own.
- config.py only reads environment variables.

## Findings

| source | as written | input that shows it | evidently intended | confidence | as-written member | corrected member |
|---|---|---|---|---|---|---|
| app.py:273-280 | `broadcast` iterates over `self.players` while `remove_player` removes from that same list, so the iterator jumps over the player after each removed one | players [a, b] whose sends both fail: a is removed, b is neither sent the message nor removed | visit every player, by iterating over a copy of the list: every failing player is removed and every other one is sent the message | not executed | Players.SkipAfterRemoval | Players.BroadcastSnapshot |
