/** The values app.py puts into the JSON messages it sends. */
module Messages {
  import opened Cards

  /** `deal_type` of a deal message. */
  datatype Side = BankerSide | PlayerSide

  /** The `winner` string of a round: "player", "banker" or "tie". */
  datatype Winner = PlayerWins | BankerWins | Tie

  /** One entry of `Game.history`, also the body of a "result" message. */
  datatype RoundRecord = RoundRecord(banker: seq<Card>, player: seq<Card>, winner: Winner)

  /** `BetType`. */
  datatype BetType = PlayerBet | BankerBet | TieBet

  /** The messages of the modelled operations, by their "type" field. */
  datatype Message =
    | StartMsg                                                   // {"type": "start"}
    | DealMsg(card: Card, side: Side, score: int, index: nat)   // {"type": "deal", ...}
    | ResultMsg(record: RoundRecord)                            // {"type": "result", ...}
    | HistoryMsg(history: seq<RoundRecord>)                     // {"type": "history", ...}
    | GameMsg(bankerCards: seq<Card>, bankerScore: int,
              playerCards: seq<Card>, playerScore: int)         // {"type": "game", ...}
    | BetMsg(kind: BetType, amount: int)                        // {"type": "bet", ...}
}
