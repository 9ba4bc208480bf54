/** Card identifiers and the baccarat point count (`score` in app.py). */
module Cards {
  import opened Seqs


  /** A card is the string app.py deals, such as "7_of_hearts". */
  type Card = string

  /** The rank and suit lists of `Deck.__init__`, in the order written there. */
  const Ranks: seq<string> := ["2", "3", "4", "5", "6", "7", "8", "9", "10", "jack", "queen", "king", "ace"]
  const Suits: seq<string> := ["hearts", "diamonds", "clubs", "spades"]

  /** The identifier `f"{rank}_of_{suit}"`. */
  function MakeCard(rank: string, suit: string): Card {
    rank + "_of_" + suit
  }

  /** `card.split("_")[0]`: the longest prefix that contains no underscore. */
  function RankPrefix(card: Card): (r: string)
    ensures r <= card
    ensures '_' !in r
    ensures |r| < |card| ==> card[|r|] == '_'
  {
    if card == [] || card[0] == '_' then ""
    else [card[0]] + RankPrefix(card[1..])
  }

  /** The `card_values` table of `score`. */
  const CardValues: map<string, int> := map[
    "ace" := 1, "2" := 2, "3" := 3, "4" := 4, "5" := 5, "6" := 6, "7" := 7, "8" := 8, "9" := 9,
    "10" := 0, "jack" := 0, "queen" := 0, "king" := 0]

  /** `card_values.get(prefix, 0)`: a prefix outside the table is worth nothing. */
  function Value(card: Card): (v: int)
    ensures 0 <= v <= 9
    ensures RankPrefix(card) !in CardValues ==> v == 0
  {
    var rank := RankPrefix(card);
    if rank in CardValues then CardValues[rank] else 0
  }

  /** The running sum `s_` of `score` after the loop has seen every card. */
  function Total(cards: seq<Card>): (t: int)
    ensures 0 <= t <= 9 * |cards|
  {
    SumBounds(cards, Value, 9);
    Sum(cards, Value)
  }

  /** `score(cards)`: the point count of a hand, for any list of strings,
      including the empty one. */
  function Score(cards: seq<Card>): (r: int)
    ensures 0 <= r <= 9
    ensures cards == [] ==> r == 0
  {
    Total(cards) % 10
  }

  /** The points of the rank at position `i` of `Ranks`, written from the
      rules of the game rather than from the table: ace counts one, two to
      nine count their face, ten and the court cards count nothing. */
  function RankPoints(i: nat): int
    requires i < |Ranks|
  {
    if i == |Ranks| - 1 then 1 else if i < 8 then i + 2 else 0
  }

  // ---------------------------------------------------------------------------
  // Identifiers

  /** The rank of a deck identifier is recovered by `split("_")[0]`. */
  lemma {:induction false} RankPrefixOfCard(rank: string, suit: string)
    requires '_' !in rank
    ensures RankPrefix(MakeCard(rank, suit)) == rank
    decreases |rank|
  {
    var card := MakeCard(rank, suit);
    if rank != [] {
      assert card[1..] == MakeCard(rank[1..], suit);
      RankPrefixOfCard(rank[1..], suit);
    }
  }

  lemma RanksHaveNoUnderscore()
    ensures forall i :: 0 <= i < |Ranks| ==> '_' !in Ranks[i]
  {
  }

  lemma RanksDistinct()
    ensures forall i, j :: 0 <= i < j < |Ranks| ==> Ranks[i] != Ranks[j]
  {
  }

  lemma SuitsDistinct()
    ensures forall i, j :: 0 <= i < j < |Suits| ==> Suits[i] != Suits[j]
  {
  }

  /** Different (rank, suit) pairs give different identifiers. */
  lemma MakeCardInjective(r1: string, s1: string, r2: string, s2: string)
    requires '_' !in r1 && '_' !in r2
    requires MakeCard(r1, s1) == MakeCard(r2, s2)
    ensures r1 == r2 && s1 == s2
  {
    RankPrefixOfCard(r1, s1);
    RankPrefixOfCard(r2, s2);
    var c := MakeCard(r1, s1);
    assert s1 == c[|r1| + 4..];
    assert s2 == c[|r2| + 4..];
  }

  // ---------------------------------------------------------------------------
  // Scoring

  /** Every one of the 52 deck cards is worth the points of its rank. */
  lemma ValueOfDeckCard(i: nat, suit: string)
    requires i < |Ranks|
    ensures Value(MakeCard(Ranks[i], suit)) == RankPoints(i)
  {
    RanksHaveNoUnderscore();
    RankPrefixOfCard(Ranks[i], suit);
  }

  /** Dealing one more card adds its value to the count, modulo ten. */
  lemma ScoreSnoc(cards: seq<Card>, c: Card)
    ensures Score(cards + [c]) == (Score(cards) + Value(c)) % 10
  {
    SumSnoc(cards, c, Value);
    ModTenAdd(Total(cards), Value(c));
  }

  lemma ModTenAdd(t: int, v: int)
    ensures (t + v) % 10 == (t % 10 + v) % 10
  {
    var q := t / 10;
    assert t + v == 10 * q + (t % 10 + v);
  }

  /** The order in which the cards arrive does not change the score. */
  lemma ScorePermutation(a: seq<Card>, b: seq<Card>)
    requires multiset(a) == multiset(b)
    ensures Score(a) == Score(b)
  {
    SumPermutation(a, b, Value);
  }
}
