/** The `Deck` class of app.py: 52 shuffled identifiers, dealt from the end. */
module Decks {
  import opened Wrappers
  import opened Seqs
  import opened Cards

  datatype Deck = Deck(cards: seq<Card>)

  /** One card drawn and the deck that is left. */
  datatype Drawn = Drawn(card: Card, rest: Deck)

  /** The thirteen identifiers of one suit, ranks in `Ranks` order. */
  function SuitRow(suit: string): seq<Card> {
    seq(|Ranks|, j requires 0 <= j < |Ranks| => MakeCard(Ranks[j], suit))
  }

  /** The list comprehension of `Deck.__init__` before the shuffle: suit by
      suit in the outer loop, rank by rank in the inner one. */
  function Unshuffled(): (cards: seq<Card>)
    ensures |cards| == |Suits| * |Ranks| == 52
  {
    SuitRow(Suits[0]) + SuitRow(Suits[1]) + SuitRow(Suits[2]) + SuitRow(Suits[3])
  }

  /** A card of the standard 52: some rank of `Ranks` with some suit of `Suits`. */
  ghost predicate IsStandard(c: Card) {
    exists i, s :: 0 <= i < |Ranks| && 0 <= s < |Suits| && c == MakeCard(Ranks[i], Suits[s])
  }

  /** `random.shuffle` leaves some rearrangement of the 52 identifiers. */
  predicate IsShuffle(cards: seq<Card>) {
    multiset(cards) == multiset(Unshuffled())
  }

  /** `Deck()`: the shuffle's outcome is the parameter; the deck holds exactly
      one card per (rank, suit) and nothing else. */
  function NewDeck(shuffled: seq<Card>): (d: Deck)
    requires IsShuffle(shuffled)
    ensures |d.cards| == 52
    ensures Distinct(d.cards)
    ensures forall i, s :: 0 <= i < |Ranks| && 0 <= s < |Suits| ==> MakeCard(Ranks[i], Suits[s]) in d.cards
    ensures forall c :: c in d.cards ==> IsStandard(c)
  {
    ShuffleIsFullDeck(shuffled);
    Deck(shuffled)
  }

  /** `len(deck)`. */
  function Size(d: Deck): nat {
    |d.cards|
  }

  /** `draw`: `list.pop()` takes the LAST card; an exhausted deck raises. */
  function Draw(d: Deck): (r: Result<Drawn, Fault>)
    ensures r.Success? <==> Size(d) > 0
    ensures r.Failure? ==> r.error == EmptyDeck
    ensures r.Success? ==> r.value.rest.cards + [r.value.card] == d.cards
    ensures r.Success? ==> Size(r.value.rest) == Size(d) - 1
  {
    if d.cards == [] then Failure(EmptyDeck)
    else Success(Drawn(d.cards[|d.cards| - 1], Deck(d.cards[..|d.cards| - 1])))
  }

  // ---------------------------------------------------------------------------

  /** Position `k` of the unshuffled list holds rank `k % 13` of suit `k / 13`. */
  lemma UnshuffledAt(k: nat)
    requires k < 52
    ensures Unshuffled()[k] == MakeCard(Ranks[k % 13], Suits[k / 13])
  {
    var s, j := k / 13, k % 13;
    assert k == s * 13 + j;
    var rows := [SuitRow(Suits[0]), SuitRow(Suits[1]), SuitRow(Suits[2]), SuitRow(Suits[3])];
    assert Unshuffled()[k] == rows[s][j] by {
      if s == 0 {
      } else if s == 1 {
      } else if s == 2 {
      } else {
      }
    }
  }

  /** The unshuffled list has no repeats. */
  lemma UnshuffledDistinct()
    ensures Distinct(Unshuffled())
  {
    var u := Unshuffled();
    RanksHaveNoUnderscore();
    RanksDistinct();
    SuitsDistinct();
    forall a, b | 0 <= a < b < 52
      ensures u[a] != u[b]
    {
      if u[a] == u[b] {
        UnshuffledAt(a);
        UnshuffledAt(b);
        MakeCardInjective(Ranks[a % 13], Suits[a / 13], Ranks[b % 13], Suits[b / 13]);
      }
    }
  }

  /** Every (rank, suit) pair occurs in the unshuffled list. */
  lemma UnshuffledComplete(i: nat, s: nat)
    requires i < |Ranks| && s < |Suits|
    ensures MakeCard(Ranks[i], Suits[s]) in Unshuffled()
  {
    var k := s * 13 + i;
    assert k % 13 == i && k / 13 == s;
    UnshuffledAt(k);
  }

  /** What a shuffle keeps: 52 cards, no repeats, every (rank, suit), nothing else. */
  lemma ShuffleIsFullDeck(cards: seq<Card>)
    requires IsShuffle(cards)
    ensures |cards| == 52
    ensures Distinct(cards)
    ensures forall i, s :: 0 <= i < |Ranks| && 0 <= s < |Suits| ==> MakeCard(Ranks[i], Suits[s]) in cards
    ensures forall c :: c in cards ==> IsStandard(c)
  {
    var u := Unshuffled();
    assert |cards| == |multiset(cards)| == |multiset(u)| == 52;
    UnshuffledDistinct();
    DistinctPermutation(u, cards);
    forall i, s | 0 <= i < |Ranks| && 0 <= s < |Suits|
      ensures MakeCard(Ranks[i], Suits[s]) in cards
    {
      UnshuffledComplete(i, s);
      assert MakeCard(Ranks[i], Suits[s]) in multiset(u);
    }
    forall c | c in cards
      ensures IsStandard(c)
    {
      assert c in multiset(u);
      var k :| 0 <= k < 52 && u[k] == c;
      UnshuffledAt(k);
    }
  }
}
