/**
 Cards of the Baker's Dozen game: the four suits in their fixed order, the
 thirteen ranks with their ordinal values (ace = 0 up to king = 12), and the
 table that maps a rank's name to its value.
 */
module Cards {
  import opened Optional
  import opened Search

  datatype Suit = Hearts | Diamonds | Clubs | Spades

  /** The suit order of the game; it fixes the order in which the deck is built. */
  const Suits: seq<Suit> := [Hearts, Diamonds, Clubs, Spades]

  /** A rank is represented by its ordinal value. */
  type RankValue = r: int | 0 <= r < 13

  const Ace: RankValue := 0
  const King: RankValue := 12

  /** A card is its rank and suit; there is no other identity. */
  datatype Card = Card(rank: RankValue, suit: Suit)

  /** The rank names, ace first; a rank's value is its position here. */
  const RankNames: seq<string> :=
    ["ace", "2", "3", "4", "5", "6", "7", "8", "9", "10", "jack", "queen", "king"]

  /** The position of a suit in the suit order. */
  function SuitIndex(s: Suit): (k: nat)
    ensures k < |Suits| && Suits[k] == s
  {
    match s
    case Hearts => 0
    case Diamonds => 1
    case Clubs => 2
    case Spades => 3
  }

  /** The name of a rank. */
  function RankName(v: RankValue): string
  {
    RankNames[v]
  }

  /**
   The value of a rank name, the dictionary built by enumerating the rank
   names; a name that is not a rank has no value (a lookup error).
   */
  function RankValueOf(name: string): (r: Option<RankValue>)
    ensures r.Some? ==> RankName(r.value) == name
    ensures r.None? ==> name !in RankNames
  {
    match FirstIndex(RankNames, (n: string) => n == name, 0)
    case None => None
    case Some(k) => Some(k)
  }

  /** The rank names are pairwise distinct. */
  lemma RankNamesDistinct()
    ensures forall i, j :: 0 <= i < j < |RankNames| ==> RankNames[i] != RankNames[j]
  {
  }

  /** Looking up a rank's name gives back the rank. */
  lemma RankNameRoundTrip(v: RankValue)
    ensures RankValueOf(RankName(v)) == Some(v)
  {
    RankNamesDistinct();
    var r := FirstIndex(RankNames, (n: string) => n == RankName(v), 0);
    assert r.Some? by {
      assert RankNames[v] == RankName(v);
    }
  }

  /** The names used by the rules denote the expected values. */
  lemma SpecialRankNames()
    ensures RankValueOf("ace") == Some(Ace)
    ensures RankValueOf("king") == Some(King)
    ensures RankValueOf("joker") == None
  {
    RankNameRoundTrip(Ace);
    RankNameRoundTrip(King);
  }
}
