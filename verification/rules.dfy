/**
 The two legality rules of Baker's Dozen and the shape every foundation pile
 keeps: an ace-upward run of one suit.
 */
module Rules {
  import opened Cards
  import opened Tableau

  /**
   `is_valid_move`: a card may go onto a tableau column only if the column is
   non-empty and the card is exactly one rank below the column's top card.
   The suit plays no part.
   */
  function IsValidMove(card: Card, target: Column): (ok: bool)
    ensures |target| == 0 ==> !ok
    ensures card.rank == King ==> !ok
    ensures ok <==> |target| > 0 && Top(target).rank == card.rank + 1
  {
    if |target| == 0 then false
    else card.rank == Top(target).rank - 1
  }

  /**
   `is_valid_foundation_move`: an empty pile takes only an ace; a non-empty
   pile takes the card of its top card's suit that is one rank higher.
   */
  function IsValidFoundationMove(card: Card, pile: Column): (ok: bool)
    ensures |pile| == 0 ==> (ok <==> card.rank == Ace)
    ensures |pile| > 0 ==> (ok <==> card.suit == Top(pile).suit && card.rank == Top(pile).rank + 1)
    ensures |pile| > 0 && Top(pile).rank == King ==> !ok
  {
    if |pile| == 0 then card.rank == Ace
    else card.suit == Top(pile).suit && card.rank == Top(pile).rank + 1
  }

  /**
   Whether the pile takes the card, as the release handler tests it: a
   non-empty pile by the foundation rule, an empty one by the card being an
   ace.
   */
  function PileTakes(card: Card, pile: Column): (ok: bool)
    ensures ok == IsValidFoundationMove(card, pile)
  {
    if |pile| > 0 then IsValidFoundationMove(card, pile) else card.rank == Ace
  }

  /** Whether `card` may go onto `target` does not depend on the card's suit. */
  lemma TableauMoveIgnoresSuit(card: Card, s: Suit, target: Column)
    ensures IsValidMove(card, target) == IsValidMove(Card(card.rank, s), target)
  {
  }

  /** The cards one rank below `top`, one of each suit; there is none below an ace. */
  function RankBelow(top: Card): (cards: set<Card>)
    ensures top.rank == Ace ==> |cards| == 0
    ensures top.rank != Ace ==> |cards| == 4
    ensures forall c :: c in cards ==> c.rank + 1 == top.rank
  {
    if top.rank == Ace then {}
    else
      var r := top.rank - 1;
      {Card(r, Hearts), Card(r, Diamonds), Card(r, Clubs), Card(r, Spades)}
  }

  /**
   A non-empty column accepts exactly the four cards one rank below its top
   card, whatever their suit, and nothing when its top card is an ace.
   */
  lemma TableauAcceptsRankBelow(card: Card, target: Column)
    requires |target| > 0
    ensures IsValidMove(card, target) <==> card in RankBelow(Top(target))
  {
    if IsValidMove(card, target) {
      var r := Top(target).rank - 1;
      match card.suit
      case Hearts => assert card == Card(r, Hearts);
      case Diamonds => assert card == Card(r, Diamonds);
      case Clubs => assert card == Card(r, Clubs);
      case Spades => assert card == Card(r, Spades);
    }
  }

  /**
   Bottom to top, the pile is ace, 2, 3, ... with no gap, all of the suit of
   its bottom card. The empty pile is a run.
   */
  predicate IsAceRun(pile: Column)
  {
    forall k :: 0 <= k < |pile| ==> pile[k].rank == k && pile[k].suit == pile[0].suit
  }

  /** The first `n` cards of suit `s`, ace upward. */
  function AceRun(s: Suit, n: nat): (run: Column)
    requires n <= 13
    ensures |run| == n
  {
    seq(n, (k: int) requires 0 <= k < n => Card(k, s))
  }

  /**
   A non-empty pile is a run exactly when it is the first |pile| cards of its
   bottom card's suit; a run therefore has at most 13 cards, and its top card's
   rank is one less than its length.
   */
  lemma AceRunIsPrefixOfSuit(pile: Column)
    requires |pile| > 0
    ensures IsAceRun(pile) <==> |pile| <= 13 && pile == AceRun(pile[0].suit, |pile|)
    ensures IsAceRun(pile) ==> Top(pile).rank == |pile| - 1
  {
    if IsAceRun(pile) {
      assert pile[|pile| - 1].rank == |pile| - 1;
    }
  }

  /**
   On a run, a foundation move is legal exactly when the pile with the card
   on top is still a run.
   */
  lemma FoundationMoveKeepsRun(card: Card, pile: Column)
    requires IsAceRun(pile)
    ensures IsValidFoundationMove(card, pile) <==> IsAceRun(pile + [card])
  {
    var grown := pile + [card];
    if |pile| > 0 {
      assert Top(pile).rank == |pile| - 1 && Top(pile).suit == pile[0].suit;
      if IsAceRun(grown) {
        assert grown[|pile|] == card && grown[0] == pile[0];
      }
      if IsValidFoundationMove(card, pile) {
        forall k | 0 <= k < |grown|
          ensures grown[k].rank == k && grown[k].suit == grown[0].suit
        {
          if k < |pile| {
            assert grown[k] == pile[k];
          }
        }
      }
    } else {
      assert grown[0] == card && |grown| == 1;
    }
  }
}
