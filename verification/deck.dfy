/**
 The deck: the 52 cards built suit by suit in rank order, then shuffled.
 The shuffle is the Fisher-Yates pass of Python's `random.shuffle`; the random
 indices it draws are a parameter.
 */
module Deck {
  import opened Cards

  /** All cards of one suit, ace to king. */
  function SuitRow(s: Suit): (row: seq<Card>)
    ensures |row| == 13
    ensures forall r: RankValue :: row[r].rank == r && row[r].suit == s
  {
    seq(13, (r: int) requires 0 <= r < 13 => Card(r, s))
  }

  /** The deck before the shuffle: suit-major, ranks ascending within a suit. */
  function CanonicalDeck(): (d: seq<Card>)
    ensures |d| == 52
    ensures forall i :: 0 <= i < 52 ==> d[i] == Card(i % 13, Suits[i / 13])
  {
    SuitRow(Hearts) + SuitRow(Diamonds) + SuitRow(Clubs) + SuitRow(Spades)
  }

  /** Where a card sits in the canonical deck. */
  function Position(c: Card): (p: nat)
    ensures p < 52 && CanonicalDeck()[p] == c
  {
    13 * SuitIndex(c.suit) + c.rank
  }

  /** Every card of the game occurs exactly once in `d`. */
  ghost predicate ExactlyOnce(d: seq<Card>)
  {
    forall c: Card :: multiset(d)[c] == 1
  }

  /** `d` is some ordering of the full deck. */
  ghost predicate IsFullDeck(d: seq<Card>)
  {
    multiset(d) == multiset(CanonicalDeck())
  }

  /** In a sequence without repeated elements every element occurs once. */
  lemma {:induction false} DistinctOccursOnce(s: seq<Card>, c: Card)
    requires forall i, j :: 0 <= i < j < |s| ==> s[i] != s[j]
    requires c in s
    ensures multiset(s)[c] == 1
  {
    var init, last := s[..|s| - 1], s[|s| - 1];
    assert s == init + [last];
    if c == last {
      assert c !in init by {
        forall k | 0 <= k < |init|
          ensures init[k] != c
        {
          assert s[k] != s[|s| - 1];
        }
      }
    } else {
      DistinctOccursOnce(init, c);
    }
  }

  /** The canonical deck holds every (rank, suit) pair exactly once. */
  lemma CanonicalDeckExactlyOnce()
    ensures ExactlyOnce(CanonicalDeck())
  {
    var d := CanonicalDeck();
    forall c: Card
      ensures multiset(d)[c] == 1
    {
      assert d[Position(c)] == c;
      forall i, j | 0 <= i < j < |d|
        ensures d[i] != d[j]
      {
        assert Position(d[i]) == i && Position(d[j]) == j;
      }
      DistinctOccursOnce(d, c);
    }
  }

  /** Any ordering of the full deck has 52 cards, each card exactly once. */
  lemma FullDeckExactlyOnce(d: seq<Card>)
    requires IsFullDeck(d)
    ensures |d| == 52
    ensures ExactlyOnce(d)
  {
    CanonicalDeckExactlyOnce();
    assert |d| == |multiset(d)| == |multiset(CanonicalDeck())| == 52;
  }

  /** Exchanges the elements at positions `i` and `j`. */
  function Swap(s: seq<Card>, i: nat, j: nat): (t: seq<Card>)
    requires i < |s| && j < |s|
    ensures |t| == |s| && t[i] == s[j] && t[j] == s[i]
    ensures forall k :: 0 <= k < |s| && k != i && k != j ==> t[k] == s[k]
    ensures multiset(t) == multiset(s)
  {
    s[i := s[j]][j := s[i]]
  }

  /**
   The indices a Fisher-Yates pass over `n` elements may draw: the k-th draw,
   made for position n-1-k, lies between 0 and n-1-k.
   */
  predicate ValidPicks(n: nat, picks: seq<int>)
  {
    && |picks| == (if n == 0 then 0 else n - 1)
    && forall k :: 0 <= k < |picks| ==> 0 <= picks[k] <= n - 1 - k
  }

  /**
   Python's `random.shuffle`: for i from the last position down to 1, swap
   position i with a drawn position j, 0 <= j <= i. The result is a
   permutation of the input whatever the draws are.
   */
  method Shuffle(deck: seq<Card>, picks: seq<int>) returns (r: seq<Card>)
    requires ValidPicks(|deck|, picks)
    ensures |r| == |deck|
    ensures multiset(r) == multiset(deck)
  {
    r := deck;
    var i := |deck| - 1;
    while i >= 1
      invariant -1 <= i < |deck|
      invariant |r| == |deck|
      invariant multiset(r) == multiset(deck)
      decreases i
    {
      var j := picks[|deck| - 1 - i];
      r := Swap(r, i, j);
      i := i - 1;
    }
  }

  /** `create_deck`: the canonical deck, shuffled. */
  method CreateDeck(picks: seq<int>) returns (d: seq<Card>)
    requires ValidPicks(52, picks)
    ensures IsFullDeck(d)
    ensures |d| == 52 && ExactlyOnce(d)
  {
    d := Shuffle(CanonicalDeck(), picks);
    FullDeckExactlyOnce(d);
  }
}
