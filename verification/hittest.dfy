/**
 Which tableau column and which foundation pile a drop targets.

 On release the handler scans the columns in order and takes the first one
 under the pointer: a non-empty column whose top card contains the pointer,
 or an empty column when the pointer lies in a horizontal strip. That strip is
 computed from the index the column is found at by list equality, which is
 the index of the first empty column; so only the first empty column can ever
 be hit. The column a card was picked up from still has that card on top, and
 the card follows the pointer, so the source column is always under the
 pointer too.

 `hits[k]` is the result of the hit test for column k. The scan as written
 includes the source column; the corrected scan skips it, and it is the
 corrected target that a `Drop`'s column stands for in the rest of the model.

 The handler then walks the four foundation piles in suit order and stops at
 the first one that is under the pointer and takes the card. A non-empty pile
 is under the pointer when its top card is, and that card stays where it was
 dropped, so several piles can be under the pointer at once. `slotHits[k]` is
 the hit test for the pile keyed `Suits[k]`; the pile the walk ends on is what
 a `Drop`'s slot stands for.
 */
module HitTest {
  import opened Optional
  import opened Cards
  import opened Tableau
  import opened Rules
  import opened Game
  import opened Search

  /** The target column as the handler computes it: the source column is scanned too. */
  function ScannedTargetAsWritten(hits: seq<bool>): (r: Option<nat>)
    ensures r.Some? ==> r.value < |hits| && hits[r.value]
    ensures r.Some? ==> forall k :: 0 <= k < r.value ==> !hits[k]
    ensures r.None? ==> forall k :: 0 <= k < |hits| ==> !hits[k]
  {
    FirstIndex(hits, (b: bool) => b, 0)
  }

  /** The target column with the source column skipped: the first other column hit. */
  function ScannedTarget(hits: seq<bool>, src: int): (r: Option<nat>)
    ensures r.Some? ==> r.value < |hits| && hits[r.value] && r.value != src
    ensures r.Some? ==> forall k :: 0 <= k < r.value && k != src ==> !hits[k]
    ensures r.None? ==> forall k :: 0 <= k < |hits| && k != src ==> !hits[k]
  {
    var others := if 0 <= src < |hits| then hits[src := false] else hits;
    assert |others| == |hits| && forall k :: 0 <= k < |hits| && k != src ==> others[k] == hits[k];
    FirstIndex(others, (b: bool) => b, 0)
  }

  /**
   As written, when no column left of the source is under the pointer the scan
   stops at the source column, so the drop can never complete a tableau move.
   */
  lemma AsWrittenScanStopsAtSource(t: Table, src: int, hits: seq<bool>, slot: Option<Suit>)
    requires Holds(t, src) && |hits| == |t.tableau|
    requires hits[src]
    requires forall k :: 0 <= k < src ==> !hits[k]
    ensures ScannedTargetAsWritten(hits) == Some(src)
    ensures !Resolve(t, src, Drop(ScannedTargetAsWritten(hits), slot)).OntoColumn?
  {
  }

  /**
   The pointer is over the source column (under the dragged card) and over
   column j to its right, and column j accepts the card. As written the card
   snaps back; with the corrected scan it moves onto column j.
   */
  lemma RightwardDropDiscrepancy(t: Table, src: int, j: nat, hits: seq<bool>)
    requires Holds(t, src) && |hits| == |t.tableau|
    requires src < j < |hits| && hits[src] && hits[j]
    requires forall k :: 0 <= k < |hits| && k != src && k != j ==> !hits[k]
    requires IsValidMove(Top(t.tableau[src]), t.tableau[j])
    ensures Resolve(t, src, Drop(ScannedTargetAsWritten(hits), None)) == SnapBack
    ensures Resolve(t, src, Drop(ScannedTarget(hits, src), None)) == OntoColumn(j)
  {
    AsWrittenScanStopsAtSource(t, src, hits, None);
  }

  /**
   The corrected scan finds the column the card was dropped on whenever that
   is the only column other than the source under the pointer.
   */
  lemma ScannedTargetFindsDropColumn(hits: seq<bool>, src: int, j: nat)
    requires j < |hits| && hits[j] && j != src
    requires forall k :: 0 <= k < |hits| && k != src && k != j ==> !hits[k]
    ensures ScannedTarget(hits, src) == Some(j)
  {
  }

  /**
   A concrete input: the 5 of hearts alone in column 0, the 6 of spades alone
   in column 1, the card dropped on column 1.
   */
  lemma RightwardDropExample()
    ensures
      var t := Table([[Card(4, Hearts)], [Card(5, Spades)]], NoFoundations);
      && IsValidMove(Card(4, Hearts), t.tableau[1])
      && ApplyMove(t, 0, Drop(ScannedTargetAsWritten([true, true]), None)) == t
      && ApplyMove(t, 0, Drop(ScannedTarget([true, true], 0), None)).tableau == [[], [Card(5, Spades), Card(4, Hearts)]]
  {
    var t := Table([[Card(4, Hearts)], [Card(5, Spades)]], NoFoundations);
    RightwardDropDiscrepancy(t, 0, 1, [true, true]);
    var r := ApplyMove(t, 0, Drop(ScannedTarget([true, true], 0), None));
    assert r.tableau[0] == [] && r.tableau[1] == [Card(5, Spades), Card(4, Hearts)];
  }

  /**
   The pile the foundation walk ends on: the first pile, in suit order, that
   is under the pointer and takes the card; none if there is no such pile.
   */
  function FoundationTarget(t: Table, card: Card, slotHits: seq<bool>): (r: Option<Suit>)
    requires |slotHits| == |Suits|
    ensures r.Some? ==> slotHits[SuitIndex(r.value)]
                        && IsValidFoundationMove(card, t.foundations.Pile(r.value))
    ensures r.Some? ==> forall k :: 0 <= k < SuitIndex(r.value) && slotHits[k] ==>
                          !IsValidFoundationMove(card, t.foundations.Pile(Suits[k]))
    ensures r.None? ==> forall k :: 0 <= k < |Suits| && slotHits[k] ==>
                          !IsValidFoundationMove(card, t.foundations.Pile(Suits[k]))
  {
    var takes := seq(|Suits|, (k: int) requires 0 <= k < |Suits| =>
                   slotHits[k] && PileTakes(card, t.foundations.Pile(Suits[k])));
    assert forall k :: 0 <= k < |Suits| ==>
             (takes[k] <==> slotHits[k] && IsValidFoundationMove(card, t.foundations.Pile(Suits[k])));
    match FirstIndex(takes, (b: bool) => b, 0)
    case None => None
    case Some(k) =>
      assert SuitIndex(Suits[k]) == k;
      Some(Suits[k])
  }


  /**
   With the pile the walk ends on as the drop's slot, the card goes to a
   foundation exactly when some pile under the pointer takes it.
   */
  lemma FoundationWalkDecidesFoundationMove(t: Table, src: int, column: Option<nat>, slotHits: seq<bool>)
    requires Holds(t, src) && |slotHits| == |Suits|
    ensures var card := Top(t.tableau[src]);
            Resolve(t, src, Drop(column, FoundationTarget(t, card, slotHits))).OntoFoundation?
            <==> exists k :: 0 <= k < |Suits| && slotHits[k]
                             && IsValidFoundationMove(card, t.foundations.Pile(Suits[k]))
  {
  }

  /**
   A concrete input: the ace of hearts sits on the hearts pile, dropped so
   that it overlaps the empty diamonds slot, and the ace of spades is released
   over both. The hearts pile refuses it, the walk goes on, and the diamonds
   pile takes it.
   */
  lemma OverlappingPilesExample()
    ensures
      var t := Table([[Card(Ace, Spades)]], NoFoundations.WithPile(Hearts, [Card(Ace, Hearts)]));
      && FoundationTarget(t, Card(Ace, Spades), [true, true, false, false]) == Some(Diamonds)
      && ApplyMove(t, 0, Drop(None, Some(Diamonds))).foundations.Pile(Diamonds) == [Card(Ace, Spades)]
  {
    var t := Table([[Card(Ace, Spades)]], NoFoundations.WithPile(Hearts, [Card(Ace, Hearts)]));
    var r := FoundationTarget(t, Card(Ace, Spades), [true, true, false, false]);
    assert !IsValidFoundationMove(Card(Ace, Spades), t.foundations.Pile(Suits[0]));
    assert IsValidFoundationMove(Card(Ace, Spades), t.foundations.Pile(Suits[1]));
    assert r.Some? && SuitIndex(r.value) <= 1;
    assert r.value != Hearts;
  }
}
