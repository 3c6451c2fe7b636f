/**
 The deal: thirteen columns of four cards, each card popped from the end of
 the deck, the first column filled first.
 */
module Deal {
  import opened Optional
  import opened Cards
  import opened Tableau

  const ColumnCount: nat := 13
  const CardsPerColumn: nat := 4

  /** What the deal leaves: the columns and the rest of the deck. */
  datatype Dealt = Dealt(tableau: seq<Column>, deck: seq<Card>)

  /** Thirteen columns of four cards each. */
  predicate DealtShape(tableau: seq<Column>)
  {
    && |tableau| == ColumnCount
    && forall i :: 0 <= i < |tableau| ==> |tableau[i]| == CardsPerColumn
  }

  /**
   Pops four cards off the end of `d`, appending each to a new column; an
   error if `d` runs out first.
   */
  method PopColumn(d: seq<Card>) returns (r: Option<(Column, seq<Card>)>)
    ensures r.None? <==> |d| < CardsPerColumn
    ensures r.Some? ==> |r.value.0| == CardsPerColumn && r.value.1 == d[..|d| - CardsPerColumn]
    ensures r.Some? ==> forall k :: 0 <= k < CardsPerColumn ==> r.value.0[k] == d[|d| - 1 - k]
    ensures r.Some? ==> multiset(r.value.0) + multiset(r.value.1) == multiset(d)
  {
    var rest := d;
    var col: Column := [];
    while |col| < CardsPerColumn
      invariant |col| <= CardsPerColumn && |col| <= |d|
      invariant rest == d[..|d| - |col|]
      invariant forall k :: 0 <= k < |col| ==> col[k] == d[|d| - 1 - k]
      invariant multiset(col) + multiset(rest) == multiset(d)
    {
      if |rest| == 0 {
        return None;
      }
      var card := rest[|rest| - 1];
      assert rest == rest[..|rest| - 1] + [card];
      rest := rest[..|rest| - 1];
      col := col + [card];
    }
    r := Some((col, rest));
  }

  /**
   `deal_cards`: for each of the 13 columns in order, pop four cards off the
   end of the deck and append them to the column. Popping an empty deck is an
   error (None). Column i receives the cards at 4i, 4i+1, 4i+2, 4i+3 counted
   from the end of the deck, in that order.
   */
  method DealCards(deck: seq<Card>) returns (r: Option<Dealt>)
    ensures r.None? <==> |deck| < ColumnCount * CardsPerColumn
    ensures r.Some? ==> DealtShape(r.value.tableau)
    ensures r.Some? ==> forall i, k :: 0 <= i < ColumnCount && 0 <= k < CardsPerColumn ==>
                          r.value.tableau[i][k] == deck[|deck| - 1 - CardsPerColumn * i - k]
    ensures r.Some? ==> r.value.deck == deck[..|deck| - ColumnCount * CardsPerColumn]
    ensures r.Some? ==> CardsOf(r.value.tableau) + multiset(r.value.deck) == multiset(deck)
  {
    var d := deck;
    var tableau: seq<Column> := [];
    while |tableau| < ColumnCount
      invariant |tableau| <= ColumnCount
      invariant CardsPerColumn * |tableau| <= |deck|
      invariant d == deck[..|deck| - CardsPerColumn * |tableau|]
      invariant forall i :: 0 <= i < |tableau| ==> |tableau[i]| == CardsPerColumn
      invariant forall i, k :: 0 <= i < |tableau| && 0 <= k < CardsPerColumn ==>
                  tableau[i][k] == deck[|deck| - 1 - CardsPerColumn * i - k]
      invariant CardsOf(tableau) + multiset(d) == multiset(deck)
    {
      var popped := PopColumn(d);
      if popped.None? {
        return None;
      }
      var (col, rest) := popped.value;
      CardsOfAppend(tableau, col);
      assert forall k :: 0 <= k < CardsPerColumn ==>
               col[k] == deck[|deck| - 1 - CardsPerColumn * |tableau| - k];
      tableau, d := tableau + [col], rest;
    }
    r := Some(Dealt(tableau, d));
  }
}
