/**
 Columns of cards and the multiset of cards a sequence of columns holds.
 A column is read bottom to top: its last card is the top card, the only one
 that can be picked up or built upon.
 */
module Tableau {
  import opened Cards

  type Column = seq<Card>

  /** The top card of a non-empty column. */
  function Top(col: Column): Card
    requires |col| > 0
  {
    col[|col| - 1]
  }

  /** The column without its top card. */
  function Pop(col: Column): (rest: Column)
    requires |col| > 0
    ensures rest + [Top(col)] == col
  {
    col[..|col| - 1]
  }

  /** All cards held by `cols`, counted with multiplicity. */
  function CardsOf(cols: seq<Column>): multiset<Card>
  {
    if |cols| == 0 then multiset{}
    else CardsOf(cols[..|cols| - 1]) + multiset(cols[|cols| - 1])
  }

  /** Adding a column adds exactly its cards. */
  lemma CardsOfAppend(cols: seq<Column>, col: Column)
    ensures CardsOf(cols + [col]) == CardsOf(cols) + multiset(col)
  {
    assert (cols + [col])[..|cols|] == cols;
  }

  /** Replacing one column swaps exactly that column's cards. */
  lemma {:induction false} CardsOfUpdate(cols: seq<Column>, i: nat, col: Column)
    requires i < |cols|
    ensures CardsOf(cols[i := col]) + multiset(cols[i]) == CardsOf(cols) + multiset(col)
  {
    var n := |cols|;
    var updated := cols[i := col];
    if i == n - 1 {
      assert updated[..n - 1] == cols[..n - 1];
    } else {
      assert updated[..n - 1] == cols[..n - 1][i := col];
      var init := cols[..n - 1];
      assert updated[n - 1] == cols[n - 1] && init[i] == cols[i];
      CardsOfUpdate(init, i, col);
      calc {
        CardsOf(updated) + multiset(cols[i]);
        CardsOf(init[i := col]) + multiset(cols[n - 1]) + multiset(init[i]);
        CardsOf(init) + multiset(col) + multiset(cols[n - 1]);
        CardsOf(cols) + multiset(col);
      }
    }
  }

  /** Lifting the top card off column `i` removes exactly that card. */
  lemma LiftTopCards(cols: seq<Column>, i: nat)
    requires i < |cols| && |cols[i]| > 0
    ensures CardsOf(cols[i := Pop(cols[i])]) + multiset{Top(cols[i])} == CardsOf(cols)
  {
    var rest, card := Pop(cols[i]), Top(cols[i]);
    CardsOfUpdate(cols, i, rest);
    var lifted, whole := CardsOf(cols[i := rest]), CardsOf(cols);
    assert multiset(cols[i]) == multiset(rest) + multiset{card} by {
      assert cols[i] == rest + [card];
    }
    assert lifted + multiset(rest) + multiset{card} == whole + multiset(rest);
  }

  /** Putting `card` on top of column `j` adds exactly that card. */
  lemma PushCards(cols: seq<Column>, j: nat, card: Card)
    requires j < |cols|
    ensures CardsOf(cols[j := cols[j] + [card]]) == CardsOf(cols) + multiset{card}
  {
    CardsOfUpdate(cols, j, cols[j] + [card]);
    var pushed, whole := CardsOf(cols[j := cols[j] + [card]]), CardsOf(cols);
    assert multiset(cols[j] + [card]) == multiset(cols[j]) + multiset{card};
    var m := multiset(cols[j]);
    assert pushed + m == whole + m + multiset{card};
    assert forall x :: pushed[x] == (whole + multiset{card})[x] by {
      forall x
        ensures pushed[x] == (whole + multiset{card})[x]
      {
        assert (pushed + m)[x] == (whole + m + multiset{card})[x];
      }
    }
  }
}
