/**
 The game state and the effect of dropping a dragged card. A round starts
 with a shuffled deck dealt into thirteen columns and four empty foundation
 piles. The player picks up the top card of a column and drops it; the drop
 lands on the first foundation pile, in suit order, that is under the pointer
 and takes the card, otherwise on the tableau column under the pointer if the
 rules allow, otherwise the card snaps back and nothing changes.
 */
module Game {
  import opened Optional
  import opened Cards
  import opened Tableau
  import opened Rules
  import Deck
  import Deal

  /**
   The four foundation piles, one per key. The key only names a slot: an
   empty slot accepts an ace of any suit, so the pile under key `s` need not
   hold suit `s`.
   */
  datatype Foundations = Foundations(hearts: Column, diamonds: Column, clubs: Column, spades: Column)
  {
    function Pile(s: Suit): Column
    {
      match s
      case Hearts => hearts
      case Diamonds => diamonds
      case Clubs => clubs
      case Spades => spades
    }

    /** The piles with the one under `s` replaced by `p`. */
    function WithPile(s: Suit, p: Column): (f: Foundations)
      ensures f.Pile(s) == p
      ensures forall o: Suit :: o != s ==> f.Pile(o) == Pile(o)
    {
      match s
      case Hearts => this.(hearts := p)
      case Diamonds => this.(diamonds := p)
      case Clubs => this.(clubs := p)
      case Spades => this.(spades := p)
    }

    /** All cards on the foundations. */
    function AllPileCards(): multiset<Card>
    {
      multiset(hearts) + multiset(diamonds) + multiset(clubs) + multiset(spades)
    }
  }

  /** The foundations at the start of a round: four empty piles. */
  const NoFoundations := Foundations([], [], [], [])

  /** What is on the table: the tableau columns and the foundation piles. */
  datatype Table = Table(tableau: seq<Column>, foundations: Foundations)

  /**
   Where a drop lands, as the two hit tests find it: the tableau column under
   the pointer other than the source column, if any (module HitTest compares
   this with the program's scan, which does not skip the source), and the
   foundation pile the walk over the piles ends on, if any: the first pile in
   suit order that is under the pointer and takes the card (module HitTest,
   FoundationTarget).
   */
  datatype Drop = Drop(column: Option<nat>, slot: Option<Suit>)

  /** A gesture: pick up the top card of column `source`, then drop it. */
  datatype Move = Move(source: int, drop: Drop)

  /** How a gesture is resolved. */
  datatype Outcome =
    | NotHeld               // no card was picked up: the source column is empty or absent
    | OntoFoundation(slot: Suit)
    | OntoColumn(col: nat)
    | SnapBack              // the card returns to its column

  /** All cards on the table, counted with multiplicity. */
  function AllCards(t: Table): multiset<Card>
  {
    CardsOf(t.tableau) + t.foundations.AllPileCards()
  }

  /** Replacing one pile swaps exactly that pile's cards. */
  lemma WithPileCards(f: Foundations, s: Suit, p: Column)
    ensures f.WithPile(s, p).AllPileCards() + multiset(f.Pile(s)) == f.AllPileCards() + multiset(p)
  {
  }

  /** No card was lost or duplicated: the table holds the 52 cards, each once. */
  ghost predicate Conserved(t: Table)
  {
    AllCards(t) == multiset(Deck.CanonicalDeck())
  }

  predicate FoundationsAreRuns(f: Foundations)
  {
    forall s: Suit :: IsAceRun(f.Pile(s))
  }

  /** What holds of every table reachable in a round. */
  ghost predicate Invariant(t: Table)
  {
    && |t.tableau| == Deal.ColumnCount
    && Conserved(t)
    && FoundationsAreRuns(t.foundations)
  }

  /** A card can be picked up from column `src`: it exists and is not empty. */
  predicate Holds(t: Table, src: int)
  {
    0 <= src < |t.tableau| && |t.tableau[src]| > 0
  }

  /**
   Resolves a gesture. Only the top card of the source column is picked up.
   The pile the drop's slot names is tried first: a non-empty pile takes the card when
   `is_valid_foundation_move` allows it, an empty one whenever the card is an
   ace. Failing that, the column under the pointer takes it when
   `is_valid_move` allows it. Otherwise the card snaps back.
   */
  function Resolve(t: Table, src: int, drop: Drop): (o: Outcome)
    ensures o.NotHeld? <==> !Holds(t, src)
    ensures Holds(t, src) && drop.slot.Some?
            && IsValidFoundationMove(Top(t.tableau[src]), t.foundations.Pile(drop.slot.value))
            ==> o == OntoFoundation(drop.slot.value)
    ensures o.OntoFoundation? ==>
              && Holds(t, src) && drop.slot == Some(o.slot)
              && IsValidFoundationMove(Top(t.tableau[src]), t.foundations.Pile(o.slot))
    ensures o.OntoColumn? ==>
              && Holds(t, src) && drop.column == Some(o.col)
              && o.col < |t.tableau| && o.col != src
              && IsValidMove(Top(t.tableau[src]), t.tableau[o.col])
    ensures Holds(t, src)
            && !(drop.slot.Some? && IsValidFoundationMove(Top(t.tableau[src]), t.foundations.Pile(drop.slot.value)))
            && drop.column.Some? && drop.column.value < |t.tableau|
            && IsValidMove(Top(t.tableau[src]), t.tableau[drop.column.value])
            ==> o == OntoColumn(drop.column.value)
    ensures o.SnapBack? ==>
              && Holds(t, src)
              && (drop.slot.Some? ==>
                    !IsValidFoundationMove(Top(t.tableau[src]), t.foundations.Pile(drop.slot.value)))
              && (drop.column.Some? && drop.column.value < |t.tableau| ==>
                    !IsValidMove(Top(t.tableau[src]), t.tableau[drop.column.value]))
  {
    if !Holds(t, src) then NotHeld
    else
      var card := Top(t.tableau[src]);
      var onPile :=
        match drop.slot
        case None => false
        case Some(s) => PileTakes(card, t.foundations.Pile(s));
      if onPile then OntoFoundation(drop.slot.value)
      else if drop.column.Some? && drop.column.value < |t.tableau|
              && IsValidMove(card, t.tableau[drop.column.value])
      then OntoColumn(drop.column.value)
      else SnapBack
  }

  /** `b` equals `a` at every index except `i` and `j`. */
  predicate SameExcept(a: seq<Column>, b: seq<Column>, i: int, j: int)
  {
    |a| == |b| && forall k :: 0 <= k < |a| && k != i && k != j ==> b[k] == a[k]
  }

  /**
   The effect of a gesture on the table. A foundation move takes the source
   column's top card and puts it on top of the chosen pile; a tableau move puts
   it on top of the chosen column; nothing else changes. A gesture with
   nothing held, or one that snaps back, leaves the table as it was.
   */
  function ApplyMove(t: Table, src: int, drop: Drop): (r: Table)
    ensures |r.tableau| == |t.tableau|
    ensures r == t <==> Resolve(t, src, drop).NotHeld? || Resolve(t, src, drop).SnapBack?
    ensures match Resolve(t, src, drop)
            case OntoFoundation(s) =>
              && r.tableau[src] + [Top(t.tableau[src])] == t.tableau[src]
              && SameExcept(t.tableau, r.tableau, src, src)
              && r.foundations.Pile(s) == t.foundations.Pile(s) + [Top(t.tableau[src])]
              && (forall o: Suit :: o != s ==> r.foundations.Pile(o) == t.foundations.Pile(o))
            case OntoColumn(j) =>
              && r.tableau[src] + [Top(t.tableau[src])] == t.tableau[src]
              && r.tableau[j] == t.tableau[j] + [Top(t.tableau[src])]
              && SameExcept(t.tableau, r.tableau, src, j)
              && r.foundations == t.foundations
            case _ => r == t
  {
    match Resolve(t, src, drop)
    case OntoFoundation(s) =>
      var card := Top(t.tableau[src]);
      Table(t.tableau[src := Pop(t.tableau[src])],
            t.foundations.WithPile(s, t.foundations.Pile(s) + [card]))
    case OntoColumn(j) =>
      var card := Top(t.tableau[src]);
      Table(t.tableau[src := Pop(t.tableau[src])][j := t.tableau[j] + [card]], t.foundations)
    case _ => t
  }

  /** No gesture loses or duplicates a card. */
  lemma ApplyMoveConservesCards(t: Table, src: int, drop: Drop)
    ensures AllCards(ApplyMove(t, src, drop)) == AllCards(t)
  {
    match Resolve(t, src, drop)
    case OntoFoundation(s) =>
      var card := Top(t.tableau[src]);
      var lifted := t.tableau[src := Pop(t.tableau[src])];
      var f := t.foundations.WithPile(s, t.foundations.Pile(s) + [card]);
      assert ApplyMove(t, src, drop) == Table(lifted, f);
      LiftTopCards(t.tableau, src);
      WithPileCards(t.foundations, s, t.foundations.Pile(s) + [card]);
    case OntoColumn(j) =>
      var card := Top(t.tableau[src]);
      var lifted := t.tableau[src := Pop(t.tableau[src])];
      assert lifted[j] == t.tableau[j];
      assert ApplyMove(t, src, drop) == Table(lifted[j := lifted[j] + [card]], t.foundations);
      LiftTopCards(t.tableau, src);
      PushCards(lifted, j, card);
    case _ =>
  }

  /** No gesture breaks the ace-upward run of a foundation pile. */
  lemma ApplyMoveKeepsRuns(t: Table, src: int, drop: Drop)
    requires FoundationsAreRuns(t.foundations)
    ensures FoundationsAreRuns(ApplyMove(t, src, drop).foundations)
  {
    match Resolve(t, src, drop)
    case OntoFoundation(s) =>
      FoundationMoveKeepsRun(Top(t.tableau[src]), t.foundations.Pile(s));
    case _ =>
  }

  /** Every gesture keeps the round invariant. */
  lemma ApplyMoveKeepsInvariant(t: Table, src: int, drop: Drop)
    requires Invariant(t)
    ensures Invariant(ApplyMove(t, src, drop))
  {
    ApplyMoveConservesCards(t, src, drop);
    ApplyMoveKeepsRuns(t, src, drop);
  }

  /** The table after a sequence of gestures, in order. */
  function Play(t: Table, moves: seq<Move>): (r: Table)
    ensures |r.tableau| == |t.tableau|
    decreases |moves|
  {
    if |moves| == 0 then t
    else Play(ApplyMove(t, moves[0].source, moves[0].drop), moves[1..])
  }

  /** Whatever the player does, the round invariant holds throughout. */
  lemma {:induction false} PlayKeepsInvariant(t: Table, moves: seq<Move>)
    requires Invariant(t)
    ensures Invariant(Play(t, moves))
    decreases |moves|
  {
    if |moves| > 0 {
      ApplyMoveKeepsInvariant(t, moves[0].source, moves[0].drop);
      PlayKeepsInvariant(ApplyMove(t, moves[0].source, moves[0].drop), moves[1..]);
    }
  }

  /** On a table that keeps the invariant every card is in exactly one place. */
  lemma InvariantCardsOnce(t: Table)
    requires Invariant(t)
    ensures forall c: Card :: AllCards(t)[c] == 1
  {
    Deck.CanonicalDeckExactlyOnce();
  }

  /**
   A new round: create and shuffle the deck with the given draws, deal it,
   and start with four empty foundation piles.
   */
  method NewGame(picks: seq<int>) returns (t: Table)
    requires Deck.ValidPicks(52, picks)
    ensures Deal.DealtShape(t.tableau)
    ensures t.foundations == NoFoundations
    ensures Invariant(t)
  {
    var deck := Deck.CreateDeck(picks);
    var dealt := Deal.DealCards(deck);
    assert dealt.Some?;
    assert dealt.value.deck == [];
    t := Table(dealt.value.tableau, NoFoundations);
  }

  /**
   A gesture whose drop no rule allows (no card held, no slot or a slot that
   refuses the card, no column or a column that refuses it) changes nothing.
   */
  lemma IllegalDropLeavesTable(t: Table, src: int, drop: Drop)
    requires Holds(t, src) ==>
               && (drop.slot.None? || !IsValidFoundationMove(Top(t.tableau[src]), t.foundations.Pile(drop.slot.value)))
               && (drop.column.None? || drop.column.value >= |t.tableau|
                   || !IsValidMove(Top(t.tableau[src]), t.tableau[drop.column.value]))
    ensures ApplyMove(t, src, drop) == t
  {
  }

  /** Dropping a card on an empty column alone never moves it. */
  lemma EmptyColumnRejects(t: Table, src: int, j: nat)
    requires Holds(t, src) && j < |t.tableau| && |t.tableau[j]| == 0
    ensures Resolve(t, src, Drop(Some(j), None)) == SnapBack
    ensures ApplyMove(t, src, Drop(Some(j), None)) == t
  {
  }

  /** An ace of any suit may start any empty foundation slot. */
  lemma AnyAceStartsAnyEmptySlot(t: Table, src: int, s: Suit)
    requires Holds(t, src) && Top(t.tableau[src]).rank == Ace
    requires t.foundations.Pile(s) == []
    ensures ApplyMove(t, src, Drop(None, Some(s))).foundations.Pile(s) == [Top(t.tableau[src])]
  {
  }
}
