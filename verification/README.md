# Baker's Dozen solitaire — rule core

A Dafny model of the game rules of a Baker's Dozen solitaire written in Python
with pygame (`game.py`). The model covers:

- **Cards** (`cards.dfy`, module `Cards`): the four suits in the game's order
  (hearts, diamonds, clubs, spades), ranks as ordinal values ace = 0 … king = 12,
  and the rank-name table (`RANKS` / `RANK_VALUES`) with its lookup.
- **Deck** (`deck.dfy`, module `Deck`): `create_deck` builds the 52 cards suit by
  suit in rank order and shuffles them. The shuffle is the Fisher–Yates pass of
  Python's `random.shuffle`, with the random indices it draws passed in as a
  parameter.
- **Deal** (`deal.dfy`, module `Deal`): `deal_cards` pops four cards off the end
  of the deck into each of thirteen columns in turn.
- **Rules** (`rules.dfy`, module `Rules`): `is_valid_move` and
  `is_valid_foundation_move`, and the shape every foundation pile keeps: an
  ace-upward run of one suit.
- **Game** (`game.dfy`, module `Game`): the table (tableau columns and four
  foundation piles) and the state change made by the mouse-up handler, written
  as the pure functions `Resolve` and `ApplyMove`. The player picks up the top
  card of a column and drops it. The foundation piles are tried first, then the
  tableau column under the pointer. If neither takes the card, it snaps back.
  The pointer position is replaced by the result of the two hit tests (`Drop`):
  an optional column index and an optional foundation pile, the pile the walk
  over the four piles ends on.
- **Hit test** (`hittest.dfy`, module `HitTest`): how the release handler picks
  the targets. It scans the columns in order and takes the first one under
  the pointer. The program's scan includes the source column, which always
  passes the test. The model's `Drop` column is the corrected scan, which skips
  the source column (see Findings). An empty column is tested against a strip
  computed from `tableau.index(col)`, which finds the first empty column by
  list equality, so only the first empty column can be hit; an empty target
  is refused by `is_valid_move` in any case. The handler then walks the four
  foundation piles in suit order (hearts, diamonds, clubs, spades) and stops at
  the first pile that is under the pointer and takes the card. A placed card
  keeps the rectangle it was dropped at, so several piles can be under the
  pointer at once; a pile that is hit but refuses the card is passed over.
- `search.dfy` (module `Search`) holds the first-match search used by the
  rank-name lookup and the hit-test scans.
- `optional.dfy` (module `Optional`) holds the `Option` type. `tableau.dfy` (module `Tableau`) holds the column helpers: top card, pop, and
  the multiset of cards in a sequence of columns.

The main results are:

- card conservation: every gesture keeps the multiset of all cards on the
  table, so every reachable table holds each of the 52 cards exactly once;
- every foundation pile is always ace, 2, …, k of a single suit;
- the deal yields 13 columns of 4 cards, takes the cards from the end of the
  deck, and empties a full deck.

An empty foundation slot accepts an ace of any suit (game.py:152 checks only
the rank), so the pile under a suit key need not hold that suit. The model
proves "each pile is a one-suit run" and not "pile S holds suit S".
`list.remove` on a column compares card objects by identity. The selected card
is the top card of its column, so removing it drops the column's last element,
and that is how the model writes it.

## Model

| member | source | states |
|---|---|---|
| Cards.RankValueOf | game.py:19-20 | a name found in the rank table maps to the rank whose name it is; a name that is not a rank has no value |
| Cards.RankNameRoundTrip | game.py:19-20 | looking up the name of any rank gives back that rank |
| Cards.SpecialRankNames | game.py:19-20 | "ace" is rank value 0 and "king" is rank value 12 |
| Deck.CanonicalDeck | game.py:56 | the unshuffled deck has 52 cards, and position i holds rank i mod 13 of suit i div 13 (suit-major order) |
| Deck.CanonicalDeckExactlyOnce | game.py:56 | every (rank, suit) pair occurs exactly once in the unshuffled deck |
| Deck.FullDeckExactlyOnce | game.py:55-58 | any permutation of the full deck has 52 cards, each exactly once |
| Deck.Shuffle | game.py:57 | the Fisher–Yates pass returns a permutation of its input, whatever indices are drawn |
| Deck.CreateDeck | game.py:55-58 | the created deck is a permutation of the 52 cards, each exactly once |
| Deal.PopColumn | game.py:64-66 | four pops append the deck's last four cards, last first, to a new column, leave all but the deck's last four cards and conserve the cards; it fails exactly when fewer than four cards remain |
| Deal.DealCards | game.py:60-70 | 13 columns of 4 cards; column i, slot k holds the card 4i+k from the end of the deck; the rest of the deck is all but its last 52 cards; the cards are conserved; popping an empty deck is an error exactly when the deck has fewer than 52 cards |
| Rules.IsValidMove | game.py:82-86 | a move onto an empty column is never valid; a king is never valid; otherwise valid iff the top card is one rank above the card |
| Rules.TableauAcceptsRankBelow | game.py:82-86 | a non-empty column accepts exactly the four cards (one per suit) one rank below its top card, and none when the top card is an ace |
| Rules.TableauMoveIgnoresSuit | game.py:86 | the suit of the moved card does not affect tableau legality |
| Rules.IsValidFoundationMove | game.py:88-92 | an empty pile takes exactly the aces; a non-empty pile takes a card iff it has the top card's suit and is exactly one rank higher; so a pile topped by a king takes nothing |
| Rules.PileTakes | game.py:141-152 | the release handler's acceptance test (the foundation rule on a non-empty pile, the card being an ace on an empty one) agrees with `is_valid_foundation_move` |
| Rules.AceRunIsPrefixOfSuit | game.py:88-92 | a non-empty pile is a run iff it is exactly ace..k of its bottom card's suit (at most 13 cards); a run's top rank is one less than its length |
| Rules.FoundationMoveKeepsRun | game.py:88-92 | on a run, a foundation move is valid iff the pile with the card added is still a run |
| Tableau.LiftTopCards | game.py:163 | removing the top card from a column removes exactly that card from the tableau's cards |
| Tableau.PushCards | game.py:164 | appending a card to a column adds exactly that card to the tableau's cards |
| Game.Resolve | game.py:128-169 | no card is held iff the source column is absent or empty; a valid foundation drop wins over a tableau drop; a tableau drop goes to a different, existing column that accepts the card; a snap-back happens only when neither the slot nor the column accepts the card |
| Game.ApplyMove | game.py:140-166 | a foundation move moves the source's top card onto the chosen pile; a tableau move moves it onto the chosen column; every other column and pile is unchanged; the table is unchanged iff nothing was held or the card snapped back |
| Game.ApplyMoveConservesCards | game.py:142-164 | no gesture loses or duplicates a card |
| Game.ApplyMoveKeepsRuns | game.py:140-158 | every gesture keeps each foundation pile an ace-upward one-suit run |
| Game.ApplyMoveKeepsInvariant | game.py:128-169 | every gesture keeps 13 columns, the 52 cards, and runs on the foundations |
| Game.PlayKeepsInvariant | game.py:106-169 | after any sequence of gestures the invariant still holds |
| Game.InvariantCardsOnce | game.py:98-100 | on a table that keeps the invariant, each card is in exactly one place |
| Game.NewGame | game.py:98-100 | a new round has 13 columns of 4 cards, empty foundations, and keeps the invariant |
| Game.IllegalDropLeavesTable | game.py:161-166 | a gesture that no rule allows leaves every column and pile unchanged |
| Game.EmptyColumnRejects | game.py:83-84 | dropping a card only on an empty column snaps it back and changes nothing |
| Game.AnyAceStartsAnyEmptySlot | game.py:149-154 | an ace of any suit dropped on any empty foundation slot becomes that pile's only card |
| Search.FirstIndex | game.py:131-137 | the result is the first position at or after the start whose element satisfies the test, and there is none iff no element from the start on does |
| HitTest.ScannedTargetAsWritten | game.py:131-137 | the program's scan: the first column under the pointer, the source column included |
| HitTest.AsWrittenScanStopsAtSource | game.py:131-137 | when the source column is under the pointer and no column left of it is, the program's scan returns the source column and no tableau move can happen |
| HitTest.RightwardDropDiscrepancy | game.py:131-166 | for a drop on an accepting column right of the source, the program's scan snaps the card back and the corrected scan moves it onto that column |
| HitTest.RightwardDropExample | game.py:131-166 | the 5 of hearts dropped from column 0 onto the 6 of spades in column 1 stays put as written and moves with the corrected scan |
| HitTest.ScannedTarget | game.py:131-137 | the corrected scan: the first column under the pointer other than the source column |
| HitTest.ScannedTargetFindsDropColumn | game.py:131-137 | when the only column other than the source under the pointer is j, the corrected scan returns j |
| HitTest.FoundationTarget | game.py:140-158 | the walk ends on a pile that is under the pointer and takes the card, every pile before it in suit order that is under the pointer refuses the card, and it ends on none iff every pile under the pointer refuses it |
| HitTest.FoundationWalkDecidesFoundationMove | game.py:140-158 | with the walk's pile as the drop's slot, the card goes to a foundation iff some pile under the pointer takes it |
| HitTest.OverlappingPilesExample | game.py:140-158 | with the ace of hearts on the hearts pile overlapping the empty diamonds slot, the ace of spades released over both passes the hearts pile and lands on diamonds |

## Left out

- Rendering and I/O: pygame set-up, image loading, `Card.draw`, `draw_table` and the display calls.
- Pixel geometry: card rectangles, drag offsets, the positions set while dealing, and the `collidepoint` hit tests. A `Drop` value stands for their result. Only the order of the tableau scan and of the foundation walk is modelled (module `HitTest`); the geometry that decides which columns and piles pass the test is not.
- Game.Resolve: its `Drop` column is the corrected scan's target, so it allows tableau moves onto a column right of the source that the program snaps back (see Findings). The program's moves are a subset of the model's, so conservation and the foundation-run invariant carry over to it.
- Game.Resolve: its `Drop` slot stands for the pile the foundation walk ends on: the first pile in suit order that is under the pointer and takes the card (`HitTest.FoundationTarget`). Which piles are under the pointer is pixel geometry and is a parameter (`slotHits`).
- The random source: the indices `random.shuffle` draws are a parameter (`picks`). The model does not state that the shuffle is uniform or that every permutation can be produced.
- The `while running` event loop, QUIT handling, and the mouse-down and mouse-motion branches, except that only a column's top card can be picked up.
- Scoring, undo, the countdown timer, kings dealt to the bottom of columns, and win or stuck detection. The program has none of these, so they are not modelled.

## Findings

| source | as written | input that shows it | evidently intended | confidence | as-written member | corrected member |
|---|---|---|---|---|---|---|
| game.py:131-137 | the target scan tests every column in order, the source column included. The source column's top card is the dragged card, which follows the pointer (game.py:125-127), so it always passes the test | drag the 5 of hearts from column 0 and drop it on the 6 of spades in column 1: the scan stops at column 0, `is_valid_move` compares the card with itself and the card snaps back (game.py:166) | the target is the column the card is dropped on, with the source column skipped | medium, not executed | HitTest.RightwardDropDiscrepancy | HitTest.ScannedTarget |
