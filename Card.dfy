/**
 * The player's card: 5 columns (B, I, N, G, O) of 5 slots each, kept as one
 * sequence of 25 cells in document order (column by column), so that the
 * slot in column `c` and row `r` is cell `Idx(c, r)`. This module holds the
 * value-level meaning of every card operation of script.js: building the
 * card, finding a ball's slot, marking it, and the three completion rules.
 */
module Card {
  import opened Wrappers
  import opened Balls
  import opened Permutations
  import Decimal

  /** One slot: its fixed number (`data-number`), the `marked` class and its text. */
  datatype Cell = Cell(number: nat, marked: bool, text: string)

  const ColumnHeight: nat := 5
  const CardSize: nat := 25

  function Idx(c: nat, r: nat): nat {
    ColumnHeight * c + r
  }

  /** The text a slot shows: nothing while unmarked, its number once marked. */
  function CellText(number: nat, marked: bool): (t: string)
    ensures t == "" <==> !marked
  {
    if marked then Decimal.Format(number) else ""
  }

  predicate InColumnRange(n: nat, c: nat)
    requires c < ColumnCount
  {
    Ranges[c].start <= n <= Ranges[c].end
  }

  /**
   * The shape every card keeps: 25 cells, every number inside its column's
   * range, no number twice in a column, and a slot's text revealed exactly
   * when it is marked.
   */
  ghost predicate WellFormedCard(card: seq<Cell>) {
    && |card| == CardSize
    && (forall c, r :: 0 <= c < ColumnCount && 0 <= r < ColumnHeight ==>
          && InColumnRange(card[Idx(c, r)].number, c)
          && card[Idx(c, r)].text == CellText(card[Idx(c, r)].number, card[Idx(c, r)].marked))
    && (forall c, r1, r2 :: 0 <= c < ColumnCount && 0 <= r1 < ColumnHeight && 0 <= r2 < ColumnHeight && r1 != r2 ==>
          card[Idx(c, r1)].number != card[Idx(c, r2)].number)
  }

  // ---------------------------------------------------------------------------
  // Building the card (`initBingoGrid`)
  // ---------------------------------------------------------------------------

  /** The numbers of column `c`'s range in increasing order, as the `nums` push loop builds them. */
  function RangeNumbers(c: nat): seq<nat>
    requires c < ColumnCount
  {
    seq(RangeWidth, k requires 0 <= k < RangeWidth => Ranges[c].start + k)
  }

  /** One shuffle's worth of choices for each of the five columns. */
  predicate GridChoices(picks: seq<seq<nat>>) {
    |picks| == ColumnCount && forall c :: 0 <= c < ColumnCount ==> SwapChoices(picks[c], RangeWidth)
  }

  /** `nums.slice(0, 5)` after `shuffleArray(nums)`: the five numbers column `c` gets. */
  function ChosenNumbers(picks: seq<seq<nat>>, c: nat): (r: seq<nat>)
    requires GridChoices(picks) && c < ColumnCount
    ensures |r| == ColumnHeight
  {
    FisherYates(RangeNumbers(c), picks[c])[..ColumnHeight]
  }

  /** The card `initBingoGrid` leaves: chosen numbers, all slots unmarked and blank. */
  ghost predicate IsFreshCard(card: seq<Cell>, picks: seq<seq<nat>>)
    requires GridChoices(picks)
  {
    && |card| == CardSize
    && forall c, r :: 0 <= c < ColumnCount && 0 <= r < ColumnHeight ==>
         card[Idx(c, r)] == Cell(ChosenNumbers(picks, c)[r], false, "")
  }

  /** Each column gets 5 different numbers, all from its own range, whatever the shuffle chose. */
  lemma ChosenNumbersInRange(picks: seq<seq<nat>>, c: nat)
    requires GridChoices(picks) && c < ColumnCount
    ensures |ChosenNumbers(picks, c)| == ColumnHeight && Distinct(ChosenNumbers(picks, c))
    ensures forall r :: 0 <= r < ColumnHeight ==> InColumnRange(ChosenNumbers(picks, c)[r], c)
  {
    var nums := RangeNumbers(c);
    var shuffled := FisherYates(nums, picks[c]);
    FisherYatesKeepsDistinct(nums, picks[c]);
    forall r | 0 <= r < ColumnHeight
      ensures InColumnRange(ChosenNumbers(picks, c)[r], c)
    {
      FisherYatesSameElements(nums, picks[c], shuffled[r]);
      var k :| 0 <= k < |nums| && nums[k] == shuffled[r];
    }
  }

  /** A freshly built card is well formed and has no marks. */
  lemma FreshCardWellFormed(card: seq<Cell>, picks: seq<seq<nat>>)
    requires GridChoices(picks) && IsFreshCard(card, picks)
    ensures WellFormedCard(card)
    ensures forall c, r :: 0 <= c < ColumnCount && 0 <= r < ColumnHeight ==> !card[Idx(c, r)].marked
  {
    forall c | 0 <= c < ColumnCount
      ensures |ChosenNumbers(picks, c)| == ColumnHeight && Distinct(ChosenNumbers(picks, c))
      ensures forall r :: 0 <= r < ColumnHeight ==> InColumnRange(ChosenNumbers(picks, c)[r], c)
    {
      ChosenNumbersInRange(picks, c);
    }
  }

  // ---------------------------------------------------------------------------
  // Finding and marking a ball's slot (`slots.find`, `addToBingoPanel`)
  // ---------------------------------------------------------------------------

  function FindRowFrom(card: seq<Cell>, c: nat, number: nat, r: nat): (res: Option<nat>)
    requires |card| == CardSize && c < ColumnCount && r <= ColumnHeight
    ensures res.Some? ==> r <= res.value < ColumnHeight && card[Idx(c, res.value)].number == number
    ensures res.Some? ==> forall r' :: r <= r' < res.value ==> card[Idx(c, r')].number != number
    ensures res.None? ==> forall r' :: r <= r' < ColumnHeight ==> card[Idx(c, r')].number != number
    decreases ColumnHeight - r
  {
    if r == ColumnHeight then None
    else if card[Idx(c, r)].number == number then Some(r)
    else FindRowFrom(card, c, number, r + 1)
  }

  /** `slots.find(s => Number(s.dataset.number) === number)`: the first slot of column `c` holding `number`. */
  function FindRow(card: seq<Cell>, c: nat, number: nat): (res: Option<nat>)
    requires |card| == CardSize && c < ColumnCount
    ensures res.Some? ==> res.value < ColumnHeight && card[Idx(c, res.value)].number == number
    ensures res.Some? ==> forall r' :: 0 <= r' < res.value ==> card[Idx(c, r')].number != number
    ensures res.None? ==> forall r' :: 0 <= r' < ColumnHeight ==> card[Idx(c, r')].number != number
  {
    FindRowFrom(card, c, number, 0)
  }

  /** The draw loop's test `slot && !slot.classList.contains('marked')`. */
  predicate Matchable(card: seq<Cell>, b: Ball)
    requires |card| == CardSize
    ensures Matchable(card, b) ==> b.letter in Letters
  {
    match ColumnOf(b.letter)
    case None => false
    case Some(c) =>
      match FindRow(card, c, b.number)
      case None => false
      case Some(r) => !card[Idx(c, r)].marked
  }

  /** `addToBingoPanel(ball)`: mark the ball's slot and reveal its number, if it is there and unmarked. */
  function MarkBall(card: seq<Cell>, b: Ball): (r: seq<Cell>)
    requires |card| == CardSize
    ensures |r| == CardSize
    ensures r != card ==> Matchable(card, b)
  {
    match ColumnOf(b.letter)
    case None => card
    case Some(c) =>
      match FindRow(card, c, b.number)
      case None => card
      case Some(r) =>
        var cell := card[Idx(c, r)];
        if cell.marked then card
        else card[Idx(c, r) := Cell(cell.number, true, Decimal.Format(cell.number))]
  }

  ghost predicate SameNumbers(a: seq<Cell>, b: seq<Cell>) {
    |a| == |b| && forall k :: 0 <= k < |a| ==> a[k].number == b[k].number
  }

  ghost predicate MarksGrow(a: seq<Cell>, b: seq<Cell>) {
    |a| == |b| && forall k :: 0 <= k < |a| ==> a[k].marked ==> b[k].marked
  }

  lemma {:induction false} FindRowFromSameNumbers(a: seq<Cell>, b: seq<Cell>, c: nat, number: nat, r: nat)
    requires |a| == CardSize && SameNumbers(a, b) && c < ColumnCount && r <= ColumnHeight
    ensures FindRowFrom(a, c, number, r) == FindRowFrom(b, c, number, r)
    decreases ColumnHeight - r
  {
    if r < ColumnHeight {
      FindRowFromSameNumbers(a, b, c, number, r + 1);
    }
  }

  /** The slot search looks only at numbers, so marking never changes where a ball is found. */
  lemma FindRowSameNumbers(a: seq<Cell>, b: seq<Cell>, c: nat, number: nat)
    requires |a| == CardSize && SameNumbers(a, b) && c < ColumnCount
    ensures FindRow(a, c, number) == FindRow(b, c, number)
  {
    FindRowFromSameNumbers(a, b, c, number, 0);
  }

  /**
   * Marking changes at most the slot of the ball's column that holds the
   * ball's number: that slot ends up marked and revealed, every other slot
   * is untouched, no number changes and no mark is lost.
   */
  lemma MarkBallMarksOnlyItsSlot(card: seq<Cell>, b: Ball, c: nat, r: nat)
    requires |card| == CardSize
    requires ColumnOf(b.letter) == Some(c) && FindRow(card, c, b.number) == Some(r)
    ensures |MarkBall(card, b)| == CardSize
    ensures MarkBall(card, b)[Idx(c, r)].marked && MarkBall(card, b)[Idx(c, r)].number == b.number
    ensures !card[Idx(c, r)].marked ==> MarkBall(card, b)[Idx(c, r)] == Cell(b.number, true, Decimal.Format(b.number))
    ensures forall k :: 0 <= k < CardSize && k != Idx(c, r) ==> MarkBall(card, b)[k] == card[k]
  {
  }

  /** Marking a ball whose letter names no column, or whose number is not on the card, changes nothing. */
  lemma MarkBallAbsentIsNoOp(card: seq<Cell>, b: Ball)
    requires |card| == CardSize
    requires match ColumnOf(b.letter) case None => true case Some(c) => FindRow(card, c, b.number).None?
    ensures MarkBall(card, b) == card
  {
  }

  /** Marking keeps every number, never removes a mark, and changes something only if the ball was matchable. */
  lemma MarkBallMonotone(card: seq<Cell>, b: Ball)
    requires |card| == CardSize
    ensures SameNumbers(card, MarkBall(card, b)) && MarksGrow(card, MarkBall(card, b))
    ensures MarkBall(card, b) != card ==> Matchable(card, b)
  {
  }

  /** Marking the same ball twice is the same as marking it once. */
  lemma MarkBallIdempotent(card: seq<Cell>, b: Ball)
    requires |card| == CardSize
    ensures MarkBall(card, b) == MarkBall(MarkBall(card, b), b)
  {
    var once := MarkBall(card, b);
    MarkBallMonotone(card, b);
    match ColumnOf(b.letter)
    case None =>
    case Some(c) =>
      FindRowSameNumbers(card, once, c, b.number);
  }

  /** Marking keeps the card well formed. */
  lemma MarkBallKeepsWellFormed(card: seq<Cell>, b: Ball)
    requires WellFormedCard(card)
    ensures WellFormedCard(MarkBall(card, b))
  {
    MarkBallMonotone(card, b);
  }

  // ---------------------------------------------------------------------------
  // Completion rules (`checkColumnComplete`, `checkRowComplete`, `checkCartelaComplete`)
  // ---------------------------------------------------------------------------

  predicate ColumnFull(card: seq<Cell>, c: nat)
    requires |card| == CardSize && c < ColumnCount
  {
    forall r :: 0 <= r < ColumnHeight ==> card[Idx(c, r)].marked
  }

  predicate RowFull(card: seq<Cell>, r: nat)
    requires |card| == CardSize && r < ColumnHeight
  {
    forall c :: 0 <= c < ColumnCount ==> card[Idx(c, r)].marked
  }

  predicate AllMarked(card: seq<Cell>)
    requires |card| == CardSize
  {
    forall c, r :: 0 <= c < ColumnCount && 0 <= r < ColumnHeight ==> card[Idx(c, r)].marked
  }

  /** The slots of column `c`, top to bottom (`container.querySelectorAll('.bingo-cell')`). */
  function ColumnCells(card: seq<Cell>, c: nat): seq<Cell>
    requires |card| == CardSize && c < ColumnCount
  {
    seq(ColumnHeight, r requires 0 <= r < ColumnHeight => card[Idx(c, r)])
  }

  /** The slots of row `r`, one per column in B-I-N-G-O order (`slotsInRow`). */
  function RowCells(card: seq<Cell>, r: nat): seq<Cell>
    requires |card| == CardSize && r < ColumnHeight
  {
    seq(ColumnCount, c requires 0 <= c < ColumnCount => card[Idx(c, r)])
  }

  /** `slots.filter(s => s.classList.contains('marked')).length`. */
  function CountMarked(s: seq<Cell>): (n: nat)
    ensures n <= |s|
    decreases |s|
  {
    if s == [] then 0 else CountMarked(s[..|s| - 1]) + (if s[|s| - 1].marked then 1 else 0)
  }

  /** The marked count reaches the number of slots exactly when every slot is marked. */
  lemma {:induction false} CountMarkedAll(s: seq<Cell>)
    ensures CountMarked(s) == |s| <==> forall k :: 0 <= k < |s| ==> s[k].marked
    decreases |s|
  {
    if s != [] {
      CountMarkedAll(s[..|s| - 1]);
      assert forall k :: 0 <= k < |s| - 1 ==> s[..|s| - 1][k] == s[k];
    }
  }

  lemma ColumnCountFull(card: seq<Cell>, c: nat)
    requires |card| == CardSize && c < ColumnCount
    ensures CountMarked(ColumnCells(card, c)) == ColumnHeight <==> ColumnFull(card, c)
  {
    var cells := ColumnCells(card, c);
    CountMarkedAll(cells);
    assert forall r :: 0 <= r < ColumnHeight ==> cells[r] == card[Idx(c, r)];
  }

  lemma RowCountFull(card: seq<Cell>, r: nat)
    requires |card| == CardSize && r < ColumnHeight
    ensures CountMarked(RowCells(card, r)) >= ColumnCount <==> RowFull(card, r)
  {
    var cells := RowCells(card, r);
    CountMarkedAll(cells);
    assert forall c :: 0 <= c < ColumnCount ==> cells[c] == card[Idx(c, r)];
  }

  /** Every one of the 25 slots is some column's slot in some row. */
  lemma EverySlotIsAnIdx(k: nat)
    requires k < CardSize
    ensures k / ColumnHeight < ColumnCount && k % ColumnHeight < ColumnHeight
    ensures Idx(k / ColumnHeight, k % ColumnHeight) == k
  {
  }

  /** The whole-card count reaches 25 exactly when every slot is marked. */
  lemma CardCountFull(card: seq<Cell>)
    requires |card| == CardSize
    ensures CountMarked(card) >= CardSize <==> AllMarked(card)
  {
    CountMarkedAll(card);
    if AllMarked(card) {
      forall k | 0 <= k < CardSize ensures card[k].marked {
        EverySlotIsAnIdx(k);
      }
    }
  }

  /** `checkColumnComplete(letter)`: flag the letter's column if all its slots are marked. */
  function ColumnCheck(flags: seq<bool>, card: seq<Cell>, letter: char): (r: seq<bool>)
    requires |flags| == ColumnCount && |card| == CardSize
    ensures |r| == ColumnCount && forall c :: 0 <= c < ColumnCount && flags[c] ==> r[c]
  {
    match ColumnOf(letter)
    case None => flags
    case Some(c) => if ColumnFull(card, c) then flags[c := true] else flags
  }

  function FirstFullRowFrom(card: seq<Cell>, r: nat): (res: Option<nat>)
    requires |card| == CardSize && r <= ColumnHeight
    ensures res.Some? ==> r <= res.value < ColumnHeight && RowFull(card, res.value)
    ensures res.Some? ==> forall r' :: r <= r' < res.value ==> !RowFull(card, r')
    ensures res.None? ==> forall r' :: r <= r' < ColumnHeight ==> !RowFull(card, r')
    decreases ColumnHeight - r
  {
    if r == ColumnHeight then None
    else if RowFull(card, r) then Some(r)
    else FirstFullRowFrom(card, r + 1)
  }

  /** The row the row check stops at: the lowest-indexed fully marked row, if any. */
  function FirstFullRow(card: seq<Cell>): (res: Option<nat>)
    requires |card| == CardSize
    ensures res.Some? ==> res.value < ColumnHeight && RowFull(card, res.value)
    ensures res.Some? ==> forall r' :: 0 <= r' < res.value ==> !RowFull(card, r')
    ensures res.None? ==> forall r' :: 0 <= r' < ColumnHeight ==> !RowFull(card, r')
  {
    FirstFullRowFrom(card, 0)
  }

  /** `checkRowComplete()`: flag the first fully marked row and stop there. */
  function RowCheck(flags: seq<bool>, card: seq<Cell>): (r: seq<bool>)
    requires |flags| == ColumnHeight && |card| == CardSize
    ensures |r| == ColumnHeight && forall i :: 0 <= i < ColumnHeight && flags[i] ==> r[i]
  {
    match FirstFullRow(card)
    case None => flags
    case Some(r) => flags[r := true]
  }

  /** `checkCartelaComplete()` on (full-card flag, celebrations so far). */
  function CartelaCheck(done: bool, celebrations: nat, card: seq<Cell>): (r: (bool, nat))
    requires |card| == CardSize
    ensures r.1 == celebrations || r.1 == celebrations + 1
    ensures done ==> r == (done, celebrations)
  {
    if AllMarked(card) && !done then (true, celebrations + 1) else (done, celebrations)
  }

  /**
   * A column flag is raised exactly for the checked letter's column when
   * that column is full; a raised flag is never lowered; checking again
   * changes nothing.
   */
  lemma ColumnCheckSpec(flags: seq<bool>, card: seq<Cell>, letter: char)
    requires |flags| == ColumnCount && |card| == CardSize
    ensures |ColumnCheck(flags, card, letter)| == ColumnCount
    ensures forall c :: 0 <= c < ColumnCount ==>
      ColumnCheck(flags, card, letter)[c] == (flags[c] || (ColumnOf(letter) == Some(c) && ColumnFull(card, c)))
    ensures ColumnCheck(ColumnCheck(flags, card, letter), card, letter) == ColumnCheck(flags, card, letter)
  {
  }

  /**
   * The row check raises at most one flag, that of the lowest full row
   * (rows below it are not full), never lowers one, and a second check
   * changes nothing.
   */
  lemma RowCheckSpec(flags: seq<bool>, card: seq<Cell>)
    requires |flags| == ColumnHeight && |card| == CardSize
    ensures |RowCheck(flags, card)| == ColumnHeight
    ensures forall r :: 0 <= r < ColumnHeight ==>
      RowCheck(flags, card)[r] == (flags[r] || (RowFull(card, r) && forall r' :: 0 <= r' < r ==> !RowFull(card, r')))
    ensures RowCheck(RowCheck(flags, card), card) == RowCheck(flags, card)
  {
  }

  /**
   * Because the row check stops at the lowest full row, a full row above
   * which a lower row is already full is never flagged by it: once row
   * `low` is complete, completing row `r > low` leaves `r`'s flag as it was.
   */
  lemma RowCheckStopsAtLowestFullRow(flags: seq<bool>, card: seq<Cell>, low: nat, r: nat)
    requires |flags| == ColumnHeight && |card| == CardSize
    requires low < r < ColumnHeight && RowFull(card, low)
    ensures RowCheck(flags, card)[r] == flags[r]
  {
    RowCheckSpec(flags, card);
  }

  /**
   * The full-card flag is raised when every slot is marked, and the
   * celebration fires exactly when the flag goes from unset to set: a
   * repeated check fires nothing.
   */
  lemma CartelaCheckSpec(done: bool, celebrations: nat, card: seq<Cell>)
    requires |card| == CardSize
    ensures CartelaCheck(done, celebrations, card).0 == (done || AllMarked(card))
    ensures CartelaCheck(done, celebrations, card).1 == celebrations + (if !done && AllMarked(card) then 1 else 0)
    ensures var (d, n) := CartelaCheck(done, celebrations, card); CartelaCheck(d, n, card) == (d, n)
  {
  }
}
