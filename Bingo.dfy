/**
 * The game engine of script.js as one object: the ball deck (`allBalls`),
 * the card's 25 slots, the column, row and full-card flags, the history
 * list, the number display and a count of celebrations. The two button
 * handlers are `Draw` and `ResetGame`; the page's load-time setup is the
 * constructor. Randomness arrives as injected swap choices.
 */
module Bingo {
  import opened Wrappers
  import opened Balls
  import opened Permutations
  import opened Card
  import Decimal

  const Unflagged: seq<bool> := [false, false, false, false, false]

  /** The deck never holds a ball twice, and holds only balls `buildBalls` makes. */
  ghost predicate DeckInv(deck: seq<Ball>) {
    Distinct(deck) && forall i :: 0 <= i < |deck| ==> WellFormed(deck[i])
  }

  /** Every slot that is still unmarked can still be drawn: its ball is in the deck. */
  ghost predicate Drawable(deck: seq<Ball>, card: seq<Cell>)
    requires |card| == CardSize
  {
    forall c, r :: 0 <= c < ColumnCount && 0 <= r < ColumnHeight && !card[Idx(c, r)].marked ==>
      Ball(Letters[c], card[Idx(c, r)].number) in deck
  }

  /**
   * The flags agree with the marks: a column flag is set exactly when the
   * column is full, a row flag only on a full row, the full-card flag
   * exactly when every slot is marked.
   */
  ghost predicate FlagsInv(card: seq<Cell>, cols: seq<bool>, rows: seq<bool>, done: bool)
    requires |card| == CardSize
  {
    && |cols| == ColumnCount && |rows| == ColumnHeight
    && (forall c :: 0 <= c < ColumnCount ==> (cols[c] <==> ColumnFull(card, c)))
    && (forall r :: 0 <= r < ColumnHeight ==> rows[r] ==> RowFull(card, r))
    && (done <==> AllMarked(card))
  }

  ghost predicate GameInv(deck: seq<Ball>, card: seq<Cell>, cols: seq<bool>, rows: seq<bool>, done: bool) {
    DeckInv(deck) && WellFormedCard(card) && FlagsInv(card, cols, rows, done) && Drawable(deck, card)
  }

  /**
   * The ball the draw loop stops at: popping from the end, the position of
   * the last ball in the deck that matches an unmarked slot. Every ball after
   * it is either not on the card or already marked.
   */
  function LastMatch(deck: seq<Ball>, card: seq<Cell>): (k: Option<nat>)
    requires |card| == CardSize
    ensures k.Some? ==> k.value < |deck| && Matchable(card, deck[k.value])
    ensures k.Some? ==> forall j :: k.value < j < |deck| ==> !Matchable(card, deck[j])
    ensures k.None? ==> forall j :: 0 <= j < |deck| ==> !Matchable(card, deck[j])
    decreases |deck|
  {
    if deck == [] then None
    else if Matchable(card, deck[|deck| - 1]) then Some(|deck| - 1)
    else
      assert forall j :: 0 <= j < |deck| - 1 ==> deck[..|deck| - 1][j] == deck[j];
      LastMatch(deck[..|deck| - 1], card)
  }

  /** Popping a ball that matches nothing leaves the last match where it was. */
  lemma LastMatchSkips(deck: seq<Ball>, card: seq<Cell>)
    requires |card| == CardSize && deck != [] && !Matchable(card, deck[|deck| - 1])
    ensures LastMatch(deck[..|deck| - 1], card) == LastMatch(deck, card)
  {
  }

  /** What `updateHistory(ball)` appends. */
  function HistoryEntry(ball: Option<Ball>): (s: string)
    ensures ball.None? <==> s == ""
  {
    match ball
    case None => ""
    case Some(b) => Code(b)
  }

  /** An unmarked slot's own ball is found at that very slot and matches. */
  lemma UnmarkedSlotMatches(card: seq<Cell>, c: nat, r: nat)
    requires WellFormedCard(card) && c < ColumnCount && r < ColumnHeight && !card[Idx(c, r)].marked
    ensures ColumnOf(Letters[c]) == Some(c) && FindRow(card, c, card[Idx(c, r)].number) == Some(r)
    ensures Matchable(card, Ball(Letters[c], card[Idx(c, r)].number))
  {
    ColumnOfLetter(c);
  }

  /** The draw loop finds no match exactly when the card is fully marked. */
  lemma NoMatchIffCardFull(deck: seq<Ball>, card: seq<Cell>, cols: seq<bool>, rows: seq<bool>, done: bool)
    requires GameInv(deck, card, cols, rows, done)
    ensures LastMatch(deck, card).None? <==> AllMarked(card)
  {
    if !AllMarked(card) {
      var c, r :| 0 <= c < ColumnCount && 0 <= r < ColumnHeight && !card[Idx(c, r)].marked;
      UnmarkedSlotMatches(card, c, r);
      var b := Ball(Letters[c], card[Idx(c, r)].number);
      var j :| 0 <= j < |deck| && deck[j] == b;
    }
  }

  /** After a match the flags, recomputed by the three checks, still agree with the marks. */
  lemma FlagsAfterMark(card: seq<Cell>, cols: seq<bool>, rows: seq<bool>, done: bool, celebrations: nat, b: Ball)
    requires WellFormedCard(card) && FlagsInv(card, cols, rows, done) && Matchable(card, b)
    ensures var card' := MarkBall(card, b);
      FlagsInv(card', ColumnCheck(cols, card', b.letter), RowCheck(rows, card'), CartelaCheck(done, celebrations, card').0)
  {
    var card' := MarkBall(card, b);
    var c := ColumnOf(b.letter).value;
    var r := FindRow(card, c, b.number).value;
    MarkBallMarksOnlyItsSlot(card, b, c, r);
    MarkBallMonotone(card, b);
    ColumnCheckSpec(cols, card', b.letter);
    RowCheckSpec(rows, card');
    CartelaCheckSpec(done, celebrations, card');
    var cols' := ColumnCheck(cols, card', b.letter);
    forall c' | 0 <= c' < ColumnCount
      ensures cols'[c'] <==> ColumnFull(card', c')
    {
      if c' != c {
        assert forall r' :: 0 <= r' < ColumnHeight ==> Idx(c', r') != Idx(c, r);
      }
    }
  }

  /**
   * The ball of a slot left unmarked by a match was not consumed: it is not
   * the matched ball (whose slot is now marked) and not one popped after it
   * (those do not match, and an unmarked slot's ball does).
   */
  lemma UnmarkedBallStays(deck: seq<Ball>, card: seq<Cell>, k: nat, c: nat, r: nat)
    requires WellFormedCard(card) && LastMatch(deck, card) == Some(k)
    requires c < ColumnCount && r < ColumnHeight && !card[Idx(c, r)].marked
    requires !MarkBall(card, deck[k])[Idx(c, r)].marked
    requires Ball(Letters[c], card[Idx(c, r)].number) in deck
    ensures Ball(Letters[c], card[Idx(c, r)].number) in deck[..k]
  {
    var ball := Ball(Letters[c], card[Idx(c, r)].number);
    UnmarkedSlotMatches(card, c, r);
    var j :| 0 <= j < |deck| && deck[j] == ball;
    if j == k {
      MarkBallMarksOnlyItsSlot(card, ball, c, r);
    }
    assert j < k;
    assert deck[..k][j] == ball;
  }

  /** After a match, every slot still unmarked still has its ball in the shortened deck. */
  lemma DrawableAfterMatch(deck: seq<Ball>, card: seq<Cell>, k: nat)
    requires WellFormedCard(card) && Drawable(deck, card) && LastMatch(deck, card) == Some(k)
    ensures Drawable(deck[..k], MarkBall(card, deck[k]))
  {
    var card' := MarkBall(card, deck[k]);
    MarkBallMonotone(card, deck[k]);
    forall c, r | 0 <= c < ColumnCount && 0 <= r < ColumnHeight && !card'[Idx(c, r)].marked
      ensures Ball(Letters[c], card'[Idx(c, r)].number) in deck[..k]
    {
      UnmarkedBallStays(deck, card, k, c, r);
    }
  }

  /** Popping balls off the end keeps the deck free of repeats and of malformed balls. */
  lemma DeckInvPrefix(deck: seq<Ball>, k: nat)
    requires DeckInv(deck) && k <= |deck|
    ensures DeckInv(deck[..k])
  {
    assert forall i :: 0 <= i < k ==> deck[..k][i] == deck[i];
  }

  /** One successful draw keeps the whole game invariant. */
  lemma MatchKeepsInv(deck: seq<Ball>, card: seq<Cell>, cols: seq<bool>, rows: seq<bool>, done: bool, celebrations: nat, k: nat)
    requires GameInv(deck, card, cols, rows, done) && LastMatch(deck, card) == Some(k)
    ensures var b := deck[k]; var card' := MarkBall(card, b);
      GameInv(deck[..k], card', ColumnCheck(cols, card', b.letter), RowCheck(rows, card'), CartelaCheck(done, celebrations, card').0)
  {
    var b := deck[k];
    MarkBallKeepsWellFormed(card, b);
    FlagsAfterMark(card, cols, rows, done, celebrations, b);
    DrawableAfterMatch(deck, card, k);
    DeckInvPrefix(deck, k);
  }

  /** A freshly built and shuffled deck with a freshly built card satisfies the game invariant. */
  lemma FreshGameInv(deckChoices: seq<nat>, picks: seq<seq<nat>>, card: seq<Cell>)
    requires SwapChoices(deckChoices, DeckSize) && GridChoices(picks) && IsFreshCard(card, picks)
    ensures GameInv(FisherYates(FullDeck(), deckChoices), card, Unflagged, Unflagged, false)
  {
    var deck := FisherYates(FullDeck(), deckChoices);
    FullDeckContents();
    FisherYatesKeepsDistinct(FullDeck(), deckChoices);
    forall i | 0 <= i < |deck| ensures WellFormed(deck[i]) {
      FisherYatesSameElements(FullDeck(), deckChoices, deck[i]);
    }
    FreshCardWellFormed(card, picks);
    forall c, r | 0 <= c < ColumnCount && 0 <= r < ColumnHeight && !card[Idx(c, r)].marked
      ensures Ball(Letters[c], card[Idx(c, r)].number) in deck
    {
      var n := card[Idx(c, r)].number;
      RangesDisjoint(c, n);
      RangeShape(c);
      assert WellFormed(Ball(Letters[c], n));
      FisherYatesSameElements(FullDeck(), deckChoices, Ball(Letters[c], n));
    }
    assert !card[Idx(0, 0)].marked;
    forall c | 0 <= c < ColumnCount ensures !ColumnFull(card, c) {
      assert !card[Idx(c, 0)].marked;
    }
  }

  class Game {
    /** `allBalls`: the deck is `deck[..deckLen]`, its last element the next ball popped. */
    const deck: array<Ball>
    var deckLen: nat
    /** The 25 `.bingo-cell` slots in document order: column `c`, row `r` is `cells[Idx(c, r)]`. */
    const cells: array<Cell>
    /** The `column-complete` class of each column. */
    var columnComplete: seq<bool>
    /** The `row-complete` class of each row's slots. */
    var rowComplete: seq<bool>
    /** The `cartela-completa` class of the page body. */
    var cardComplete: bool
    /** The `drawnNumbersList` entries, oldest first. */
    var history: seq<string>
    /** The `numberDisplay` text. */
    var display: string
    /** How many times the fireworks were launched. */
    var celebrations: nat

    ghost function Deck(): seq<Ball>
      reads this, deck
      requires deckLen <= deck.Length
    {
      deck[..deckLen]
    }

    ghost predicate Valid()
      reads this, deck, cells
    {
      && deck.Length == DeckSize && deckLen <= deck.Length && cells.Length == CardSize
      && GameInv(deck[..deckLen], cells[..], columnComplete, rowComplete, cardComplete)
    }

    /** The state right after setup or a reset with the given random choices. */
    ghost predicate IsNewGame(deckChoices: seq<nat>, picks: seq<seq<nat>>)
      reads this, deck, cells
      requires SwapChoices(deckChoices, DeckSize) && GridChoices(picks)
    {
      && deck.Length == DeckSize && deckLen == DeckSize && deck[..] == FisherYates(FullDeck(), deckChoices)
      && cells.Length == CardSize && IsFreshCard(cells[..], picks)
      && columnComplete == Unflagged && rowComplete == Unflagged && !cardComplete
      && history == [] && display == ""
    }

    /** The page load: build and shuffle the deck, then build the card. */
    constructor (deckChoices: seq<nat>, picks: seq<seq<nat>>)
      requires SwapChoices(deckChoices, DeckSize) && GridChoices(picks)
      ensures Valid() && IsNewGame(deckChoices, picks) && celebrations == 0
      ensures fresh(deck) && fresh(cells)
    {
      deck := new Ball[DeckSize](_ => Ball('B', 1));
      cells := new Cell[CardSize](_ => Cell(0, false, ""));
      deckLen := 0;
      columnComplete, rowComplete, cardComplete := Unflagged, Unflagged, false;
      history, display, celebrations := [], "", 0;
      new;
      BuildBalls();
      Shuffle(deck, deckChoices);
      InitBingoGrid(picks);
      FreshGameInv(deckChoices, picks, cells[..]);
    }

    /** `buildBalls()`: empty the deck, then push every ball of every range in order. */
    method BuildBalls()
      requires deck.Length == DeckSize
      modifies this`deckLen, deck
      ensures deckLen == DeckSize && deck[..] == FullDeck()
    {
      deckLen := 0;
      for ri := 0 to |Ranges|
        invariant deckLen == RangeWidth * ri
        invariant deck[..deckLen] == FullDeck()[..deckLen]
      {
        RangeShape(ri);
        var range := Ranges[ri];
        var n := range.start;
        while n <= range.end
          invariant range.start <= n <= range.end + 1
          invariant deckLen == n - 1
          invariant deck[..deckLen] == FullDeck()[..deckLen]
        {
          RangesDisjoint(ri, n);
          deck[deckLen] := Ball(range.letter, n);
          deckLen := deckLen + 1;
          n := n + 1;
        }
      }
    }

    /** `drawBall()`: pop the last ball, or null when the deck is empty. */
    method DrawBall() returns (ball: Option<Ball>)
      requires deckLen <= deck.Length
      modifies this`deckLen
      ensures old(deckLen) == 0 ==> ball == None && deckLen == 0
      ensures old(deckLen) > 0 ==> deckLen == old(deckLen) - 1 && ball == Some(deck[deckLen])
    {
      if deckLen == 0 {
        return None;
      }
      deckLen := deckLen - 1;
      ball := Some(deck[deckLen]);
    }

    /** `initBingoGrid()`: for each column, shuffle its range and give its 5 slots the first 5 numbers. */
    method InitBingoGrid(picks: seq<seq<nat>>)
      requires cells.Length == CardSize && GridChoices(picks)
      modifies cells
      ensures IsFreshCard(cells[..], picks)
    {
      for c := 0 to ColumnCount
        invariant forall c', r :: 0 <= c' < c && 0 <= r < ColumnHeight ==>
          cells[Idx(c', r)] == Cell(ChosenNumbers(picks, c')[r], false, "")
      {
        var nums := RangeArray(c);
        Shuffle(nums, picks[c]);
        var chosen := nums[..ColumnHeight];
        FillColumn(c, chosen);
      }
    }

    /** The `nums` push loop of `initBingoGrid`: column `c`'s range in increasing order. */
    static method RangeArray(c: nat) returns (nums: array<nat>)
      requires c < ColumnCount
      ensures fresh(nums) && nums[..] == RangeNumbers(c)
    {
      RangeShape(c);
      nums := new nat[RangeWidth];
      var n := Ranges[c].start;
      while n <= Ranges[c].end
        invariant Ranges[c].start <= n <= Ranges[c].end + 1
        invariant nums[..n - Ranges[c].start] == RangeNumbers(c)[..n - Ranges[c].start]
      {
        nums[n - Ranges[c].start] := n;
        n := n + 1;
      }
      assert nums[..] == nums[..RangeWidth];
    }

    /** The slot-creating loop of `initBingoGrid`: column `c` gets `chosen`, unmarked and blank. */
    method FillColumn(c: nat, chosen: seq<nat>)
      requires cells.Length == CardSize && c < ColumnCount && |chosen| == ColumnHeight
      modifies cells
      ensures forall r :: 0 <= r < ColumnHeight ==> cells[Idx(c, r)] == Cell(chosen[r], false, "")
      ensures forall c', r :: 0 <= c' < ColumnCount && c' != c && 0 <= r < ColumnHeight ==>
        cells[Idx(c', r)] == old(cells[Idx(c', r)])
    {
      for i := 0 to ColumnHeight
        invariant forall r :: 0 <= r < i ==> cells[Idx(c, r)] == Cell(chosen[r], false, "")
        invariant forall c', r :: 0 <= c' < ColumnCount && c' != c && 0 <= r < ColumnHeight ==>
          cells[Idx(c', r)] == old(cells[Idx(c', r)])
      {
        cells[Idx(c, i)] := Cell(chosen[i], false, "");
      }
    }

    /** `updateDisplay(ball)`. */
    method UpdateDisplay(ball: Option<Ball>)
      modifies this`display
      ensures display == DisplayLine(ball)
    {
      display := DisplayLine(ball);
    }

    /** `updateHistory(ball)`. */
    method UpdateHistory(ball: Option<Ball>)
      modifies this`history
      ensures history == old(history) + [HistoryEntry(ball)]
    {
      history := history + [HistoryEntry(ball)];
    }

    /** `addToBingoPanel(ball)`: mark and reveal the ball's slot if it is on the card and unmarked. */
    method AddToBingoPanel(ball: Option<Ball>)
      requires cells.Length == CardSize
      modifies cells
      ensures cells[..] == if ball.None? then old(cells[..]) else MarkBall(old(cells[..]), ball.value)
    {
      if ball.None? {
        return;
      }
      var b := ball.value;
      var col := ColumnOf(b.letter);
      if col.None? {
        return;
      }
      var row := FindRow(cells[..], col.value, b.number);
      if row.None? {
        return;
      }
      var k := Idx(col.value, row.value);
      if !cells[k].marked {
        cells[k] := Cell(cells[k].number, true, Decimal.Format(cells[k].number));
      }
    }

    /** `checkColumnComplete(letter)`: count the column's marked slots; flag the column when all are. */
    method CheckColumnComplete(letter: char)
      requires cells.Length == CardSize && |columnComplete| == ColumnCount
      modifies this`columnComplete
      ensures columnComplete == ColumnCheck(old(columnComplete), cells[..], letter)
    {
      var col := ColumnOf(letter);
      if col.None? {
        return;
      }
      var c := col.value;
      ghost var slots := ColumnCells(cells[..], c);
      var markedCount := 0;
      for r := 0 to ColumnHeight
        invariant markedCount == CountMarked(slots[..r])
      {
        assert slots[..r + 1][..r] == slots[..r];
        if cells[Idx(c, r)].marked {
          markedCount := markedCount + 1;
        }
      }
      assert slots[..ColumnHeight] == slots;
      ColumnCountFull(cells[..], c);
      if markedCount == ColumnHeight {
        if !columnComplete[c] {
          columnComplete := columnComplete[c := true];
        }
      }
    }

    /** `checkRowComplete()`: scan rows top to bottom, flag the first fully marked one and stop. */
    method CheckRowComplete()
      requires cells.Length == CardSize && |rowComplete| == ColumnHeight
      modifies this`rowComplete
      ensures rowComplete == RowCheck(old(rowComplete), cells[..])
    {
      for row := 0 to ColumnHeight
        invariant rowComplete == old(rowComplete)
        invariant forall r :: 0 <= r < row ==> !RowFull(cells[..], r)
      {
        ghost var slotsInRow := RowCells(cells[..], row);
        var count := 0;
        for c := 0 to ColumnCount
          invariant count == CountMarked(slotsInRow[..c])
        {
          assert slotsInRow[..c + 1][..c] == slotsInRow[..c];
          if cells[Idx(c, row)].marked {
            count := count + 1;
          }
        }
        assert slotsInRow[..ColumnCount] == slotsInRow;
        RowCountFull(cells[..], row);
        if count >= ColumnCount {
          rowComplete := rowComplete[row := true];
          return;
        }
      }
    }

    /** `checkCartelaComplete()`: count all marked slots; at 25, flag the card and celebrate once. */
    method CheckCartelaComplete()
      requires cells.Length == CardSize
      modifies this`cardComplete, this`celebrations
      ensures (cardComplete, celebrations) == CartelaCheck(old(cardComplete), old(celebrations), cells[..])
    {
      var marked := 0;
      for k := 0 to cells.Length
        invariant marked == CountMarked(cells[..k])
      {
        assert cells[..k + 1][..k] == cells[..k];
        if cells[k].marked {
          marked := marked + 1;
        }
      }
      assert cells[..cells.Length] == cells[..];
      CardCountFull(cells[..]);
      if marked >= CardSize {
        if !cardComplete {
          cardComplete := true;
          ShowFireworks();
        }
      }
    }

    /** `showFireworks()`: reduced to counting the celebration. */
    method ShowFireworks()
      modifies this`celebrations
      ensures celebrations == old(celebrations) + 1
    {
      celebrations := celebrations + 1;
    }

    /** `resetGame()`: rebuild and reshuffle the deck, clear display, history and flags, rebuild the card. */
    method ResetGame(deckChoices: seq<nat>, picks: seq<seq<nat>>)
      requires deck.Length == DeckSize && cells.Length == CardSize
      requires SwapChoices(deckChoices, DeckSize) && GridChoices(picks)
      modifies this, deck, cells
      ensures Valid() && IsNewGame(deckChoices, picks) && celebrations == old(celebrations)
    {
      BuildBalls();
      Shuffle(deck, deckChoices);
      UpdateDisplay(None);
      history := [];
      columnComplete := Unflagged;
      rowComplete := Unflagged;
      cardComplete := false;
      InitBingoGrid(picks);
      FreshGameInv(deckChoices, picks, cells[..]);
    }

    /**
     * The draw loop of the draw button: pop balls until one matches an
     * unmarked slot, throwing away the others; null when the deck runs out.
     * It stops at the deck's last matching ball, and only the balls after it
     * are consumed.
     */
    method DrawUntilMatch() returns (matched: Option<Ball>)
      requires deckLen <= deck.Length && cells.Length == CardSize
      modifies this`deckLen
      ensures deckLen <= old(deckLen) && Deck() == old(Deck())[..deckLen]
      ensures matched.None? <==> LastMatch(old(Deck()), cells[..]).None?
      ensures matched.None? ==> deckLen == 0
      ensures matched.Some? ==> LastMatch(old(Deck()), cells[..]) == Some(deckLen) && matched.value == old(Deck())[deckLen]
    {
      ghost var deck0, card := Deck(), cells[..];
      matched := None;
      while true
        invariant deckLen <= old(deckLen)
        invariant Deck() == deck0[..deckLen]
        invariant LastMatch(Deck(), card) == LastMatch(deck0, card)
        invariant matched == None
        decreases deckLen
      {
        ghost var before := Deck();
        var ball := DrawBall();
        if ball.None? {
          break;
        }
        var b := ball.value;
        assert before[..deckLen] == Deck();
        var col := ColumnOf(b.letter);
        if col.Some? {
          var row := FindRow(cells[..], col.value, b.number);
          if row.Some? && !cells[Idx(col.value, row.value)].marked {
            matched := ball;
            break;
          }
        }
        LastMatchSkips(before, card);
      }
    }

    /** The rest of the draw button after a match: display, history, mark, completion checks. */
    method Reveal(b: Ball)
      requires cells.Length == CardSize && |columnComplete| == ColumnCount && |rowComplete| == ColumnHeight
      modifies this`display, this`history, cells, this`columnComplete, this`rowComplete, this`cardComplete, this`celebrations
      ensures cells[..] == MarkBall(old(cells[..]), b)
      ensures history == old(history) + [Code(b)]
      ensures display == DisplayLine(Some(b))
      ensures columnComplete == ColumnCheck(old(columnComplete), cells[..], b.letter)
      ensures rowComplete == RowCheck(old(rowComplete), cells[..])
      ensures (cardComplete, celebrations) == CartelaCheck(old(cardComplete), old(celebrations), cells[..])
    {
      UpdateDisplay(Some(b));
      UpdateHistory(Some(b));
      AddToBingoPanel(Some(b));
      CheckColumnComplete(b.letter);
      CheckRowComplete();
      CheckCartelaComplete();
    }

    /**
     * The draw button: pop balls until one matches an unmarked slot, then
     * show it, log it, mark it and run the three completion checks; if the
     * deck runs out first, reset the game with the given choices.
     */
    method Draw(deckChoices: seq<nat>, picks: seq<seq<nat>>) returns (matched: Option<Ball>)
      requires Valid() && SwapChoices(deckChoices, DeckSize) && GridChoices(picks)
      modifies this, deck, cells
      ensures Valid()
      ensures matched.None? <==> old(LastMatch(Deck(), cells[..])).None?
      ensures matched.None? <==> old(AllMarked(cells[..]))
      ensures matched.None? ==> IsNewGame(deckChoices, picks) && celebrations == old(celebrations)
      ensures matched.Some? ==>
        && old(LastMatch(Deck(), cells[..])) == Some(deckLen)
        && matched.value == old(Deck())[deckLen]
        && Deck() == old(Deck())[..deckLen]
        && cells[..] == MarkBall(old(cells[..]), matched.value)
        && MarksGrow(old(cells[..]), cells[..]) && SameNumbers(old(cells[..]), cells[..])
        && history == old(history) + [Code(matched.value)]
        && display == DisplayLine(matched)
        && columnComplete == ColumnCheck(old(columnComplete), cells[..], matched.value.letter)
        && rowComplete == RowCheck(old(rowComplete), cells[..])
        && (cardComplete, celebrations) == CartelaCheck(old(cardComplete), old(celebrations), cells[..])
    {
      ghost var card := cells[..];
      ghost var deck0 := Deck();
      NoMatchIffCardFull(deck0, card, columnComplete, rowComplete, cardComplete);
      matched := DrawUntilMatch();
      if matched.None? {
        ResetGame(deckChoices, picks);
        return;
      }
      var b := matched.value;
      ghost var cols, rows, done, cel := columnComplete, rowComplete, cardComplete, celebrations;
      Reveal(b);
      MatchKeepsInv(deck0, card, cols, rows, done, cel, deckLen);
      MarkBallMonotone(card, b);
    }
  }
}
