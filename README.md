# Bingo engine model

This is a Dafny model of the game engine in `script.js`, a browser bingo game.
The engine has three parts:

- A deck of 75 balls, B1–B15, I16–I30, N31–N45, G46–G60 and O61–O75.
  It is built in order, shuffled with Fisher–Yates and popped from the end.
- A 5×5 card. Each column holds 5 distinct numbers from its letter's range.
  Every cell starts hidden and unmarked.
- A draw button. It pops balls until one matches an unmarked cell, throwing the others away.
  It then shows the ball as `L-n`, logs its code `Ln`, marks and reveals the cell, and checks for a complete column, row and card.
  If the deck runs out first, the game resets.

The model follows the program's own shape. The page state is one object, `Bingo.Game`:

- the deck is an `array<Ball>` of capacity 75 with a length field;
- the card is an `array<Cell>` of 25 cells, with column `c`, row `r` at `Idx(c, r) = 5c + r`;
- the column, row and full-card CSS classes become flag fields;
- the history list and the number display become a `seq<string>` and a `string`.

Each button handler and DOM helper of the script is a method of `Game`. The two identical shuffles are the one generic method `Permutations.Shuffle`, and the code and display formats are functions. Each method's new state is given in terms of its old state, mostly through a specification function on values.

Put together, the proofs give one invariant, `GameInv`. It holds after setup, after every draw and after every reset. It states:

- the deck never holds a ball twice;
- every ball is one that `buildBalls` makes;
- the card is well formed;
- the flags agree with the marks;
- every unmarked cell's ball is still in the deck.

From the last point, `Bingo.NoMatchIffCardFull` proves that the draw loop runs the deck dry exactly when every cell of the card is marked.
So "the deck runs out while unmarked cells remain" never happens.
The no-match reset path is reached only after a full card.

Randomness is a parameter. A shuffle of length `n` takes swap choices `js` with `|js| == n` and `js[i] <= i`: `js[i]` is the `j` that `Math.floor(Math.random() * (i + 1))` would have produced at step `i`.
Any sequence of such choices is allowed, so every shuffle the script can produce is covered.

Modules:

- `Wrappers`: `Option`.
- `Decimal`: number to text and back.
- `Permutations`: swaps, Fisher–Yates as a function, and the in-place `Shuffle`.
- `Balls`: balls, letter ranges, the full deck, codes and display strings.
- `Card`: cells, card building, lookup and marking, and the three completion checks as functions.
- `Bingo`: the invariant, the draw-loop specification and the `Game` class.

## Model

| member | source | states |
|---|---|---|
| Decimal.ParseFormat | script.js:19 | The decimal text of a number reads back as that number, so a code's or display's number part identifies the number. |
| Decimal.FormatInjective | script.js:74 | Two numbers with the same revealed text are the same number. |
| Balls.ColumnOf | script.js:63 | A letter's column is the position of that letter in `BINGO`; a letter outside `BINGO` has no column. |
| Balls.RangeShape | script.js:9-15 | Column `c`'s range has letter `BINGO[c]` and runs from 15c+1 to 15c+15. |
| Balls.RangesDisjoint | script.js:9-15 | Every number in a column's range lies in 1..75 and belongs to that column only. |
| Balls.FullDeckContents | script.js:8-22 | The built deck has 75 balls, none twice; ball `k` is number `k+1` under its range's letter; a ball is in the deck exactly when its letter is that of its number's range. |
| Balls.ParseCodeOfCode | script.js:19 | The code `Ln` of a ball parses back to that ball. |
| Balls.CodeInjective | script.js:19 | Distinct balls have distinct codes. |
| Balls.ParseDisplayLineOfDisplayLine | script.js:44-49 | The display text `L-n` parses back to the ball; the empty display parses back to no ball. |
| Permutations.Swap | script.js:28 | A swap exchanges positions `i` and `j` and leaves every other position alone. |
| Permutations.FisherYatesPermutes | script.js:25-30 | Fisher–Yates returns a permutation of its input, for every choice sequence. |
| Permutations.FisherYatesKeepsDistinct | script.js:25-30 | A shuffled sequence without repeats still has none. |
| Permutations.FisherYatesSameElements | script.js:25-30 | A value is in the shuffled sequence exactly when it is in the original. |
| Permutations.SwapInPlace | script.js:28 | Swapping two array elements in place gives the `Swap` of the old contents. |
| Permutations.Shuffle | script.js:25-30 | The in-place loop from the last index down to 1 leaves the array equal to `FisherYates` of its old contents. |
| Balls.Code | script.js:19 | Computes the history code `Ln`: the letter followed by the decimal digits of the number. Round trip and injectivity are `Balls.ParseCodeOfCode` and `Balls.CodeInjective`. |
| Balls.DisplayLine | script.js:48 | Computes the display text: empty exactly when there is no ball, otherwise the letter, a hyphen, then the number's digits. The round trip is `Balls.ParseDisplayLineOfDisplayLine`. |
| Balls.FullDeck | script.js:8-22 | The deck `buildBalls` leaves, with 75 balls. Its contents are `Balls.FullDeckContents`. |
| Permutations.FisherYates | script.js:25-30 | The Fisher–Yates result for given swap choices, with the input's length. Permutation, distinctness and membership are `Permutations.FisherYatesPermutes`, `Permutations.FisherYatesKeepsDistinct` and `Permutations.FisherYatesSameElements`. |
| Card.Matchable | script.js:111-113 | The draw loop's test: the ball's letter names a column (so it is one of `BINGO`), the column has a slot with the number, and that slot is unmarked. `Bingo.UnmarkedSlotMatches` shows every unmarked slot's own ball passes it. |
| Card.MarkBall | script.js:60-76 | The card after `addToBingoPanel`: 25 slots, and changed only when the ball is matchable. Its effect slot by slot is `Card.MarkBallMarksOnlyItsSlot`, `Card.MarkBallAbsentIsNoOp`, `Card.MarkBallMonotone` and `Card.MarkBallIdempotent`. |
| Card.ColumnCheck | script.js:190-205 | The column flags after `checkColumnComplete`: 5 flags, and no set flag is cleared. The exact behaviour is `Card.ColumnCheckSpec`. |
| Card.RowCheck | script.js:208-231 | The row flags after `checkRowComplete`: 5 flags, and no set flag is cleared. The exact behaviour is `Card.RowCheckSpec` and `Card.RowCheckStopsAtLowestFullRow`. |
| Card.CartelaCheck | script.js:234-244 | The full-card flag and celebration count after `checkCartelaComplete`. The count grows by at most one, and nothing changes once the flag is set. The exact behaviour is `Card.CartelaCheckSpec`. |
| Bingo.HistoryEntry | script.js:55 | The text of the new history entry: empty exactly when there is no ball, otherwise the ball's code. |
| Card.CellText | script.js:74 | The slot text, blank when the slot is created at script.js:180: empty exactly while the slot is unmarked, and its number once marked. `Card.MarkBallKeepsWellFormed` shows that marking keeps every slot's text equal to this. |
| Card.ChosenNumbers | script.js:171-172 | The first 5 numbers of the column's shuffled range. `Card.ChosenNumbersInRange` proves they are distinct and in range. |
| Card.CountMarked | script.js:196 | The number of marked slots in a list, as also computed at script.js:221 and script.js:236, never more than its length. `Card.CountMarkedAll` and `Card.CardCountFull` prove it reaches the length exactly when every slot is marked. |
| Card.ChosenNumbersInRange | script.js:169-172 | A column's chosen numbers are 5 distinct numbers from that column's range. |
| Card.FreshCardWellFormed | script.js:155-184 | A freshly built card is well formed, with in-range distinct numbers per column, and every cell is unmarked. |
| Card.FindRow | script.js:66 | The lookup returns the first slot of the column holding the number, or nothing when no slot holds it. |
| Card.FindRowSameNumbers | script.js:66 | Marking does not change which slot a lookup finds: cards with the same numbers give the same answer. |
| Card.MarkBallMarksOnlyItsSlot | script.js:60-76 | Marking a ball on the card marks the matching slot. An unmarked slot also reveals its number. No other slot changes. |
| Card.MarkBallAbsentIsNoOp | script.js:61-70 | A ball whose letter is unknown or whose number is not in its column leaves the card unchanged. |
| Card.MarkBallMonotone | script.js:71-75 | Marking never changes a number and never clears a mark; the card changes only when the ball matches an unmarked slot. |
| Card.MarkBallIdempotent | script.js:71-75 | Marking the same ball twice is the same as marking it once. |
| Card.MarkBallKeepsWellFormed | script.js:71-75 | Marking keeps the card well formed; a marked slot shows its number. |
| Card.CountMarkedAll | script.js:196 | The marked count equals the number of slots exactly when every slot is marked. |
| Card.ColumnCountFull | script.js:194-199 | A column's marked count is 5 exactly when the column is full. |
| Card.RowCountFull | script.js:211-223 | A row's marked count is at least 5 exactly when the row is full. |
| Card.CardCountFull | script.js:235-237 | The card's marked count is at least 25 exactly when all 25 slots are marked. |
| Card.FirstFullRow | script.js:211-229 | The row scan stops at the lowest full row, or finds none when no row is full. |
| Card.ColumnCheckSpec | script.js:190-205 | The column check sets the ball's column flag exactly when that column is full and leaves every other flag as it was. It is idempotent. |
| Card.RowCheckSpec | script.js:208-231 | The row check sets the flag of the lowest full row only and never clears a flag. It is idempotent. |
| Card.RowCheckStopsAtLowestFullRow | script.js:227-228 | Once a lower row is full, the check never flags any row above it. |
| Card.CartelaCheckSpec | script.js:234-244 | The card flag becomes set or stays set exactly when all slots are marked. The fireworks fire once, on the change from unset to set. Repeating the check changes nothing. |
| Bingo.LastMatch | script.js:104-118 | The draw loop stops at the last deck position whose ball matches an unmarked slot: that ball matches, later balls do not, and there is no such position when nothing matches. |
| Bingo.NoMatchIffCardFull | script.js:108-124 | Under the game invariant, the draw loop finds nothing exactly when the card is fully marked. |
| Bingo.FlagsAfterMark | script.js:129-133 | After a match, the three checks leave the flags agreeing with the marks. |
| Bingo.DrawableAfterMatch | script.js:108-129 | After a match, every slot still unmarked still has its ball in the shortened deck. |
| Bingo.DeckInvPrefix | script.js:39 | Popping balls off the end keeps the deck free of repeats and of foreign balls. |
| Bingo.MatchKeepsInv | script.js:104-133 | A successful draw keeps the whole game invariant. |
| Bingo.FreshGameInv | script.js:33-34 | A newly built and shuffled deck with a card freshly built by the load-time `initBingoGrid()` at script.js:187 satisfies the game invariant, with every flag cleared. |
| Bingo.Game.constructor | script.js:33-34 | Setup builds and shuffles the deck and then builds the card, the load-time `initBingoGrid()` at script.js:187, in fresh arrays. The result is a new game for the given choices and satisfies the invariant, so `Draw` and `ResetGame` can be called on it straight away. |
| Bingo.Game.BuildBalls | script.js:8-22 | Rebuilding the deck empties it, then pushes all 75 balls range by range, giving the full ordered deck. |
| Bingo.Game.DrawBall | script.js:36-42 | An empty deck gives no ball and stays empty; otherwise the last ball is removed and returned. |
| Bingo.Game.InitBingoGrid | script.js:155-184 | Every column gets the first 5 numbers of its shuffled range, unmarked and blank. |
| Bingo.Game.RangeArray | script.js:169-170 | The pushed list is column `c`'s range in increasing order. |
| Bingo.Game.FillColumn | script.js:175-182 | Column `c`'s 5 slots get the chosen numbers, unmarked and blank; the other columns are untouched. |
| Bingo.Game.UpdateDisplay | script.js:44-49 | The display becomes `L-n` for a ball and the empty text for none. |
| Bingo.Game.UpdateHistory | script.js:51-57 | The history gains exactly one entry at its end: the ball's code, or the empty text for none. |
| Bingo.Game.AddToBingoPanel | script.js:60-76 | The card becomes `MarkBall` of the old card; with no ball it is unchanged. |
| Bingo.Game.CheckColumnComplete | script.js:190-205 | The column flags become `ColumnCheck` of the old flags on the current card. |
| Bingo.Game.CheckRowComplete | script.js:208-231 | The row flags become `RowCheck` of the old flags on the current card. |
| Bingo.Game.CheckCartelaComplete | script.js:234-244 | The card flag and the celebration count become `CartelaCheck` of their old values on the current card. |
| Bingo.Game.ShowFireworks | script.js:247-249 | Launching the fireworks is counted once. |
| Bingo.Game.ResetGame | script.js:78-99 | A reset yields a new game for the given choices: full reshuffled deck, fresh card, empty display and history, all flags cleared. It satisfies the invariant. |
| Bingo.Game.DrawUntilMatch | script.js:106-118 | The loop only shortens the deck. It finds no ball exactly when `LastMatch` finds nothing, and then the deck is empty. Otherwise it stops at `LastMatch`'s position and returns that ball. |
| Bingo.Game.Reveal | script.js:126-133 | After a match, the card is marked, the code logged, the ball shown and all three flag groups recomputed from the new card. |
| Bingo.Game.Draw | script.js:104-135 | The draw button keeps the invariant. It finds no ball exactly when the card was full, and then resets the game. Otherwise it consumes the deck down to the last matching ball and returns that ball, with the card marked, the code logged, the ball shown and the flags recomputed. |

## Left out

- The DOM lookups and their guards (`getElementById` returning null, a missing container, a slot missing from a row) are left out. The page is taken to have all its elements, so those early returns never happen.
- `alert` and `console.log` are left out. They have no effect on the game state.
- `drawnSet` is left out. The script writes to it but never reads it.
- Bingo.Game.ShowFireworks: the overlay, its random positions, its 4 s + 1 s removal timers and the single-overlay guard are not modelled. The guard goes with the timers: the model adds one celebration on every call. That includes a call the source suppresses because an earlier overlay is still on screen, for example when a reset and a new full card both come within about 5 seconds of the last fireworks.
- Permutations.Shuffle: `Math.random` is replaced by injected swap choices, so the model says nothing about how uniform the shuffle is.
- The click and load event wiring is left out. The load-time script is the constructor, and the two buttons are `Draw` and `ResetGame`.
- Bingo.Game.BuildBalls: the deck is a fixed array of capacity 75 with a length, not a growable JavaScript array. `allBalls.length = 0` sets the length to 0.
- Bingo.Game.CheckRowComplete: the row-complete class sits on each slot, but it is always added to all 5 slots of a row together. The model keeps one flag per row.
- Bingo.Game.CheckColumnComplete: the `data-number` filter and the `slots.length === 0` guard never fire, because every column always has 5 numbered slots. The model counts the column's 5 slots.
- Card.FindRow: `Number(s.dataset.number)` is modelled as reading back the number written into the slot. Non-numeric slot text cannot occur.
- `shuffle` and `shuffleArray` have identical code. Both are the one generic `Permutations.Shuffle`.
- A comment in the source says a column is complete at 15 marked cells, and another speaks of 75 cells and rows 0..14. The code compares against the column's actual 5 slots and against 25 cells, and the model follows the code.
