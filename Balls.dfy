/**
 * Bingo balls: the five letter ranges, the ball value, the text forms of a
 * ball (its history code such as "B12" and its display form "B-12") and the
 * full 75-ball deck that `buildBalls` produces.
 */
module Balls {
  import opened Wrappers
  import Decimal
  import opened Permutations

  /** One drawable token; the source's `{ code, number, letter }` record, whose code is `Code`. */
  datatype Ball = Ball(letter: char, number: nat)

  /** One row of the source's `ranges` table. */
  datatype Range = Range(letter: char, start: nat, end: nat)

  const Letters: string := "BINGO"
  const ColumnCount: nat := 5
  const RangeWidth: nat := 15
  const DeckSize: nat := 75

  const Ranges: seq<Range> :=
    [Range('B', 1, 15), Range('I', 16, 30), Range('N', 31, 45), Range('G', 46, 60), Range('O', 61, 75)]

  /** Range `c` is the `c`-th block of 15 consecutive numbers and carries the `c`-th letter of "BINGO". */
  lemma RangeShape(c: nat)
    requires c < ColumnCount
    ensures |Ranges| == ColumnCount && |Letters| == ColumnCount
    ensures Ranges[c] == Range(Letters[c], RangeWidth * c + 1, RangeWidth * c + RangeWidth)
  {
    if c == 0 {
    } else if c == 1 {
    } else if c == 2 {
    } else if c == 3 {
    } else {
    }
  }

  /** The container lookup `cells-${letter}`: the column a letter names, if any. */
  function ColumnOf(letter: char): (r: Option<nat>)
    ensures r.Some? ==> r.value < ColumnCount && Letters[r.value] == letter
    ensures r.None? ==> forall c :: 0 <= c < ColumnCount ==> Letters[c] != letter
  {
    if letter == 'B' then Some(0)
    else if letter == 'I' then Some(1)
    else if letter == 'N' then Some(2)
    else if letter == 'G' then Some(3)
    else if letter == 'O' then Some(4)
    else None
  }

  lemma ColumnOfLetter(c: nat)
    requires c < ColumnCount
    ensures ColumnOf(Letters[c]) == Some(c)
  {
    if c == 0 {
    } else if c == 1 {
    } else if c == 2 {
    } else if c == 3 {
    } else {
    }
  }

  /** The range a ball number falls in. */
  function RangeOf(n: nat): (c: nat)
    requires 1 <= n <= DeckSize
    ensures c < ColumnCount && Ranges[c].start <= n <= Ranges[c].end
  {
    if n <= 15 then 0 else if n <= 30 then 1 else if n <= 45 then 2 else if n <= 60 then 3 else 4
  }

  /** The ranges do not overlap, so a number's range is unique. */
  lemma RangesDisjoint(c: nat, n: nat)
    requires c < ColumnCount && Ranges[c].start <= n <= Ranges[c].end
    ensures 1 <= n <= DeckSize && RangeOf(n) == c
  {
    RangeShape(c);
    RangeShape(RangeOf(n));
  }

  /** The letter of the range a number belongs to. */
  function LetterFor(n: nat): char
    requires 1 <= n <= DeckSize
  {
    Ranges[RangeOf(n)].letter
  }

  /** A ball as `buildBalls` makes it: number 1..75 and the letter of its range. */
  predicate WellFormed(b: Ball) {
    1 <= b.number <= DeckSize && b.letter == LetterFor(b.number)
  }

  /** The history code `buildBalls` gives a ball, `${letter}${n}`. */
  function Code(b: Ball): (s: string)
    ensures |s| >= 2 && s[0] == b.letter && Decimal.AllDigits(s[1..])
  {
    [b.letter] + Decimal.Format(b.number)
  }

  /** The number display `updateDisplay` writes, `${letter}-${number}`, or empty for no ball. */
  function DisplayLine(ball: Option<Ball>): (s: string)
    ensures ball.None? <==> s == ""
    ensures ball.Some? ==> |s| >= 3 && s[0] == ball.value.letter && s[1] == '-' && Decimal.AllDigits(s[2..])
  {
    match ball
    case None => ""
    case Some(b) => [b.letter] + "-" + Decimal.Format(b.number)
  }

  /** Reading a code back into the ball it names. */
  function ParseCode(s: string): (r: Option<Ball>)
    ensures r.Some? ==> |s| > 0 && r.value.letter == s[0]
  {
    if |s| == 0 then None
    else match Decimal.Parse(s[1..])
      case None => None
      case Some(n) => Some(Ball(s[0], n))
  }

  /** Reading the display line back into the ball it shows. */
  function ParseDisplayLine(s: string): (r: Option<Ball>)
    ensures r.Some? ==> |s| > 1 && s[1] == '-' && r.value.letter == s[0]
  {
    if |s| < 2 || s[1] != '-' then None
    else match Decimal.Parse(s[2..])
      case None => None
      case Some(n) => Some(Ball(s[0], n))
  }

  /** A code names exactly the ball it was made from. */
  lemma ParseCodeOfCode(b: Ball)
    ensures ParseCode(Code(b)) == Some(b)
  {
    Decimal.ParseFormat(b.number);
    assert Code(b)[1..] == Decimal.Format(b.number);
  }

  /** The display line shows exactly the ball it was made from, and nothing when there is no ball. */
  lemma ParseDisplayLineOfDisplayLine(ball: Option<Ball>)
    ensures ParseDisplayLine(DisplayLine(ball)) == ball
  {
    if ball.Some? {
      Decimal.ParseFormat(ball.value.number);
      assert DisplayLine(ball)[2..] == Decimal.Format(ball.value.number);
    }
  }

  /** Two different balls never share a history code. */
  lemma CodeInjective(a: Ball, b: Ball)
    requires Code(a) == Code(b)
    ensures a == b
  {
    ParseCodeOfCode(a);
    ParseCodeOfCode(b);
  }

  /** The deck `buildBalls` leaves behind: ball k is number k + 1 with its range's letter. */
  function FullDeck(): (d: seq<Ball>)
    ensures |d| == DeckSize
  {
    seq(DeckSize, k requires 0 <= k < DeckSize => Ball(LetterFor(k + 1), k + 1))
  }

  /**
   * The full deck holds 75 balls, one per number 1..75, each well formed,
   * with no ball twice, and the ball with number n sits at position n - 1.
   */
  lemma FullDeckContents()
    ensures |FullDeck()| == DeckSize && Distinct(FullDeck())
    ensures forall k :: 0 <= k < DeckSize ==> WellFormed(FullDeck()[k]) && FullDeck()[k].number == k + 1
    ensures forall b :: WellFormed(b) <==> b in FullDeck()
  {
    var d := FullDeck();
    forall b | WellFormed(b) ensures b in d {
      assert d[b.number - 1] == b;
    }
  }
}
