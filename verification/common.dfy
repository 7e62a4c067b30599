/**
 * Definitions shared by both rules engines of the game: the managed core
 * (MinesweeperCore) and the Win32 variant (winmine). The two code bases
 * declare the same enumerations in the same order, so they are defined once
 * here, together with the board-size constants and the mark cycle that both
 * engines apply on a right click.
 */
module Common {

  datatype Option<+T> = None | Some(value: T)

  /** The mark state of a box; Complete means the box has been opened. */
  datatype FlagType = Normal | Question | Flag | Complete

  datatype GameStatus = Waiting | Playing | GameOver | Won

  datatype Difficulty = Beginner | Advanced | Expert | Custom

  // Board sizes of the three fixed levels and the largest custom board.
  const BeginnerMines := 10
  const BeginnerRows := 9
  const BeginnerCols := 9
  const AdvancedMines := 40
  const AdvancedCols := 16
  const AdvancedRows := 16
  const ExpertMines := 99
  const ExpertCols := 30
  const ExpertRows := 16
  const MaxCols := 30
  const MaxRows := 24

  /** A board size: columns, rows and number of mines. */
  datatype Level = Level(cols: int, rows: int, mines: int)

  /** The size a fixed difficulty selects. */
  function Preset(d: Difficulty): (l: Level)
    requires d != Custom
    ensures d == Beginner ==> l == Level(9, 9, 10)
    ensures d == Advanced ==> l == Level(16, 16, 40)
    ensures d == Expert ==> l == Level(30, 16, 99)
  {
    match d
    case Beginner => Level(BeginnerCols, BeginnerRows, BeginnerMines)
    case Advanced => Level(AdvancedCols, AdvancedRows, AdvancedMines)
    case Expert => Level(ExpertCols, ExpertRows, ExpertMines)
  }

  /** Every fixed level leaves room for its mines: 10 <= mines <= (cols-1)(rows-1). */
  lemma PresetsAreLegal(d: Difficulty)
    requires d != Custom
    ensures var l := Preset(d);
      && BeginnerCols <= l.cols <= MaxCols && BeginnerRows <= l.rows <= MaxRows
      && BeginnerMines <= l.mines <= (l.cols - 1) * (l.rows - 1)
  {
  }

  /**
   * The mark a right click gives a box. An opened box keeps its state; a flag
   * becomes a question mark when question marks are enabled.
   */
  function NextMark(f: FlagType, markQuestion: bool): (g: FlagType)
    ensures f == Complete <==> g == Complete
    ensures g == Flag <==> f == Normal
    ensures f == Flag ==> (g == Question <==> markQuestion)
    ensures f == Question ==> g == Normal
  {
    match f
    case Complete => Complete
    case Flag => if markQuestion then Question else Normal
    case Question => Normal
    case Normal => Flag
  }

  /** How a right click changes the number of placed flags. */
  function MarkDelta(f: FlagType): int
  {
    match f
    case Flag => -1
    case Normal => 1
    case _ => 0
  }

  function FlagCount(f: FlagType): nat
  {
    if f == Flag then 1 else 0
  }

  /** The flag counter changes exactly by the number of flags the click adds or removes. */
  lemma MarkDeltaTracksFlags(f: FlagType, markQuestion: bool)
    ensures MarkDelta(f) == FlagCount(NextMark(f, markQuestion)) - FlagCount(f)
  {
  }

  /** The cycle returns to an unmarked box after three clicks with question marks, two without. */
  lemma MarkCycle(markQuestion: bool)
    ensures markQuestion ==> NextMark(NextMark(NextMark(Normal, true), true), true) == Normal
    ensures !markQuestion ==> NextMark(NextMark(Normal, false), false) == Normal
    ensures MarkDelta(Normal) + MarkDelta(Flag) + MarkDelta(Question) == 0
  {
  }

  /**
   * The 3x3 block around a box, in the order both engines visit it: column
   * offset outer, row offset inner, the box itself in the middle.
   */
  const BlockOffsets: seq<(int, int)> :=
    [(-1, -1), (-1, 0), (-1, 1), (0, -1), (0, 0), (0, 1), (1, -1), (1, 0), (1, 1)]

  predicate Near(x: int, y: int, cx: int, cy: int)
  {
    cx - 1 <= x <= cx + 1 && cy - 1 <= y <= cy + 1
  }

  /** Where an offset sits in the visiting order. */
  function OffsetIndex(dx: int, dy: int): int
  {
    3 * (dx + 1) + (dy + 1)
  }

  lemma BlockOffsetsVisitBlock(dx: int, dy: int)
    requires -1 <= dx <= 1 && -1 <= dy <= 1
    ensures 0 <= OffsetIndex(dx, dy) < 9
    ensures BlockOffsets[OffsetIndex(dx, dy)] == (dx, dy)
  {
  }

  lemma BlockOffsetAt(n: int)
    requires 0 <= n < 9
    ensures -1 <= BlockOffsets[n].0 <= 1 && -1 <= BlockOffsets[n].1 <= 1
    ensures OffsetIndex(BlockOffsets[n].0, BlockOffsets[n].1) == n
  {
  }

  /** Taking k out of k plus the rest leaves one element fewer. */
  lemma CardRemoveOne<T>(e: set<T>, tail: set<T>, k: T)
    requires e == {k} + tail
    ensures |tail - {k}| == |e| - 1
  {
    assert tail - {k} == e - {k};
  }

  /** Splitting a set into two disjoint parts splits its size, its part outside m, and whether it meets m. */
  lemma DisjointParts<T>(g1: set<T>, g2: set<T>, m: set<T>)
    requires g1 !! g2
    ensures |g1 + g2| == |g1| + |g2|
    ensures |(g1 + g2) - m| == |g1 - m| + |g2 - m|
    ensures (g1 + g2) * m != {} <==> g1 * m != {} || g2 * m != {}
  {
    assert (g1 + g2) - m == (g1 - m) + (g2 - m);
    assert (g1 - m) !! (g2 - m);
    assert (g1 + g2) * m == g1 * m + g2 * m;
  }

  // Multiplication facts for row-major indices and size bounds, proved in small steps.

  lemma MulGe(a: int, c: int)
    requires a >= 1 && c >= 0
    ensures a * c >= c
  {
    assert a * c == c + (a - 1) * c;
  }

  lemma MulDist(a: int, b: int, c: int)
    ensures a * c - b * c == (a - b) * c
  {
  }

  lemma MulMono(a: int, b: int, c: int)
    requires c >= 0
    ensures a >= b ==> a * c >= b * c
  {
    MulDist(a, b, c);
    if a > b {
      MulGe(a - b, c);
    }
  }

  lemma SubsetCard<T>(a: set<T>, b: set<T>)
    requires a <= b
    ensures |a| <= |b|
    ensures a < b ==> |a| < |b|
  {
    assert b == a + (b - a);
    assert a * (b - a) == {};
    if a < b {
      var x :| x in b && x !in a;
      assert x in b - a;
    }
  }
}

/** The box images of both engines, in the order of the bitmap strip. */
module Images {

  datatype MineImage =
    | MinePress
    | One | Two | Three | Four | Five | Six | Seven | Eight
    | Box | Flag | Question | Explode | Wrong | Mine | QuestionPress

  /** Position of an image in the strip; the numbers 1..8 sit at 1..8. */
  function ImageIndex(m: MineImage): (i: nat)
    ensures i < 16
  {
    match m
    case MinePress => 0
    case One => 1
    case Two => 2
    case Three => 3
    case Four => 4
    case Five => 5
    case Six => 6
    case Seven => 7
    case Eight => 8
    case Box => 9
    case Flag => 10
    case Question => 11
    case Explode => 12
    case Wrong => 13
    case Mine => 14
    case QuestionPress => 15
  }

  /** The image at a strip position: the cast from an integer to the image enumeration. */
  function ImageAt(i: nat): (m: MineImage)
    requires i < 16
    ensures ImageIndex(m) == i
  {
    [MinePress, One, Two, Three, Four, Five, Six, Seven, Eight,
     Box, Flag, Question, Explode, Wrong, Mine, QuestionPress][i]
  }

  lemma ImageIndexRoundTrip(m: MineImage)
    ensures ImageAt(ImageIndex(m)) == m
  {
  }

  /** The image of an opened box that has n mines in its block: 0 is the pressed (empty) image. */
  function NumberImage(n: nat): (m: MineImage)
    requires n <= 8
    ensures ImageIndex(m) == n
    ensures m != Box && m != Flag && m != Mine
  {
    ImageAt(n)
  }
}
