/**
 * The managed rules engine (MinesweeperCore): the board record, the
 * row-major box list with its bounds-checked indexer, and the three ways of
 * starting a new game.
 *
 * A box is identified by its position in the box list, which is what the
 * engine's `SelectedBox` reference points at.
 */
module CoreBoard {
  import opened Common
  import Images

  datatype Box = Box(column: int, row: int, flag: FlagType, isMine: bool, minesAround: int)

  datatype Board = Board(
    cols: int,
    rows: int,
    mines: int,
    boxesLeft: int,
    time: int,
    numFlags: int,
    difficulty: Difficulty,
    status: GameStatus,
    boxes: seq<Box>,
    selected: Option<nat>,
    markQuestion: bool)

  /** What the engine tells its presentation collaborators (boxes, counter, timer, win callback). */
  datatype Note =
    | BoxShows(index: nat, image: Images.MineImage)
    | CounterShows(value: int)
    | TimerShows(value: int)
    | TimerStarted
    | TimerStopped
    | WinCalled

  /** The board after an operation and what it told the presentation, in order. */
  datatype Step = Step(board: Board, notes: seq<Note>)

  /** Number of boxes the reset loops create: none when either dimension is not positive. */
  function Area(cols: int, rows: int): nat
  {
    if cols > 0 && rows > 0 then cols * rows else 0
  }

  predicate InGrid(cols: int, rows: int, x: int, y: int)
  {
    0 <= x < cols && 0 <= y < rows
  }

  /** The boxes are laid out row by row: box k sits at column k % cols of row k / cols. */
  predicate GridLayout(boxes: seq<Box>, cols: int, rows: int)
  {
    && |boxes| == Area(cols, rows)
    && forall k :: 0 <= k < |boxes| ==>
        && InGrid(cols, rows, boxes[k].column, boxes[k].row)
        && boxes[k].row * cols + boxes[k].column == k
  }

  predicate Layout(b: Board)
  {
    GridLayout(b.boxes, b.cols, b.rows)
  }

  lemma MulBound(x: int, y: int, cols: int, rows: int)
    requires InGrid(cols, rows, x, y)
    ensures 0 <= y * cols + x < cols * rows
  {
    MulMono(rows, y + 1, cols);
    MulDist(y + 1, y, cols);
  }

  /** Row-major positions are unique: equal indices mean equal coordinates. */
  lemma RowMajorUnique(cols: int, x1: int, y1: int, x2: int, y2: int)
    requires 0 <= x1 < cols && 0 <= x2 < cols
    requires y1 * cols + x1 == y2 * cols + x2
    ensures x1 == x2 && y1 == y2
  {
    MulMono(y1, y2 + 1, cols);
    MulMono(y2, y1 + 1, cols);
    MulDist(y2 + 1, y2, cols);
    MulDist(y1 + 1, y1, cols);
  }

  lemma DivBound(k: int, cols: int, rows: int)
    requires cols > 0 && 0 <= k < cols * rows
    ensures InGrid(cols, rows, k % cols, k / cols)
    ensures (k / cols) * cols + k % cols == k
  {
    MulMono(k / cols, rows, cols);
  }

  /** The list position the indexer computes for an in-grid coordinate. */
  function Idx(cols: int, rows: int, x: int, y: int): (k: nat)
    requires InGrid(cols, rows, x, y)
    ensures k < Area(cols, rows)
  {
    IdxIsRowMajor(cols, rows, x, y);
    y % rows * cols + x % cols
  }

  lemma IdxIsRowMajor(cols: int, rows: int, x: int, y: int)
    requires InGrid(cols, rows, x, y)
    ensures y % rows * cols + x % cols == y * cols + x < Area(cols, rows)
  {
    MulBound(x, y, cols, rows);
    ModSmall(y, rows);
    ModSmall(x, cols);
  }

  lemma ModSmall(a: int, n: int)
    requires 0 <= a < n
    ensures a % n == a
  {
  }

  /** Under the layout, the box at an in-grid coordinate carries that coordinate. */
  lemma IdxFinds(boxes: seq<Box>, cols: int, rows: int, x: int, y: int)
    requires GridLayout(boxes, cols, rows)
    requires InGrid(cols, rows, x, y)
    ensures Idx(cols, rows, x, y) < |boxes|
    ensures boxes[Idx(cols, rows, x, y)].column == x
    ensures boxes[Idx(cols, rows, x, y)].row == y
  {
    var k := Idx(cols, rows, x, y);
    IdxIsRowMajor(cols, rows, x, y);
    RowMajorUnique(cols, boxes[k].column, boxes[k].row, x, y);
  }

  /** Under the layout, every box is found again at its own coordinate. */
  lemma IdxOfBox(boxes: seq<Box>, cols: int, rows: int, k: int)
    requires GridLayout(boxes, cols, rows)
    requires 0 <= k < |boxes|
    ensures InGrid(cols, rows, boxes[k].column, boxes[k].row)
    ensures Idx(cols, rows, boxes[k].column, boxes[k].row) == k
  {
    IdxIsRowMajor(cols, rows, boxes[k].column, boxes[k].row);
  }

  /**
   * The indexer `this[col, row]`: the position of the box at that coordinate,
   * or nothing when the coordinate is off the board.
   */
  function At(b: Board, col: int, row: int): (r: Option<nat>)
    ensures r.Some? <==> InGrid(b.cols, b.rows, col, row)
    ensures r.Some? && Layout(b) ==>
      r.value < |b.boxes| && b.boxes[r.value].column == col && b.boxes[r.value].row == row
  {
    if col < 0 || row < 0 || col >= b.cols || row >= b.rows then None
    else
      if Layout(b) then IdxFinds(b.boxes, b.cols, b.rows, col, row); Some(Idx(b.cols, b.rows, col, row))
      else Some(Idx(b.cols, b.rows, col, row))
  }

  // Sets of box positions the properties talk about.

  ghost function Mines(boxes: seq<Box>): set<nat>
  {
    set k | 0 <= k < |boxes| && boxes[k].isMine
  }

  ghost function Flags(boxes: seq<Box>): set<nat>
  {
    set k | 0 <= k < |boxes| && boxes[k].flag == Flag
  }

  /** Boxes not yet opened. */
  ghost function Closed(boxes: seq<Box>): set<nat>
  {
    set k | 0 <= k < |boxes| && boxes[k].flag != Complete
  }

  /** Safe boxes not yet opened: the ones still needed for a win. */
  ghost function SafeClosed(boxes: seq<Box>): set<nat>
  {
    set k | 0 <= k < |boxes| && !boxes[k].isMine && boxes[k].flag != Complete
  }

  lemma ClosedBound(boxes: seq<Box>)
    ensures |Closed(boxes)| <= |boxes|
  {
    if |boxes| > 0 {
      var rest := boxes[..|boxes| - 1];
      ClosedBound(rest);
      assert Closed(boxes) <= Closed(rest) + {|boxes| - 1};
      SubsetCard(Closed(boxes), Closed(rest) + {|boxes| - 1});
    }
  }

  /** A fresh box list: every box unmarked, no mine, count 0, in row-major order. */
  function FreshBoxes(cols: int, rows: int): (boxes: seq<Box>)
    ensures GridLayout(boxes, cols, rows)
    ensures forall k :: 0 <= k < |boxes| ==>
      boxes[k].flag == Normal && !boxes[k].isMine && boxes[k].minesAround == 0
  {
    var n := Area(cols, rows);
    var boxes := seq(n, k requires 0 <= k < n => Box(k % cols, k / cols, Normal, false, 0));
    forall k | 0 <= k < n
      ensures InGrid(cols, rows, boxes[k].column, boxes[k].row)
      ensures boxes[k].row * cols + boxes[k].column == k
    {
      DivBound(k, cols, rows);
    }
    boxes
  }

  /** The notes the reset emits: every box drawn unopened, then timer 0 and the mine counter. */
  function FreshNotes(n: nat, mines: int): (notes: seq<Note>)
    ensures |notes| == n + 2
    ensures forall k :: 0 <= k < n ==> notes[k] == BoxShows(k, Images.Box)
    ensures notes[n] == TimerShows(0) && notes[n + 1] == CounterShows(mines)
  {
    seq(n, k requires 0 <= k < n => BoxShows(k, Images.Box)) + [TimerShows(0), CounterShows(mines)]
  }

  /**
   * `Build`: reset the board to its state before the first click, keeping
   * the level. The source leaves `SelectedBox` pointing into the old list;
   * here the reset drops the selection, which is what the rest of the
   * handlers assume (`CoreStale` models the code as written).
   */
  function Build(b: Board): (s: Step)
    ensures var r := s.board;
      && Layout(r)
      && r.cols == b.cols && r.rows == b.rows && r.mines == b.mines
      && r.difficulty == b.difficulty && r.markQuestion == b.markQuestion
      && r.status == Waiting && r.time == 0 && r.numFlags == 0
      && r.boxesLeft == b.cols * b.rows - b.mines
      && r.selected == None
      && Mines(r.boxes) == {} && Flags(r.boxes) == {}
      && (forall k :: 0 <= k < |r.boxes| ==>
            r.boxes[k].flag == Normal && !r.boxes[k].isMine && r.boxes[k].minesAround == 0)
      && s.notes == FreshNotes(|r.boxes|, b.mines)
  {
    var boxes := FreshBoxes(b.cols, b.rows);
    var r := b.(status := Waiting, time := 0, numFlags := 0,
                boxesLeft := b.cols * b.rows - b.mines, boxes := boxes, selected := None);
    Step(r, FreshNotes(|boxes|, b.mines))
  }

  /** `NewGame(difficulty)`: one of the fixed levels. */
  function NewGame(b: Board, d: Difficulty): (s: Step)
    requires d != Custom
    ensures var r := s.board;
      && r.difficulty == d
      && Level(r.cols, r.rows, r.mines) == Preset(d)
      && r.status == Waiting
      && r.boxesLeft == r.cols * r.rows - r.mines
      && |r.boxes| == r.cols * r.rows
  {
    var l := Preset(d);
    Build(b.(difficulty := d, cols := l.cols, rows := l.rows, mines := l.mines))
  }

  /** `NewGame(cols, rows, mines)`: a custom level, stored as given (this overload does not clamp). */
  function NewCustomGame(b: Board, cols: int, rows: int, mines: int): (s: Step)
    ensures var r := s.board;
      && r.difficulty == Custom
      && r.cols == cols && r.rows == rows && r.mines == mines
      && r.status == Waiting
      && r.boxesLeft == cols * rows - mines
      && |r.boxes| == Area(cols, rows)
  {
    Build(b.(difficulty := Custom, cols := cols, rows := rows, mines := mines))
  }

  /** `NewGame()`: start again with the current difficulty (and, for Custom, the current size). */
  function Restart(b: Board): (s: Step)
    ensures s.board.difficulty == b.difficulty
    ensures b.difficulty == Custom ==>
      s.board.cols == b.cols && s.board.rows == b.rows && s.board.mines == b.mines
    ensures b.difficulty != Custom ==> Level(s.board.cols, s.board.rows, s.board.mines) == Preset(b.difficulty)
    ensures s.board.status == Waiting && s.board.time == 0
  {
    if b.difficulty != Custom then NewGame(b, b.difficulty) else NewCustomGame(b, b.cols, b.rows, b.mines)
  }

  /** Restarting a fresh game gives the same board again. */
  lemma RestartIsIdempotent(b: Board)
    ensures Restart(Restart(b).board) == Restart(b)
  {
  }
}
