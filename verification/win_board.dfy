/**
 * The Win32 rules engine (winmine): the board state and the grid reset of
 * `Board::Create`.
 *
 * The minefield is a 1-based grid of cols x rows boxes surrounded by a border
 * of sentinel boxes that are never mines and never opened, so the 3x3 loops
 * need no edge checks. The fixed-size array is modelled as a map over the
 * padded positions 0..cols+1 x 0..rows+1 that the reset covers.
 */
module WinBoard {
  import opened Common

  /** The 4-bit `numMines` field of a box. */
  type Nibble = x: int | 0 <= x < 16

  /** One box of the grid; the pressed-highlight bit is presentation state and is left out. */
  datatype Cell = Cell(isMine: bool, flag: FlagType, numMines: Nibble)

  /** A grid position (column, row). */
  type Pos = (int, int)

  /**
   * The game state of `Board`: size, counters and the grid. The unsigned
   * counters are integers here; the validity invariant keeps them non-negative.
   */
  datatype Game = Game(
    cols: int,
    rows: int,
    mines: int,
    boxesLeft: int,
    numFlags: int,
    time: int,
    status: GameStatus,
    difficulty: Difficulty,
    markQuestion: bool,
    grid: map<Pos, Cell>)

  const EmptyCell := Cell(false, Normal, 0)

  /** The size fits the box array: at most MAX_COLS x MAX_ROWS inner boxes. */
  predicate Fits(cols: int, rows: int)
  {
    1 <= cols <= MaxCols && 1 <= rows <= MaxRows
  }

  /** Positions of the padded grid, border included. */
  predicate InPad(cols: int, rows: int, p: Pos)
  {
    0 <= p.0 <= cols + 1 && 0 <= p.1 <= rows + 1
  }

  /** Positions of the playing field proper, 1..cols x 1..rows. */
  predicate Interior(cols: int, rows: int, p: Pos)
  {
    1 <= p.0 <= cols && 1 <= p.1 <= rows
  }

  function PadCells(cols: int, rows: int): (s: set<Pos>)
    ensures forall p :: p in s <==> InPad(cols, rows, p)
  {
    set c, r | 0 <= c <= cols + 1 && 0 <= r <= rows + 1 :: (c, r)
  }

  /** The grid covers exactly the padded positions. */
  ghost predicate GridShape(grid: map<Pos, Cell>, cols: int, rows: int)
  {
    Fits(cols, rows) && forall p :: p in grid <==> InPad(cols, rows, p)
  }

  ghost predicate Shape(g: Game)
  {
    GridShape(g.grid, g.cols, g.rows)
  }

  /** The border sentinels are unmarked, mine-free boxes with count 0. */
  predicate BorderClear(grid: map<Pos, Cell>, cols: int, rows: int)
  {
    forall p :: p in grid && !Interior(cols, rows, p) ==> grid[p] == EmptyCell
  }

  lemma InteriorInPad(cols: int, rows: int, p: Pos)
    requires Interior(cols, rows, p)
    ensures InPad(cols, rows, p)
  {
  }

  /** Every box of the 3x3 block around an inner box lies in the padded grid. */
  lemma BlockInPad(cols: int, rows: int, x: int, y: int, n: int)
    requires Interior(cols, rows, (x, y)) && 0 <= n < 9
    ensures InPad(cols, rows, (x + BlockOffsets[n].0, y + BlockOffsets[n].1))
  {
  }

  // Sets of positions the properties talk about.

  ghost function Mines(grid: map<Pos, Cell>): set<Pos>
  {
    set p | p in grid && grid[p].isMine
  }

  ghost function Flags(grid: map<Pos, Cell>): set<Pos>
  {
    set p | p in grid && grid[p].flag == Flag
  }

  /** Inner boxes not yet opened. */
  ghost function Closed(grid: map<Pos, Cell>, cols: int, rows: int): set<Pos>
  {
    set p | p in grid && Interior(cols, rows, p) && grid[p].flag != Complete
  }

  /** Inner safe boxes not yet opened: the ones still needed for a win. */
  ghost function SafeClosed(grid: map<Pos, Cell>, cols: int, rows: int): set<Pos>
  {
    set p | p in grid && Interior(cols, rows, p) && !grid[p].isMine && grid[p].flag != Complete
  }

  /** Number of inner boxes. */
  function Area(cols: int, rows: int): int
  {
    cols * rows
  }

  /**
   * The grid-reset part of `Create`: every box of the padded grid becomes an
   * empty, unmarked box; the countdown is the number of safe boxes, no flag
   * is placed, the game waits for its first click and the clock is at 0.
   */
  function Create(g: Game): (r: Game)
    requires Fits(g.cols, g.rows)
    ensures Shape(r) && BorderClear(r.grid, r.cols, r.rows)
    ensures forall p :: p in r.grid ==> r.grid[p] == EmptyCell
    ensures Mines(r.grid) == {} && Flags(r.grid) == {}
    ensures r.boxesLeft == g.cols * g.rows - g.mines
    ensures r.numFlags == 0 && r.status == Waiting && r.time == 0
    ensures r.cols == g.cols && r.rows == g.rows && r.mines == g.mines
    ensures r.difficulty == g.difficulty && r.markQuestion == g.markQuestion
  {
    var grid := map p | p in PadCells(g.cols, g.rows) :: EmptyCell;
    g.(boxesLeft := g.cols * g.rows - g.mines, numFlags := 0, grid := grid, status := Waiting, time := 0)
  }

  /** Resetting twice is resetting once: `Create` depends only on the level. */
  lemma CreateIsIdempotent(g: Game)
    requires Fits(g.cols, g.rows)
    ensures Create(Create(g)) == Create(g)
  {
  }
}
