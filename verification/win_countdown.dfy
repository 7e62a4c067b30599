/**
 * The safe-box countdown of the Win32 engine. `Create` sets `boxesLeft` to
 * the number of safe boxes before any mine exists; the first left release
 * places the mines, and from then on every opening of a safe box decrements
 * the counter. `Test` declares the game won when the counter reaches 0.
 *
 * `Countdown` is the invariant that ties the counter to the grid: while
 * waiting, the grid is still fresh and the counter is the area minus the
 * mines; while playing, the counter is exactly the number of closed safe
 * boxes; after a loss it is at least that number; a won game has no closed
 * safe box. `Create` establishes it and `Test` keeps it, so "won" always
 * means every safe box is open.
 */
module WinCountdown {
  import opened Common
  import opened WinBoard
  import opened WinMines
  import opened WinReveal
  import opened WinGame
  import opened Levels

  // Counting the inner boxes.

  /** Inner boxes of the grid, opened or not. */
  ghost function InnerBoxes(grid: map<Pos, Cell>, cols: int, rows: int): set<Pos>
  {
    set p | p in grid && Interior(cols, rows, p)
  }

  /** Row y of the field, columns 1..cols. */
  function Row(cols: int, y: int): set<Pos>
  {
    set c | 1 <= c <= cols :: (c, y)
  }

  /** Rows 1..rows of the field. */
  function Rect(cols: int, rows: int): set<Pos>
  {
    set c, r | 1 <= c <= cols && 1 <= r <= rows :: (c, r)
  }

  lemma {:induction false} RowCard(cols: nat, y: int)
    ensures |Row(cols, y)| == cols
    decreases cols
  {
    if cols == 0 {
      assert Row(cols, y) == {};
    } else {
      RowCard(cols - 1, y);
      assert Row(cols, y) == Row(cols - 1, y) + {(cols, y)};
    }
  }

  lemma {:induction false} RectCard(cols: nat, rows: nat)
    ensures |Rect(cols, rows)| == cols * rows
    decreases rows
  {
    if rows == 0 {
      assert Rect(cols, rows) == {};
    } else {
      RectCard(cols, rows - 1);
      RowCard(cols, rows);
      assert Rect(cols, rows) == Rect(cols, rows - 1) + Row(cols, rows);
      assert Rect(cols, rows - 1) * Row(cols, rows) == {};
      assert cols * rows == cols * (rows - 1) + cols;
    }
  }

  /** A grid of the right shape has exactly cols x rows inner boxes. */
  lemma InnerCard(grid: map<Pos, Cell>, cols: int, rows: int)
    requires GridShape(grid, cols, rows)
    ensures |InnerBoxes(grid, cols, rows)| == cols * rows
  {
    assert InnerBoxes(grid, cols, rows) == Rect(cols, rows);
    RectCard(cols, rows);
  }

  // The invariant.

  /** No inner box has been opened. */
  ghost predicate NoneOpened(grid: map<Pos, Cell>, cols: int, rows: int)
  {
    forall p :: p in grid && Interior(cols, rows, p) ==> grid[p].flag != Complete
  }

  ghost predicate Countdown(g: Game)
  {
    && Shape(g)
    && 0 <= g.mines < g.cols * g.rows
    && match g.status
       case Waiting =>
         Fresh(g.grid) && NoneOpened(g.grid, g.cols, g.rows) && g.boxesLeft == g.cols * g.rows - g.mines
       case Playing => g.boxesLeft == |SafeClosed(g.grid, g.cols, g.rows)|
       case GameOver => g.boxesLeft >= |SafeClosed(g.grid, g.cols, g.rows)|
       case Won => g.boxesLeft == 0 && SafeClosed(g.grid, g.cols, g.rows) == {}
  }

  /** A reset board satisfies the invariant, for any mine count below the area. */
  lemma CreateCountdown(g: Game)
    requires Fits(g.cols, g.rows) && 0 <= g.mines < g.cols * g.rows
    ensures Countdown(Create(g))
  {
  }

  /** A size that went through `CheckLevel` always leaves a safe box, so a reset on it starts the invariant. */
  lemma CheckedCreateCountdown(g: Game, l: Level)
    requires Unsigned(l)
    requires var c := CheckLevel(l); g.cols == c.cols && g.rows == c.rows && g.mines == c.mines
    ensures Countdown(Create(g))
  {
    CreateCountdown(g);
  }

  /**
   * The first opening places exactly `mines` inner mines away from the
   * clicked box on a grid with nothing opened, so the closed safe boxes are
   * the area minus the mines: the counter `Create` set.
   */
  lemma FirstOpenCountdown(g: Game, p: Pos, draws: seq<Draw>)
    requires Countdown(g) && g.status == Waiting && Interior(g.cols, g.rows, p) && g.grid[p].flag != Flag
    requires EnoughDraws(g.(status := Playing), p, draws)
    ensures FirstOpen(g, p, draws).status == Playing
    ensures Countdown(FirstOpen(g, p, draws))
  {
    var g1 := g.(status := Playing);
    var r := FirstOpen(g, p, draws);
    assert r == PlaceMines(g1, p, draws);
    FreshPlacementMines(g1, p, draws);
    var inner := InnerBoxes(r.grid, g.cols, g.rows);
    InnerCard(r.grid, g.cols, g.rows);
    assert Mines(r.grid) <= inner;
    assert SafeClosed(r.grid, g.cols, g.rows) == inner - Mines(r.grid);
    CardDiff(inner, Mines(r.grid));
  }

  /** Opening boxes removes from the closed safe boxes exactly the safe ones opened. */
  lemma OpeningCountsSafe(a: map<Pos, Cell>, b: map<Pos, Cell>, cols: int, rows: int)
    requires Opens(a, b, cols, rows)
    ensures Mines(b) == Mines(a)
    ensures SafeClosed(b, cols, rows) == SafeClosed(a, cols, rows) - (Opened(a, b) - Mines(a))
    ensures |SafeClosed(b, cols, rows)| == |SafeClosed(a, cols, rows)| - |Opened(a, b) - Mines(a)|
  {
    var gone := Opened(a, b) - Mines(a);
    var before := SafeClosed(a, cols, rows);
    forall q | q in gone ensures q in before {
      assert b[q] != a[q];
    }
    assert SafeClosed(b, cols, rows) == before - gone;
    CardDiff(before, gone);
  }

  /**
   * Any reveal keeps the invariant: opening safe boxes while playing lowers
   * the counter by their number, and an opened mine ends the game with the
   * counter lowered by at most the safe boxes opened.
   */
  lemma RevealCountdown(g: Game, r: Game)
    requires Countdown(g) && (g.status == Playing || g.status == GameOver)
    requires Shape(r) && r.cols == g.cols && r.rows == g.rows && r.mines == g.mines
    requires Opens(g.grid, r.grid, g.cols, g.rows) && Outcome(g, r)
    ensures Countdown(r)
  {
    var gone := Opened(g.grid, r.grid);
    OpeningCountsSafe(g.grid, r.grid, g.cols, g.rows);
    if r.status != GameOver {
      MissesNothing(gone, Mines(g.grid));
      assert r.boxesLeft == |SafeClosed(r.grid, g.cols, g.rows)|;
    } else {
      assert r.boxesLeft >= |SafeClosed(r.grid, g.cols, g.rows)|;
    }
  }

  /** Taking away a set it does not meet leaves a set as it is. */
  lemma MissesNothing<T>(a: set<T>, m: set<T>)
    requires a * m == {}
    ensures a - m == a
  {
    forall x | x in a ensures x !in m {
      assert x !in a * m;
    }
  }

  /** Marks never open or close a box, so they leave the invariant alone. */
  lemma AddFlagCountdown(g: Game, p: Pos)
    requires Countdown(g) && p in g.grid
    ensures Countdown(AddFlag(g, p))
  {
    var r := AddFlag(g, p);
    assert SafeClosed(r.grid, g.cols, g.rows) == SafeClosed(g.grid, g.cols, g.rows);
  }

  /**
   * Every action on an inner box keeps the invariant while waiting or
   * playing, provided the first opening finds enough draws to place the
   * mines.
   */
  lemma TestMinesCountdown(g: Game, p: Pos, msg: Msg, draws: seq<Draw>)
    requires Countdown(g) && (g.status == Waiting || g.status == Playing) && Interior(g.cols, g.rows, p)
    requires g.status == Waiting && msg == LeftUp && g.grid[p].flag != Flag ==> EnoughDraws(g.(status := Playing), p, draws)
    ensures Countdown(TestMines(g, p, msg, draws))
  {
    InteriorInPad(g.cols, g.rows, p);
    match msg
    case LeftUp =>
      var g1 := FirstOpen(g, p, draws);
      if g.status == Waiting && g.grid[p].flag != Flag {
        FirstOpenCountdown(g, p, draws);
      }
      if g1.status == Playing {
        RevealCountdown(g1, CompleteBox(g1, p));
      }
    case MiddleUp =>
      if g.status == Playing {
        RevealCountdown(g, Chord(g, p));
      }
    case RightDown => AddFlagCountdown(g, p);
    case _ =>
  }

  /** Flagging the remaining mines opens and closes nothing. */
  lemma FlagMinesKeepsSafe(grid: map<Pos, Cell>, cols: int, rows: int)
    ensures SafeClosed(FlagMines(grid, cols, rows), cols, rows) == SafeClosed(grid, cols, rows)
  {
    var r := FlagMines(grid, cols, rows);
    forall q | q in grid ensures (q in SafeClosed(r, cols, rows)) == (q in SafeClosed(grid, cols, rows)) {
    }
  }

  /** The audit keeps the invariant: a counter at 0 means no safe box is closed. */
  lemma WinAuditCountdown(g: Game)
    requires Countdown(g)
    ensures Countdown(WinAudit(g))
  {
    if g.boxesLeft == 0 {
      FlagMinesKeepsSafe(g.grid, g.cols, g.rows);
      assert SafeClosed(g.grid, g.cols, g.rows) == {};
    }
  }

  /**
   * `Test` keeps the invariant, also when a release on the face button
   * resets the game, and so a won game has every safe box open, while a
   * game still being played has a safe box left to open.
   */
  lemma TestCountdown(g: Game, x: int, y: int, msg: Msg, draws: seq<Draw>)
    requires Countdown(g)
    requires g.status == Waiting && msg == LeftUp && InField(g, x, y)
             && BoxAt(x, y) in g.grid && g.grid[BoxAt(x, y)].flag != Flag
             ==> EnoughDraws(g.(status := Playing), BoxAt(x, y), draws)
    ensures var r := Test(g, x, y, msg, draws);
      && Countdown(r)
      && (r.status == Won ==> SafeClosed(r.grid, r.cols, r.rows) == {})
      && (r.status == Playing ==> SafeClosed(r.grid, r.cols, r.rows) != {})
  {
    var g1 :=
      if InField(g, x, y) && g.status != GameOver && g.status != Won then
        TestMines(g, BoxAt(x, y), msg, draws)
      else g;
    if InField(g, x, y) && g.status != GameOver && g.status != Won {
      BoxAtInField(g, x, y);
      TestMinesCountdown(g, BoxAt(x, y), msg, draws);
    }
    WinAuditCountdown(g1);
    if msg == LeftUp && InFace(g, x, y) {
      CreateCountdown(WinAudit(g1));
    }
  }
}
