/**
 * Input handling of the Win32 engine: the right-click marks (`AddFlag`), the
 * mouse dispatch on the minefield (`TestMines`) with the first-click mine
 * placement, and `Test`, which ignores the minefield once the game is over or
 * won and then audits for a win.
 */
module WinGame {
  import opened Common
  import opened WinBoard
  import opened WinBlock
  import opened WinMines
  import opened WinReveal

  // The minefield's place in the window (board.h), in pixels.
  const BoardWMargin := 5
  const BoardHMargin := 5
  const LedHeight := 23
  const MineWidth := 16
  const MineHeight := 16
  const FaceWidth := 24
  const FaceHeight := 24

  /** Left and top edge of the minefield rectangle that `Create` sets. */
  const FieldLeft := BoardWMargin
  const FieldTop := BoardHMargin * 2 + LedHeight

  /**
   * `PtInRect(&faceRect, pt)`: the point lies on the face button, which
   * `Create` centres on the window width above the counters' row.
   */
  predicate InFace(g: Game, x: int, y: int)
  {
    var width := g.cols * MineWidth + BoardWMargin * 2;
    var left := width / 2 - FaceWidth / 2;
    left <= x < left + FaceWidth && BoardHMargin <= y < BoardHMargin + FaceHeight
  }

  /** The face button lies above the minefield, so no point is on both. */
  lemma FaceIsOffField(g: Game, x: int, y: int)
    requires InFace(g, x, y)
    ensures !InField(g, x, y)
  {
  }

  /** The mouse messages the minefield reacts to. */
  datatype Msg = LeftDown | LeftUp | MiddleDown | MiddleUp | RightDown | OtherMsg

  /**
   * `AddFlag(col, row)`: an opened box keeps its state; a flag becomes a
   * question mark when question marks are on (an unmarked box otherwise) and
   * gives back a flag; a question mark becomes unmarked; an unmarked box is
   * flagged and takes a flag.
   */
  function AddFlag(g: Game, p: Pos): (r: Game)
    requires p in g.grid
    ensures r.grid == g.grid[p := g.grid[p].(flag := NextMark(g.grid[p].flag, g.markQuestion))]
    ensures r.numFlags == g.numFlags + MarkDelta(g.grid[p].flag)
    ensures r == g.(grid := r.grid, numFlags := r.numFlags)
  {
    var cell := g.grid[p];
    if cell.flag != Complete then
      match cell.flag
      case Flag =>
        var back := if g.markQuestion then Question else Normal;
        g.(grid := g.grid[p := cell.(flag := back)], numFlags := g.numFlags - 1)
      case Question => g.(grid := g.grid[p := cell.(flag := Normal)])
      case _ => g.(grid := g.grid[p := cell.(flag := Flag)], numFlags := g.numFlags + 1)
    else g
  }

  /** The flag counter moves with the flags on the grid: their difference is unchanged. */
  lemma AddFlagTracksFlags(g: Game, p: Pos)
    requires p in g.grid
    ensures var r := AddFlag(g, p);
      r.numFlags - |Flags(r.grid)| == g.numFlags - |Flags(g.grid)|
  {
    var r := AddFlag(g, p);
    var f := g.grid[p].flag;
    MarkDeltaTracksFlags(f, g.markQuestion);
    if f == Flag {
      assert Flags(g.grid) == Flags(r.grid) + {p};
    } else if NextMark(f, g.markQuestion) == Flag {
      assert Flags(r.grid) == Flags(g.grid) + {p};
    } else {
      assert Flags(r.grid) == Flags(g.grid);
    }
  }

  /** Right-clicking an unmarked box three times (two without question marks) restores the game. */
  lemma AddFlagCycle(g: Game, p: Pos)
    requires p in g.grid && g.grid[p].flag == Normal
    ensures g.markQuestion ==> AddFlag(AddFlag(AddFlag(g, p), p), p) == g
    ensures !g.markQuestion ==> AddFlag(AddFlag(g, p), p) == g
  {
    var g1 := AddFlag(g, p);
    var g2 := AddFlag(g1, p);
    if g.markQuestion {
      var g3 := AddFlag(g2, p);
      assert g3.grid == g.grid;
    } else {
      assert g2.grid == g.grid;
    }
  }

  /** `PtInRect(&minesRect, pt)`: the point lies in the minefield (right and bottom edges excluded). */
  predicate InField(g: Game, x: int, y: int)
  {
    FieldLeft <= x < FieldLeft + g.cols * MineWidth && FieldTop <= y < FieldTop + g.rows * MineHeight
  }

  /**
   * The box under a point, as `TestMines` computes it: the offsets from the
   * minefield's corner divided by the box size. Only points right of and
   * below that corner reach it, so the division is on non-negative numbers.
   */
  function BoxAt(x: int, y: int): (p: Pos)
    requires x >= FieldLeft && y >= FieldTop
    ensures p.0 >= 1 && p.1 >= 1
    ensures BoxOrigin(p).0 <= x < BoxOrigin(p).0 + MineWidth
    ensures BoxOrigin(p).1 <= y < BoxOrigin(p).1 + MineHeight
  {
    ((x - FieldLeft) / MineWidth + 1, (y - FieldTop) / MineHeight + 1)
  }

  /** The top-left pixel `DrawMine` draws a box at. */
  function BoxOrigin(p: Pos): (o: (int, int))
  {
    ((p.0 - 1) * MineWidth + FieldLeft, (p.1 - 1) * MineHeight + FieldTop)
  }

  /** A point of the minefield always hits an inner box. */
  lemma BoxAtInField(g: Game, x: int, y: int)
    requires InField(g, x, y)
    ensures Interior(g.cols, g.rows, BoxAt(x, y))
  {
    var p := BoxAt(x, y);
    assert (p.0 - 1) * MineWidth <= x - FieldLeft;
    assert (p.1 - 1) * MineHeight <= y - FieldTop;
  }

  /** Every pixel of the square a box is drawn in maps back to that box. */
  lemma BoxAtOrigin(p: Pos, dx: int, dy: int)
    requires 0 <= dx < MineWidth && 0 <= dy < MineHeight && p.0 >= 1 && p.1 >= 1
    ensures BoxAt(BoxOrigin(p).0 + dx, BoxOrigin(p).1 + dy) == p
  {
    SquareIndex(p.0 - 1, dx);
    SquareIndex(p.1 - 1, dy);
  }

  /** A box offset times the box size, plus less than the box size, divides back to that offset. */
  lemma SquareIndex(k: int, d: int)
    requires k >= 0 && 0 <= d < 16
    ensures (k * 16 + d) / 16 == k
  {
  }

  /**
   * `TestMines` on inner box p. A left release opens the box; on the first
   * opening of a game (not yet playing, box not flagged) the game starts and
   * the mines are placed away from it first. A middle release chords, a right
   * press cycles the mark; the presses only move the pressed highlight.
   */
  function TestMines(g: Game, p: Pos, msg: Msg, draws: seq<Draw>): (r: Game)
    requires Shape(g) && Interior(g.cols, g.rows, p)
    ensures Shape(r) && r.cols == g.cols && r.rows == g.rows && r.mines == g.mines
    ensures msg in {LeftDown, MiddleDown, OtherMsg} ==> r == g
  {
    InteriorInPad(g.cols, g.rows, p);
    match msg
    case LeftUp => CompleteBox(FirstOpen(g, p, draws), p)
    case MiddleUp => Chord(g, p)
    case RightDown => AddFlag(g, p)
    case _ => g
  }

  /**
   * Before a left release opens box p: the first opening of a game (not yet
   * playing, box not flagged) starts it and places the mines away from p.
   */
  function FirstOpen(g: Game, p: Pos, draws: seq<Draw>): (r: Game)
    requires Shape(g) && p in g.grid
    ensures Shape(r) && r.cols == g.cols && r.rows == g.rows && r.mines == g.mines && p in r.grid
    ensures g.grid[p].flag != Flag && g.status != Playing ==> r.status == Playing && p !in Mines(r.grid)
    ensures !(g.grid[p].flag != Flag && g.status != Playing) ==> r == g
    ensures Flags(r.grid) == Flags(g.grid) && r.numFlags == g.numFlags
  {
    if g.grid[p].flag != Flag && g.status != Playing then
      PlacementKeepsFlags(g.(status := Playing), p, draws);
      PlaceMines(g.(status := Playing), p, draws)
    else g
  }

  /**
   * The inner mines of the grid not yet flagged become flags, as the win
   * audit does.
   */
  function FlagMines(grid: map<Pos, Cell>, cols: int, rows: int): (r: map<Pos, Cell>)
    ensures r.Keys == grid.Keys
    ensures Flags(r) == Flags(grid) + InnerMines(grid, cols, rows)
    ensures Mines(r) == Mines(grid)
    ensures forall p :: p in grid ==> r[p].isMine == grid[p].isMine && r[p].numMines == grid[p].numMines
  {
    map p | p in grid :: if Interior(cols, rows, p) && grid[p].isMine && grid[p].flag != Flag then grid[p].(flag := Flag) else grid[p]
  }

  ghost function InnerMines(grid: map<Pos, Cell>, cols: int, rows: int): set<Pos>
  {
    set p | p in grid && Interior(cols, rows, p) && grid[p].isMine
  }

  /**
   * The win block of `Test`: with no safe box left the game is won, and
   * when fewer flags than mines were placed every inner mine is flagged and
   * the flag counter set to the mine count.
   */
  function WinAudit(g: Game): (r: Game)
    ensures g.boxesLeft != 0 ==> r == g
    ensures g.boxesLeft == 0 ==> r.status == Won
    ensures g.boxesLeft == 0 && g.numFlags < g.mines ==>
      r.numFlags == g.mines && Flags(r.grid) == Flags(g.grid) + InnerMines(g.grid, g.cols, g.rows)
    ensures g.numFlags >= g.mines ==> r.grid == g.grid && r.numFlags == g.numFlags
    ensures r == g.(grid := r.grid, status := r.status, numFlags := r.numFlags)
    ensures r.grid.Keys == g.grid.Keys && Mines(r.grid) == Mines(g.grid)
  {
    if g.boxesLeft == 0 then
      var won := g.(status := Won);
      if g.numFlags < g.mines then won.(grid := FlagMines(g.grid, g.cols, g.rows), numFlags := g.mines)
      else won
    else g
  }

  /**
   * `Test(x, y, msg)`: a point on the minefield is handed to `TestMines`
   * unless the game is over or won; then the win audit runs; last,
   * `TestFace` starts a new game (`Create`) when the left button is
   * released over the face button.
   */
  function Test(g: Game, x: int, y: int, msg: Msg, draws: seq<Draw>): (r: Game)
    requires Shape(g)
    ensures Shape(r) && r.cols == g.cols && r.rows == g.rows && r.mines == g.mines
    ensures msg == LeftUp && InFace(g, x, y) ==> r.status == Waiting && r.time == 0 && r.numFlags == 0
    ensures r.boxesLeft == 0 && !(msg == LeftUp && InFace(g, x, y)) ==> r.status == Won
  {
    var g1 :=
      if InField(g, x, y) && g.status != GameOver && g.status != Won then
        BoxAtInField(g, x, y);
        TestMines(g, BoxAt(x, y), msg, draws)
      else g;
    var g2 := WinAudit(g1);
    if msg == LeftUp && InFace(g, x, y) then Create(g2) else g2
  }

  /** The audit changes nothing the second time. */
  lemma WinAuditIsIdempotent(g: Game)
    ensures WinAudit(WinAudit(g)) == WinAudit(g)
  {
  }

  /**
   * Once the game is over or won, input on the board is ignored: only the
   * audit runs, unless the left button is released over the face button,
   * which starts a new game.
   */
  lemma TestLocked(g: Game, x: int, y: int, msg: Msg, draws: seq<Draw>)
    requires Shape(g) && (g.status == GameOver || g.status == Won)
    ensures !(msg == LeftUp && InFace(g, x, y)) ==> Test(g, x, y, msg, draws) == WinAudit(g)
    ensures msg == LeftUp && InFace(g, x, y) ==> Test(g, x, y, msg, draws) == Create(g)
    ensures g.status == Won && g.boxesLeft == 0 && g.numFlags >= g.mines && !(msg == LeftUp && InFace(g, x, y)) ==>
      Test(g, x, y, msg, draws) == g
  {
  }

  /**
   * A point outside the minefield changes nothing but through the audit,
   * unless it is a left release over the face button, which starts a new
   * game.
   */
  lemma TestOutsideField(g: Game, x: int, y: int, msg: Msg, draws: seq<Draw>)
    requires Shape(g) && !InField(g, x, y)
    ensures !(msg == LeftUp && InFace(g, x, y)) ==> Test(g, x, y, msg, draws) == WinAudit(g)
    ensures msg == LeftUp && InFace(g, x, y) ==> Test(g, x, y, msg, draws) == Create(g)
  {
  }

  /**
   * A left release over the face button starts a new game at the same
   * level, whatever state the game was in: the result is the reset of the
   * game before the click.
   */
  lemma TestFaceRestarts(g: Game, x: int, y: int, draws: seq<Draw>)
    requires Shape(g) && InFace(g, x, y)
    ensures Test(g, x, y, LeftUp, draws) == Create(g)
    ensures Create(g).grid.Keys == g.grid.Keys
  {
    FaceIsOffField(g, x, y);
  }

  // Safety of the reveal: with correct counts, a reveal opens no mine but the clicked box.

  /** Every inner box counts the mines of its block. */
  ghost predicate Labelled(g: Game)
  {
    forall q :: q in g.grid && Interior(g.cols, g.rows, q) ==> g.grid[q].numMines == |BlockMines(g.grid, q.0, q.1)|
  }

  /** A box next to an inner box that counts 0 mines is not a mine. */
  lemma EmptyBlockHasNoMine(g: Game, i: Pos, q: Pos)
    requires Labelled(g) && i in g.grid && Interior(g.cols, g.rows, i) && g.grid[i].numMines == 0
    requires q in g.grid && Near(q.0, q.1, i.0, i.1)
    ensures !g.grid[q].isMine
  {
    assert g.grid[q].isMine ==> q in BlockMines(g.grid, i.0, i.1);
  }

  /** Every box a reveal opens besides the clicked one lies next to an opened empty box, so it is safe. */
  lemma RevealOpensNoOtherMine(g: Game, p: Pos)
    requires Shape(g) && p in g.grid && Labelled(g)
    ensures Opened(g.grid, CompleteBox(g, p).grid) * Mines(g.grid) <= {p}
  {
    var r := CompleteBox(g, p);
    forall q | q in Opened(g.grid, r.grid) && q in Mines(g.grid)
      ensures q == p
    {
      if q != p {
        var i :| i in Opened(g.grid, r.grid) && r.grid[i].numMines == 0 && Near(q.0, q.1, i.0, i.1);
        EmptyBlockHasNoMine(g, i, q);
      }
    }
  }

  /**
   * The first click never loses: on a grid without mines, a left release on
   * an unflagged inner box places the mines away from it, and the reveal
   * that follows opens no mine.
   */
  lemma FirstClickIsSafe(g: Game, p: Pos, draws: seq<Draw>)
    requires Shape(g) && Fresh(g.grid) && Interior(g.cols, g.rows, p)
    requires g.status == Waiting && g.grid[p].flag != Flag
    ensures TestMines(g, p, LeftUp, draws).status == Playing
  {
    InteriorInPad(g.cols, g.rows, p);
    PlacementIsLabelled(g.(status := Playing), p, draws);
    SafeReveal(FirstOpen(g, p, draws), p);
  }

  /** With correct counts, revealing a safe box never ends the game. */
  lemma SafeReveal(g: Game, p: Pos)
    requires Shape(g) && p in g.grid && Labelled(g) && p !in Mines(g.grid)
    ensures g.status != GameOver ==> CompleteBox(g, p).status == g.status
  {
    RevealOpensNoOtherMine(g, p);
    assert Opened(g.grid, CompleteBox(g, p).grid) * Mines(g.grid) == {};
  }

  /** Placing the mines on a grid without mines leaves every inner box counting its block. */
  lemma PlacementIsLabelled(g: Game, s: Pos, draws: seq<Draw>)
    requires Shape(g) && s in g.grid && Fresh(g.grid)
    ensures Labelled(PlaceMines(g, s, draws))
  {
    var r := PlaceMines(g, s, draws);
    forall q | q in r.grid && Interior(g.cols, g.rows, q)
      ensures r.grid[q].numMines == |BlockMines(r.grid, q.0, q.1)|
    {
      FreshPlacementLabels(g, s, draws, q);
    }
  }

  /** A reveal never touches a flag. */
  lemma OpensKeepsFlags(a: map<Pos, Cell>, b: map<Pos, Cell>, cols: int, rows: int)
    requires Opens(a, b, cols, rows)
    ensures Flags(a) == Flags(b)
  {
  }

  /** The flag counter keeps matching the flags on the grid through every action on a box. */
  lemma TestMinesTracksFlags(g: Game, p: Pos, msg: Msg, draws: seq<Draw>)
    requires Shape(g) && Interior(g.cols, g.rows, p)
    ensures var r := TestMines(g, p, msg, draws);
      r.numFlags - |Flags(r.grid)| == g.numFlags - |Flags(g.grid)|
  {
    InteriorInPad(g.cols, g.rows, p);
    match msg
    case LeftUp => LeftUpKeepsFlags(g, p, draws);
    case MiddleUp => OpensKeepsFlags(g.grid, Chord(g, p).grid, g.cols, g.rows);
    case RightDown => AddFlagTracksFlags(g, p);
    case _ =>
  }

  lemma LeftUpKeepsFlags(g: Game, p: Pos, draws: seq<Draw>)
    requires Shape(g) && Interior(g.cols, g.rows, p)
    ensures var r := TestMines(g, p, LeftUp, draws);
      r.numFlags == g.numFlags && Flags(r.grid) == Flags(g.grid)
  {
    InteriorInPad(g.cols, g.rows, p);
    var g1 := FirstOpen(g, p, draws);
    OpensKeepsFlags(g1.grid, CompleteBox(g1, p).grid, g.cols, g.rows);
  }

  lemma PlacementKeepsFlags(g: Game, s: Pos, draws: seq<Draw>)
    requires Shape(g) && s in g.grid
    ensures Flags(PlaceMines(g, s, draws).grid) == Flags(g.grid)
  {
  }

  /** Opening only safe boxes moves exactly the opened boxes out of the closed safe boxes. */
  lemma SafeOpening(a: map<Pos, Cell>, b: map<Pos, Cell>, cols: int, rows: int)
    requires Opens(a, b, cols, rows) && Opened(a, b) * Mines(a) == {}
    ensures |SafeClosed(b, cols, rows)| == |SafeClosed(a, cols, rows)| - |Opened(a, b)|
  {
    var gone := Opened(a, b);
    var before := SafeClosed(a, cols, rows);
    var after := SafeClosed(b, cols, rows);
    forall q | q in gone ensures q in before {
      assert q !in gone * Mines(a);
      assert b[q] != a[q];
    }
    forall q | q in after ensures q in before - gone {
    }
    forall q | q in before - gone ensures q in after {
    }
    assert after == before - gone;
    CardDiff(before, gone);
  }

  lemma CardDiff<T>(a: set<T>, s: set<T>)
    requires s <= a
    ensures |a - s| == |a| - |s|
  {
    assert a == (a - s) + s;
    assert (a - s) * s == {};
  }

  /**
   * The countdown counts the closed safe boxes: a reveal that does not end
   * the game keeps `boxesLeft` equal to their number, so it reaches 0 exactly
   * when every safe box is open.
   */
  lemma RevealKeepsCountdown(g: Game, p: Pos)
    requires Shape(g) && p in g.grid && g.boxesLeft == |SafeClosed(g.grid, g.cols, g.rows)|
    ensures var r := CompleteBox(g, p);
      r.status != GameOver ==> r.boxesLeft == |SafeClosed(r.grid, g.cols, g.rows)|
  {
    var r := CompleteBox(g, p);
    if r.status != GameOver {
      SafeOpening(g.grid, r.grid, g.cols, g.rows);
    }
  }
}
