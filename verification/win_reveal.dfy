/**
 * The flood reveal of the Win32 engine (`Board::CompleteBox`) and the chord
 * (`Board::CompleteBoxes`).
 *
 * `CompleteBox` ignores opened and flagged boxes and the border; otherwise it
 * opens the box, loses on a mine, counts down the safe boxes unless the game
 * is over, and cascades into the 3x3 block when the count is 0. The chord
 * opens every unflagged box of an opened box's block once the flags in the
 * block match its count.
 */
module WinReveal {
  import opened Common
  import opened WinBoard
  import opened WinBlock

  /** `b` is `a` with some closed, unflagged inner boxes opened and nothing else changed. */
  predicate Opens(a: map<Pos, Cell>, b: map<Pos, Cell>, cols: int, rows: int)
  {
    && (forall p :: p in b ==> p in a)
    && forall p :: p in a ==>
         p in b && (b[p] == a[p] || (Interior(cols, rows, p) && a[p].flag != Flag && b[p] == a[p].(flag := Complete)))
  }

  /** Only the grid, the status and the safe-box countdown may differ. */
  predicate SameGame(a: Game, b: Game)
  {
    a == b.(grid := a.grid, status := a.status, boxesLeft := a.boxesLeft)
  }

  /** The boxes a reveal opened. */
  ghost function Opened(a: map<Pos, Cell>, b: map<Pos, Cell>): set<Pos>
  {
    set p | p in a && p in b && a[p].flag != Complete && b[p].flag == Complete
  }

  lemma OpensRefl(a: map<Pos, Cell>, cols: int, rows: int)
    ensures Opens(a, a, cols, rows)
    ensures Opened(a, a) == {}
  {
  }

  lemma OpensTrans(a: map<Pos, Cell>, b: map<Pos, Cell>, c: map<Pos, Cell>, cols: int, rows: int)
    requires Opens(a, b, cols, rows) && Opens(b, c, cols, rows)
    ensures Opens(a, c, cols, rows)
    ensures Opened(a, c) == Opened(a, b) + Opened(b, c)
    ensures Opened(a, b) !! Opened(b, c)
  {
  }

  /** Opening moves inner boxes out of the closed set, so the closed set never grows. */
  lemma OpensShrinks(a: map<Pos, Cell>, b: map<Pos, Cell>, cols: int, rows: int)
    requires Opens(a, b, cols, rows)
    ensures Closed(b, cols, rows) <= Closed(a, cols, rows)
    ensures Closed(a, cols, rows) - Closed(b, cols, rows) == Opened(a, b)
    ensures |Closed(b, cols, rows)| <= |Closed(a, cols, rows)|
  {
    SubsetCard(Closed(b, cols, rows), Closed(a, cols, rows));
  }

  lemma OpensKeepsShape(a: map<Pos, Cell>, b: map<Pos, Cell>, cols: int, rows: int)
    requires GridShape(a, cols, rows) && Opens(a, b, cols, rows)
    ensures GridShape(b, cols, rows)
  {
  }

  /** Opening inner box p, when it is closed, removes exactly p from the closed set. */
  lemma OpenOne(a: map<Pos, Cell>, p: Pos, cols: int, rows: int)
    requires p in a && Interior(cols, rows, p) && a[p].flag != Complete && a[p].flag != Flag
    ensures Opens(a, a[p := a[p].(flag := Complete)], cols, rows)
    ensures Opened(a, a[p := a[p].(flag := Complete)]) == {p}
    ensures |Closed(a[p := a[p].(flag := Complete)], cols, rows)| < |Closed(a, cols, rows)|
  {
    var b := a[p := a[p].(flag := Complete)];
    assert Closed(b, cols, rows) == Closed(a, cols, rows) - {p};
    SubsetCard(Closed(b, cols, rows), Closed(a, cols, rows));
  }

  /** Whether `CompleteBox` acts on a box: closed, unflagged and not on the border. */
  predicate Acts(g: Game, p: Pos)
    requires p in g.grid
  {
    g.grid[p].flag != Complete && g.grid[p].flag != Flag && Interior(g.cols, g.rows, p)
  }

  /**
   * `CompleteBox(col, row)`: an opened or flagged box, or a border box, is
   * left alone. Otherwise the box is opened; a mine ends the game, a safe box
   * counts down the boxes left unless the game is already over, and a box
   * with count 0 completes its whole block, so every empty box the reveal
   * opens has its block opened or flagged.
   */
  function CompleteBox(g: Game, p: Pos): (r: Game)
    requires Shape(g) && p in g.grid
    ensures Shape(r) && SameGame(r, g)
    ensures Opens(g.grid, r.grid, g.cols, g.rows)
    ensures |Closed(r.grid, g.cols, g.rows)| <= |Closed(g.grid, g.cols, g.rows)|
    ensures !Acts(g, p) ==> r == g
    ensures Acts(g, p) ==> r.grid[p].flag == Complete && p in Opened(g.grid, r.grid)
    ensures Outcome(g, r) && Closure(g.grid, r.grid, g.cols, g.rows)
    ensures ReachedFrom(g.grid, r.grid, p)
    decreases |Closed(g.grid, g.cols, g.rows)|, 0
  {
    var cell := g.grid[p];
    if cell.flag != Complete && cell.flag != Flag && 0 < p.0 < g.cols + 1 && 0 < p.1 < g.rows + 1 then
      var g1 := Open(g, p);
      OpenEffect(g, p);
      if cell.numMines == 0 then
        var r := CompleteNeighbours(g1, p.0, p.1, 0);
        Cascade(g, g1, r, p);
        r
      else g1
    else
      OutcomeRefl(g);
      ClosureRefl(g.grid, g.cols, g.rows);
      g
  }

  /** Opening one closed, unflagged inner box: a mine ends the game, a safe box counts down unless it is over. */
  function Open(g: Game, p: Pos): (r: Game)
    requires Shape(g) && p in g.grid && Acts(g, p)
    ensures Shape(r) && SameGame(r, g)
    ensures Opens(g.grid, r.grid, g.cols, g.rows) && Opened(g.grid, r.grid) == {p}
    ensures |Closed(r.grid, g.cols, g.rows)| < |Closed(g.grid, g.cols, g.rows)|
    ensures r.grid[p] == g.grid[p].(flag := Complete)
  {
    var cell := g.grid[p];
    var marked := g.grid[p := cell.(flag := Complete)];
    OpenOne(g.grid, p, g.cols, g.rows);
    OpensKeepsShape(g.grid, marked, g.cols, g.rows);
    if cell.isMine then g.(grid := marked, status := GameOver)
    else if g.status != GameOver then g.(grid := marked, boxesLeft := g.boxesLeft - 1)
    else g.(grid := marked)
  }

  /** The box at offset n of the block around (x, y). */
  function Neighbour(x: int, y: int, n: nat): (q: Pos)
    requires n < 9
    ensures Near(q.0, q.1, x, y)
  {
    (x + BlockOffsets[n].0, y + BlockOffsets[n].1)
  }

  /**
   * The `for i / for j` loop over the block around inner box (x, y), from
   * offset n on: afterwards every inner box of the block from offset n on is
   * opened or flagged.
   */
  function CompleteNeighbours(g: Game, x: int, y: int, n: nat): (r: Game)
    requires Shape(g) && Interior(g.cols, g.rows, (x, y)) && n <= 9
    ensures Shape(r) && SameGame(r, g)
    ensures Opens(g.grid, r.grid, g.cols, g.rows)
    ensures |Closed(r.grid, g.cols, g.rows)| <= |Closed(g.grid, g.cols, g.rows)|
    ensures Outcome(g, r) && Closure(g.grid, r.grid, g.cols, g.rows)
    ensures Settled(r.grid, g.cols, g.rows, x, y, n)
    ensures ReachedAround(g.grid, r.grid, x, y)
    decreases |Closed(g.grid, g.cols, g.rows)|, 1, 9 - n
  {
    if n == 9 then
      OpensRefl(g.grid, g.cols, g.rows);
      OutcomeRefl(g);
      ClosureRefl(g.grid, g.cols, g.rows);
      SettledEnd(g.grid, g.cols, g.rows, x, y);
      g
    else
      BlockInPad(g.cols, g.rows, x, y, n);
      var q := Neighbour(x, y, n);
      var g1 := CompleteBox(g, q);
      var r := CompleteNeighbours(g1, x, y, n + 1);
      OpensTrans(g.grid, g1.grid, r.grid, g.cols, g.rows);
      OpensShrinks(g.grid, r.grid, g.cols, g.rows);
      NeighbourStep(g, g1, r, x, y, n);
      AroundTrans(g.grid, g1.grid, r.grid, q, x, y, g.cols, g.rows);
      r
  }

  // What a reveal does to the game: the outcome (status and countdown) and the cascade.

  lemma OpensKeepsMines(a: map<Pos, Cell>, b: map<Pos, Cell>, cols: int, rows: int)
    requires Opens(a, b, cols, rows)
    ensures Mines(a) == Mines(b)
  {
  }

  /**
   * The game ends exactly when it was over already or a mine was opened;
   * while it is not over, the countdown drops by the number of boxes opened;
   * once it is over the countdown stays; it never drops by more than the
   * number of safe boxes opened.
   */
  ghost predicate Outcome(g: Game, r: Game)
  {
    var gone := Opened(g.grid, r.grid);
    && (r.status == GameOver <==> g.status == GameOver || gone * Mines(g.grid) != {})
    && (r.status != GameOver ==> r.status == g.status && r.boxesLeft == g.boxesLeft - |gone|)
    && (g.status == GameOver ==> r.boxesLeft == g.boxesLeft)
    && g.boxesLeft - |gone - Mines(g.grid)| <= r.boxesLeft <= g.boxesLeft
  }

  lemma OutcomeRefl(g: Game)
    ensures Outcome(g, g)
  {
    assert Opened(g.grid, g.grid) == {};
  }

  lemma OutcomeTrans(a: Game, b: Game, c: Game)
    requires Opens(a.grid, b.grid, a.cols, a.rows) && Opens(b.grid, c.grid, a.cols, a.rows)
    requires Outcome(a, b) && Outcome(b, c)
    ensures Outcome(a, c)
  {
    OpensTrans(a.grid, b.grid, c.grid, a.cols, a.rows);
    OpensKeepsMines(a.grid, b.grid, a.cols, a.rows);
    DisjointParts(Opened(a.grid, b.grid), Opened(b.grid, c.grid), Mines(a.grid));
  }

  /** The inner boxes around (x, y) visited from offset n on are all opened or flagged. */
  ghost predicate Settled(grid: map<Pos, Cell>, cols: int, rows: int, x: int, y: int, n: int)
  {
    forall q :: q in grid && Interior(cols, rows, q) && Near(q.0, q.1, x, y) && OffsetIndex(q.0 - x, q.1 - y) >= n ==>
      grid[q].flag == Complete || grid[q].flag == Flag
  }

  /** Every box the reveal opened with count 0 has its whole block opened or flagged. */
  ghost predicate Closure(a: map<Pos, Cell>, b: map<Pos, Cell>, cols: int, rows: int)
  {
    forall p :: p in Opened(a, b) && b[p].numMines == 0 ==> Settled(b, cols, rows, p.0, p.1, 0)
  }

  lemma SettledMono(a: map<Pos, Cell>, b: map<Pos, Cell>, cols: int, rows: int, x: int, y: int, n: int)
    requires Opens(a, b, cols, rows) && Settled(a, cols, rows, x, y, n)
    ensures Settled(b, cols, rows, x, y, n)
  {
  }

  lemma SettledEnd(grid: map<Pos, Cell>, cols: int, rows: int, x: int, y: int)
    ensures Settled(grid, cols, rows, x, y, 9)
  {
    forall q | q in grid && Near(q.0, q.1, x, y)
      ensures OffsetIndex(q.0 - x, q.1 - y) < 9
    {
      BlockOffsetsVisitBlock(q.0 - x, q.1 - y);
    }
  }

  lemma ClosureTrans(a: map<Pos, Cell>, b: map<Pos, Cell>, c: map<Pos, Cell>, cols: int, rows: int)
    requires Opens(a, b, cols, rows) && Opens(b, c, cols, rows)
    requires Closure(a, b, cols, rows) && Closure(b, c, cols, rows)
    ensures Closure(a, c, cols, rows)
  {
    OpensTrans(a, b, c, cols, rows);
    forall p | p in Opened(a, c) && c[p].numMines == 0
      ensures Settled(c, cols, rows, p.0, p.1, 0)
    {
      if p in Opened(a, b) {
        SettledMono(b, c, cols, rows, p.0, p.1, 0);
      }
    }
  }

  lemma ClosureRefl(a: map<Pos, Cell>, cols: int, rows: int)
    ensures Closure(a, a, cols, rows)
  {
    assert Opened(a, a) == {};
  }

  lemma OpenEffect(g: Game, p: Pos)
    requires Shape(g) && p in g.grid && Acts(g, p)
    ensures Outcome(g, Open(g, p))
    ensures g.grid[p].numMines != 0 ==> Closure(g.grid, Open(g, p).grid, g.cols, g.rows)
  {
    assert Mines(g.grid) * {p} == (if g.grid[p].isMine then {p} else {});
  }

  /** Opening an empty box p and then running the loop around it: the effects compose. */
  lemma Cascade(g: Game, g1: Game, r: Game, p: Pos)
    requires Opens(g.grid, g1.grid, g.cols, g.rows) && Opens(g1.grid, r.grid, g.cols, g.rows)
    requires Opened(g.grid, g1.grid) == {p} && p in g1.grid && g1.grid[p].numMines == 0
    requires Outcome(g, g1) && Outcome(g1, r) && Closure(g1.grid, r.grid, g.cols, g.rows)
    requires Settled(r.grid, g.cols, g.rows, p.0, p.1, 0) && ReachedAround(g1.grid, r.grid, p.0, p.1)
    ensures Opens(g.grid, r.grid, g.cols, g.rows)
    ensures |Closed(r.grid, g.cols, g.rows)| <= |Closed(g.grid, g.cols, g.rows)|
    ensures Outcome(g, r) && Closure(g.grid, r.grid, g.cols, g.rows)
    ensures p in Opened(g.grid, r.grid) && ReachedFrom(g.grid, r.grid, p)
  {
    OpensTrans(g.grid, g1.grid, r.grid, g.cols, g.rows);
    OpensShrinks(g.grid, r.grid, g.cols, g.rows);
    OutcomeTrans(g, g1, r);
    CascadeClosure(g.grid, g1.grid, r.grid, p, g.cols, g.rows);
    CascadeReach(g.grid, g1.grid, r.grid, p, g.cols, g.rows);
  }

  /** Opening an empty box p and then settling its block closes the cascade at p. */
  lemma CascadeClosure(a: map<Pos, Cell>, b: map<Pos, Cell>, c: map<Pos, Cell>, p: Pos, cols: int, rows: int)
    requires Opens(a, b, cols, rows) && Opens(b, c, cols, rows) && Opened(a, b) == {p}
    requires p in b && b[p].numMines == 0
    requires Closure(b, c, cols, rows) && Settled(c, cols, rows, p.0, p.1, 0)
    ensures Closure(a, c, cols, rows)
    ensures p in Opened(a, c)
  {
    OpensTrans(a, b, c, cols, rows);
  }

  /** One turn of the loop: the effects of the box at offset n and of the rest of the loop compose. */
  lemma NeighbourStep(g: Game, g1: Game, r: Game, x: int, y: int, n: nat)
    requires Shape(g) && Interior(g.cols, g.rows, (x, y)) && n < 9
    requires Opens(g.grid, g1.grid, g.cols, g.rows) && Opens(g1.grid, r.grid, g.cols, g.rows)
    requires Outcome(g, g1) && Closure(g.grid, g1.grid, g.cols, g.rows)
    requires Outcome(g1, r) && Closure(g1.grid, r.grid, g.cols, g.rows)
    requires var q := Neighbour(x, y, n);
      q in g1.grid && (g1.grid[q].flag == Complete || g1.grid[q].flag == Flag || !Interior(g.cols, g.rows, q))
    requires Settled(r.grid, g.cols, g.rows, x, y, n + 1)
    ensures Outcome(g, r) && Closure(g.grid, r.grid, g.cols, g.rows) && Settled(r.grid, g.cols, g.rows, x, y, n)
  {
    OutcomeTrans(g, g1, r);
    ClosureTrans(g.grid, g1.grid, r.grid, g.cols, g.rows);
    NeighbourSettled(g, g1, r, x, y, n);
  }

  /** The step of the loop: the box at offset n is opened, flagged or on the border, and stays so. */
  lemma NeighbourSettled(g: Game, g1: Game, r: Game, x: int, y: int, n: nat)
    requires Shape(g) && Interior(g.cols, g.rows, (x, y)) && n < 9
    requires var q := Neighbour(x, y, n);
      q in g1.grid && (g1.grid[q].flag == Complete || g1.grid[q].flag == Flag || !Interior(g.cols, g.rows, q))
    requires Opens(g1.grid, r.grid, g.cols, g.rows)
    requires Settled(r.grid, g.cols, g.rows, x, y, n + 1)
    ensures Settled(r.grid, g.cols, g.rows, x, y, n)
  {
    forall q | q in r.grid && Interior(g.cols, g.rows, q) && Near(q.0, q.1, x, y)
                && OffsetIndex(q.0 - x, q.1 - y) >= n
      ensures r.grid[q].flag == Complete || r.grid[q].flag == Flag
    {
      if OffsetIndex(q.0 - x, q.1 - y) == n {
        BlockOffsetsVisitBlock(q.0 - x, q.1 - y);
        assert q == Neighbour(x, y, n);
      }
    }
  }

  // The cascade opens nothing it should not: every box it opens is the one
  // clicked or lies in the block of an opened box with count 0.

  /** Box q lies in the block of some box with count 0 that the reveal opened. */
  ghost predicate Spreads(a: map<Pos, Cell>, c: map<Pos, Cell>, q: Pos)
  {
    exists i :: i in Opened(a, c) && c[i].numMines == 0 && Near(q.0, q.1, i.0, i.1)
  }

  ghost predicate ReachedAround(a: map<Pos, Cell>, c: map<Pos, Cell>, x: int, y: int)
  {
    forall q :: q in Opened(a, c) ==> Near(q.0, q.1, x, y) || Spreads(a, c, q)
  }

  ghost predicate ReachedFrom(a: map<Pos, Cell>, c: map<Pos, Cell>, p: Pos)
  {
    forall q :: q in Opened(a, c) ==> q == p || Spreads(a, c, q)
  }

  lemma SpreadsGrow(a: map<Pos, Cell>, b: map<Pos, Cell>, c: map<Pos, Cell>, q: Pos, cols: int, rows: int)
    requires Opens(a, b, cols, rows) && Opens(b, c, cols, rows)
    requires Spreads(a, b, q) || Spreads(b, c, q)
    ensures Spreads(a, c, q)
  {
    OpensTrans(a, b, c, cols, rows);
    if Spreads(a, b, q) {
      var i :| i in Opened(a, b) && b[i].numMines == 0 && Near(q.0, q.1, i.0, i.1);
      assert i in Opened(a, c) && c[i].numMines == 0;
    } else {
      var i :| i in Opened(b, c) && c[i].numMines == 0 && Near(q.0, q.1, i.0, i.1);
      assert i in Opened(a, c);
    }
  }

  /** Opening p and then running the loop around it reaches only p and boxes next to opened empty boxes. */
  lemma CascadeReach(a: map<Pos, Cell>, b: map<Pos, Cell>, c: map<Pos, Cell>, p: Pos, cols: int, rows: int)
    requires Opens(a, b, cols, rows) && Opens(b, c, cols, rows) && Opened(a, b) == {p}
    requires p in b && b[p].numMines == 0
    requires ReachedAround(b, c, p.0, p.1)
    ensures ReachedFrom(a, c, p)
  {
    OpensTrans(a, b, c, cols, rows);
    forall q | q in Opened(a, c) && q != p
      ensures Spreads(a, c, q)
    {
      if Near(q.0, q.1, p.0, p.1) {
        assert p in Opened(a, c) && c[p].numMines == 0;
      } else {
        SpreadsGrow(a, b, c, q, cols, rows);
      }
    }
  }

  lemma AroundTrans(a: map<Pos, Cell>, b: map<Pos, Cell>, c: map<Pos, Cell>, p: Pos, x: int, y: int, cols: int, rows: int)
    requires Opens(a, b, cols, rows) && Opens(b, c, cols, rows)
    requires ReachedFrom(a, b, p) && Near(p.0, p.1, x, y)
    requires ReachedAround(b, c, x, y)
    ensures ReachedAround(a, c, x, y)
  {
    OpensTrans(a, b, c, cols, rows);
    forall q | q in Opened(a, c) && !Near(q.0, q.1, x, y)
      ensures Spreads(a, c, q)
    {
      SpreadsGrow(a, b, c, q, cols, rows);
    }
  }

  // The chord: `CompleteBoxes`.

  /**
   * Whether the chord on opened box p acts: its block (p included) holds as
   * many flags as its count says mines.
   */
  ghost predicate ChordActs(g: Game, p: Pos)
    requires p in g.grid
  {
    g.grid[p].flag == Complete && |BlockFlags(g.grid, p.0, p.1)| == g.grid[p].numMines
  }

  /**
   * `CompleteBoxes(col, row)` on an inner box: when the box is opened and the
   * flags of its block match its count, every unflagged box of the block is
   * completed; otherwise nothing changes. It opens nothing outside the block
   * but what the cascades of empty boxes reach.
   */
  function Chord(g: Game, p: Pos): (r: Game)
    requires Shape(g) && Interior(g.cols, g.rows, p)
    ensures Shape(r) && SameGame(r, g) && Opens(g.grid, r.grid, g.cols, g.rows)
    ensures !ChordActs(g, p) ==> r == g
    ensures ChordActs(g, p) ==> Settled(r.grid, g.cols, g.rows, p.0, p.1, 0)
    ensures Outcome(g, r) && Closure(g.grid, r.grid, g.cols, g.rows)
    ensures ReachedAround(g.grid, r.grid, p.0, p.1)
  {
    InteriorInPad(g.cols, g.rows, p);
    var cell := g.grid[p];
    if cell.flag == Complete then
      var flagCount := CountFrom(g.grid, IsFlag, p.0, p.1, 0);
      CountIsBlockWith(g.grid, IsFlag, p.0, p.1);
      if flagCount == cell.numMines then ChordLoop(g, p.0, p.1, 0)
      else Unchanged(g); g
    else Unchanged(g); g
  }

  /**
   * The chord's loop over the block from offset n on, skipping flagged
   * boxes. Skipping them changes nothing, since `CompleteBox` leaves a flag
   * alone: the loop is the cascade's loop.
   */
  function ChordLoop(g: Game, x: int, y: int, n: nat): (r: Game)
    requires Shape(g) && Interior(g.cols, g.rows, (x, y)) && n <= 9
    ensures r == CompleteNeighbours(g, x, y, n)
    decreases 9 - n
  {
    if n == 9 then g
    else
      BlockInPad(g.cols, g.rows, x, y, n);
      var q := Neighbour(x, y, n);
      if g.grid[q].flag != Flag then ChordLoop(CompleteBox(g, q), x, y, n + 1)
      else ChordLoop(g, x, y, n + 1)
  }

  /** A game left as it is satisfies every "nothing happened" property. */
  lemma Unchanged(g: Game)
    requires Shape(g)
    ensures Opens(g.grid, g.grid, g.cols, g.rows) && Outcome(g, g) && Closure(g.grid, g.grid, g.cols, g.rows)
    ensures forall x, y :: ReachedAround(g.grid, g.grid, x, y)
  {
    OpensRefl(g.grid, g.cols, g.rows);
    OutcomeRefl(g);
    ClosureRefl(g.grid, g.cols, g.rows);
  }
}
