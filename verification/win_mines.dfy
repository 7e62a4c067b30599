/**
 * Lazy mine placement of the Win32 engine (`Board::PlaceMines`): the
 * selected box is temporarily made a mine, raw 64-bit generator outputs are
 * reduced to inner coordinates with `% cols + 1` and `% rows + 1` and turned
 * into mines until enough are placed, the selected box is cleared again, and
 * every inner box adds to its count the mines of its 3x3 block, itself
 * included. Border boxes are never drawn and never labelled.
 *
 * The generator is not modelled: `draws` is the finite sequence of output
 * pairs it produces, one pair per iteration of the loop.
 */
module WinMines {
  import opened Common
  import opened WinBoard
  import opened WinBlock

  newtype u64 = x: int | 0 <= x < 0x1_0000_0000_0000_0000

  /** Two consecutive generator outputs: one for the column, one for the row. */
  datatype Draw = Draw(col: u64, row: u64)

  /** The box a draw names: always an inner box, whatever the generator produced. */
  function DrawCell(d: Draw, cols: int, rows: int): (p: Pos)
    requires cols > 0 && rows > 0
    ensures Interior(cols, rows, p)
  {
    ((d.col as int) % cols + 1, (d.row as int) % rows + 1)
  }

  /** Positions the draws name. */
  ghost function Drawn(draws: seq<Draw>, cols: int, rows: int): set<Pos>
    requires cols > 0 && rows > 0
    decreases |draws|
  {
    if |draws| == 0 then {} else {DrawCell(draws[0], cols, rows)} + Drawn(draws[1..], cols, rows)
  }

  lemma {:induction false} DrawnInterior(draws: seq<Draw>, cols: int, rows: int, p: Pos)
    requires cols > 0 && rows > 0
    requires p in Drawn(draws, cols, rows)
    ensures Interior(cols, rows, p)
    decreases |draws|
  {
    if p != DrawCell(draws[0], cols, rows) {
      DrawnInterior(draws[1..], cols, rows, p);
    }
  }

  /** Positions the draws name that are not mines yet: the draws the loop can still accept. */
  ghost function Eligible(grid: map<Pos, Cell>, cols: int, rows: int, draws: seq<Draw>): set<Pos>
    requires GridShape(grid, cols, rows)
    decreases |draws|
  {
    if |draws| == 0 then {}
    else
      var p := DrawCell(draws[0], cols, rows);
      (if grid[p].isMine then {} else {p}) + Eligible(grid, cols, rows, draws[1..])
  }

  /** Making position p a mine removes exactly p from what the draws can still accept. */
  lemma {:induction false} EligibleAfterMark(grid: map<Pos, Cell>, cols: int, rows: int, draws: seq<Draw>, p: Pos)
    requires GridShape(grid, cols, rows) && p in grid
    ensures GridShape(grid[p := grid[p].(isMine := true)], cols, rows)
    ensures Eligible(grid[p := grid[p].(isMine := true)], cols, rows, draws)
         == Eligible(grid, cols, rows, draws) - {p}
    decreases |draws|
  {
    if |draws| > 0 {
      EligibleAfterMark(grid, cols, rows, draws[1..], p);
    }
  }

  lemma MinesAfterMark(grid: map<Pos, Cell>, p: Pos, mine: bool)
    requires p in grid
    ensures mine ==> Mines(grid[p := grid[p].(isMine := mine)]) == Mines(grid) + {p}
    ensures !mine ==> Mines(grid[p := grid[p].(isMine := mine)]) == Mines(grid) - {p}
  {
  }

  /** Only the mine bits differ between two grids. */
  predicate SameButMines(a: map<Pos, Cell>, b: map<Pos, Cell>)
  {
    a.Keys == b.Keys && forall p :: p in a ==> b[p] == a[p].(isMine := b[p].isMine)
  }

  /** One accepted draw: the mines added so far grow by the drawn position. */
  lemma ScatterMarkStep(grid: map<Pos, Cell>, marked: map<Pos, Cell>, r: map<Pos, Cell>, p: Pos,
                        drawn: set<Pos>, drawnTail: set<Pos>, left: int)
    requires p in grid && !grid[p].isMine
    requires marked == grid[p := grid[p].(isMine := true)]
    requires left > 0
    requires drawn == {p} + drawnTail
    requires Mines(marked) <= Mines(r)
    requires Mines(r) - Mines(marked) <= drawnTail
    requires |Mines(r) - Mines(marked)| == left - 1
    ensures Mines(grid) <= Mines(r)
    ensures Mines(r) - Mines(grid) <= drawn
    ensures |Mines(r) - Mines(grid)| == left
  {
    MinesAfterMark(grid, p, true);
    assert p !in Mines(grid);
    assert Mines(r) - Mines(grid) == (Mines(r) - Mines(marked)) + {p};
  }

  /**
   * The rejection loop: take draws in order, turning each drawn box that is
   * not a mine yet into a mine, until `left` mines have been added. When the
   * draws run out first the grid is returned with fewer mines added, where
   * the source would keep drawing; `ScatterAddsMines` counts what is added.
   */
  function Scatter(grid: map<Pos, Cell>, cols: int, rows: int, draws: seq<Draw>, left: int): (r: map<Pos, Cell>)
    requires GridShape(grid, cols, rows)
    ensures GridShape(r, cols, rows)
    ensures SameButMines(grid, r)
    ensures Mines(grid) <= Mines(r)
    decreases |draws|
  {
    if left <= 0 || |draws| == 0 then grid
    else
      var p := DrawCell(draws[0], cols, rows);
      if !grid[p].isMine then
        MinesAfterMark(grid, p, true);
        Scatter(grid[p := grid[p].(isMine := true)], cols, rows, draws[1..], left - 1)
      else
        Scatter(grid, cols, rows, draws[1..], left)
  }

  /**
   * The loop adds `left` mines when the draws name at least that many
   * distinct free boxes, and otherwise one mine per distinct free box drawn;
   * every added mine is at a drawn box.
   */
  lemma {:induction false} ScatterAddsMines(grid: map<Pos, Cell>, cols: int, rows: int, draws: seq<Draw>, left: int)
    requires GridShape(grid, cols, rows)
    ensures var r := Scatter(grid, cols, rows, draws, left);
      && Mines(r) - Mines(grid) <= Drawn(draws, cols, rows)
      && (left <= |Eligible(grid, cols, rows, draws)| ==> |Mines(r) - Mines(grid)| == if left > 0 then left else 0)
      && (left > |Eligible(grid, cols, rows, draws)| ==> |Mines(r) - Mines(grid)| == |Eligible(grid, cols, rows, draws)|)
    decreases |draws|
  {
    if left > 0 && |draws| > 0 {
      var p := DrawCell(draws[0], cols, rows);
      if !grid[p].isMine {
        ScatterAddsMines(grid[p := grid[p].(isMine := true)], cols, rows, draws[1..], left - 1);
        ScatterAcceptsDraw(grid, cols, rows, draws, left);
      } else {
        ScatterAddsMines(grid, cols, rows, draws[1..], left);
      }
    }
  }

  /**
   * The step of `ScatterAddsMines` where the first draw is accepted: what the
   * loop adds on the rest, plus the drawn box.
   */
  lemma ScatterAcceptsDraw(grid: map<Pos, Cell>, cols: int, rows: int, draws: seq<Draw>, left: int)
    requires GridShape(grid, cols, rows)
    requires left > 0 && |draws| > 0 && !grid[DrawCell(draws[0], cols, rows)].isMine
    requires var p := DrawCell(draws[0], cols, rows);
      var marked := grid[p := grid[p].(isMine := true)];
      && GridShape(marked, cols, rows)
      && var r := Scatter(marked, cols, rows, draws[1..], left - 1);
      var e := |Eligible(marked, cols, rows, draws[1..])|;
      && Mines(r) - Mines(marked) <= Drawn(draws[1..], cols, rows)
      && |Mines(r) - Mines(marked)| == if left - 1 <= e then left - 1 else e
    ensures var r := Scatter(grid, cols, rows, draws, left);
      var e := |Eligible(grid, cols, rows, draws)|;
      && Mines(r) - Mines(grid) <= Drawn(draws, cols, rows)
      && |Mines(r) - Mines(grid)| == if left <= e then left else e
  {
    var p := DrawCell(draws[0], cols, rows);
    var marked := grid[p := grid[p].(isMine := true)];
    var e := |Eligible(grid, cols, rows, draws)|;
    var r := Scatter(marked, cols, rows, draws[1..], left - 1);
    AcceptFirst(grid, cols, rows, draws, left);
    var n := if left <= e then left else e;
    ScatterMarkStep(grid, marked, r, p, Drawn(draws, cols, rows), Drawn(draws[1..], cols, rows), n);
  }

  /** What accepting the first draw does: one more mine, one fewer eligible draw, the loop goes on with the rest. */
  lemma AcceptFirst(grid: map<Pos, Cell>, cols: int, rows: int, draws: seq<Draw>, left: int)
    requires GridShape(grid, cols, rows)
    requires left > 0 && |draws| > 0 && !grid[DrawCell(draws[0], cols, rows)].isMine
    ensures var p := DrawCell(draws[0], cols, rows);
      var marked := grid[p := grid[p].(isMine := true)];
      && GridShape(marked, cols, rows)
      && Eligible(grid, cols, rows, draws) == {p} + Eligible(grid, cols, rows, draws[1..])
      && Eligible(marked, cols, rows, draws[1..]) == Eligible(grid, cols, rows, draws[1..]) - {p}
      && |Eligible(marked, cols, rows, draws[1..])| == |Eligible(grid, cols, rows, draws)| - 1
      && Mines(marked) == Mines(grid) + {p}
      && Drawn(draws, cols, rows) == {p} + Drawn(draws[1..], cols, rows)
      && Scatter(grid, cols, rows, draws, left) == Scatter(marked, cols, rows, draws[1..], left - 1)
  {
    var p := DrawCell(draws[0], cols, rows);
    MinesAfterMark(grid, p, true);
    EligibleAfterMark(grid, cols, rows, draws[1..], p);
    CardRemoveOne(Eligible(grid, cols, rows, draws), Eligible(grid, cols, rows, draws[1..]), p);
  }

  /** The draws can still accept exactly the drawn boxes that are no mines yet. */
  lemma {:induction false} EligibleIsDrawnFree(grid: map<Pos, Cell>, cols: int, rows: int, draws: seq<Draw>)
    requires GridShape(grid, cols, rows)
    ensures Eligible(grid, cols, rows, draws) == Drawn(draws, cols, rows) - Mines(grid)
    decreases |draws|
  {
    if |draws| > 0 {
      EligibleIsDrawnFree(grid, cols, rows, draws[1..]);
    }
  }

  /** With fewer eligible draws than mines left, the loop makes every eligible box a mine. */
  lemma ScatterShortTakesAll(grid: map<Pos, Cell>, cols: int, rows: int, draws: seq<Draw>, left: int)
    requires GridShape(grid, cols, rows)
    requires left > |Eligible(grid, cols, rows, draws)|
    ensures Mines(Scatter(grid, cols, rows, draws, left)) == Mines(grid) + Eligible(grid, cols, rows, draws)
  {
    var e := Eligible(grid, cols, rows, draws);
    var r := Scatter(grid, cols, rows, draws, left);
    var added := Mines(r) - Mines(grid);
    ScatterAddsMines(grid, cols, rows, draws, left);
    EligibleIsDrawnFree(grid, cols, rows, draws);
    SubsetCard(added, e);
    assert added == e;
  }

  // The labelling pass.

  /** `numMines++` on the 4-bit field. */
  function AddCount(n: Nibble, c: nat): Nibble
  {
    (n + c) % 16
  }

  /** The field does not wrap while the sum stays below 16. */
  lemma AddCountSmall(n: Nibble, c: nat)
    requires n + c < 16
    ensures AddCount(n, c) == n + c
  {
  }

  /** Add to every inner box's count the mines in its block, as the nested loops do; border boxes are skipped. */
  function Label(grid: map<Pos, Cell>, cols: int, rows: int): (r: map<Pos, Cell>)
    ensures r.Keys == grid.Keys
    ensures forall p :: p in r ==> r[p] == grid[p].(numMines := r[p].numMines)
    ensures forall p :: p in r && !Interior(cols, rows, p) ==> r[p] == grid[p]
  {
    map p | p in grid ::
      if Interior(cols, rows, p) then grid[p].(numMines := AddCount(grid[p].numMines, CountFrom(grid, IsMine, p.0, p.1, 0)))
      else grid[p]
  }

  lemma LabelAt(grid: map<Pos, Cell>, cols: int, rows: int, p: Pos)
    requires p in grid && Interior(cols, rows, p)
    ensures Label(grid, cols, rows)[p].numMines == AddCount(grid[p].numMines, CountFrom(grid, IsMine, p.0, p.1, 0))
  {
  }

  lemma LabelKeepsMines(grid: map<Pos, Cell>, cols: int, rows: int)
    ensures Mines(Label(grid, cols, rows)) == Mines(grid)
  {
  }

  /** Labelling gives each inner box its old count plus the mines of its block, at most 9 of them. */
  lemma LabelCounts(grid: map<Pos, Cell>, cols: int, rows: int, p: Pos)
    requires p in grid && Interior(cols, rows, p)
    ensures |BlockMines(Label(grid, cols, rows), p.0, p.1)| <= 9
    ensures Label(grid, cols, rows)[p].numMines
         == AddCount(grid[p].numMines, |BlockMines(Label(grid, cols, rows), p.0, p.1)|)
  {
    var r := Label(grid, cols, rows);
    LabelAt(grid, cols, rows, p);
    CountIsBlockWith(grid, IsMine, p.0, p.1);
    BlockWithSame(r, grid, IsMine, p.0, p.1);
  }

  /** The grid with the selected box temporarily made a mine. */
  function Tentative(grid: map<Pos, Cell>, s: Pos): map<Pos, Cell>
    requires s in grid
  {
    grid[s := grid[s].(isMine := true)]
  }

  /**
   * What placement needs from its caller: the generator's output, read so far,
   * names at least `mines` distinct boxes that are neither mines nor the
   * selected box (otherwise the loop keeps drawing).
   */
  ghost predicate EnoughDraws(g: Game, s: Pos, draws: seq<Draw>)
  {
    && Shape(g) && s in g.grid
    && g.mines <= |Eligible(Tentative(g.grid, s), g.cols, g.rows, draws)|
  }

  /** The spread grid with the selected box made safe again. */
  function Cleared(g: Game, s: Pos, draws: seq<Draw>): (r: map<Pos, Cell>)
    requires Shape(g) && s in g.grid
    ensures GridShape(r, g.cols, g.rows)
    ensures SameButMines(g.grid, r)
    ensures !r[s].isMine
  {
    var t := Tentative(g.grid, s);
    var spread := Scatter(t, g.cols, g.rows, draws, g.mines);
    spread[s := spread[s].(isMine := false)]
  }

  /** `PlaceMines(col, row)`: spread the mines away from the selected box, then label the inner boxes. */
  function PlaceMines(g: Game, s: Pos, draws: seq<Draw>): (r: Game)
    requires Shape(g) && s in g.grid
    ensures Shape(r)
    ensures r == g.(grid := r.grid)
    ensures forall p :: p in r.grid ==> r.grid[p].flag == g.grid[p].flag
    ensures s !in Mines(r.grid)
  {
    g.(grid := Label(Cleared(g, s, draws), g.cols, g.rows))
  }

  /** What the rejection loop adds: exactly `mines` new mines, all drawn, old ones kept except under the selected box. */
  lemma ClearedMines(g: Game, s: Pos, draws: seq<Draw>)
    requires EnoughDraws(g, s, draws)
    ensures var c := Cleared(g, s, draws);
      && Mines(g.grid) - {s} <= Mines(c)
      && |Mines(c) - Mines(g.grid)| == (if g.mines > 0 then g.mines else 0)
      && Mines(c) - Mines(g.grid) <= Drawn(draws, g.cols, g.rows)
  {
    var t := Tentative(g.grid, s);
    MinesAfterMark(g.grid, s, true);
    var spread := Scatter(t, g.cols, g.rows, draws, g.mines);
    ScatterAddsMines(t, g.cols, g.rows, draws, g.mines);
    MinesAfterMark(spread, s, false);
    assert Mines(Cleared(g, s, draws)) - Mines(g.grid) == Mines(spread) - Mines(t);
  }

  /** What placement adds: exactly `mines` new mines, all drawn inner boxes, old ones kept except under the selected box. */
  lemma PlacedMines(g: Game, s: Pos, draws: seq<Draw>)
    requires EnoughDraws(g, s, draws)
    ensures var r := PlaceMines(g, s, draws);
      && Mines(g.grid) - {s} <= Mines(r.grid)
      && |Mines(r.grid) - Mines(g.grid)| == (if g.mines > 0 then g.mines else 0)
      && Mines(r.grid) - Mines(g.grid) <= Drawn(draws, g.cols, g.rows)
      && (forall p :: p in Mines(r.grid) - Mines(g.grid) ==> Interior(g.cols, g.rows, p))
  {
    var c := Cleared(g, s, draws);
    LabelKeepsMines(c, g.cols, g.rows);
    ClearedMines(g, s, draws);
    forall p | p in Mines(c) - Mines(g.grid) ensures Interior(g.cols, g.rows, p) {
      DrawnInterior(draws, g.cols, g.rows, p);
    }
  }

  /** A clear border stays clear: no border box is drawn, and none is labelled. */
  lemma PlacementKeepsBorder(g: Game, s: Pos, draws: seq<Draw>)
    requires EnoughDraws(g, s, draws)
    requires BorderClear(g.grid, g.cols, g.rows)
    ensures BorderClear(PlaceMines(g, s, draws).grid, g.cols, g.rows)
  {
    var r := PlaceMines(g, s, draws);
    PlacedMines(g, s, draws);
    forall p | p in r.grid && !Interior(g.cols, g.rows, p) ensures r.grid[p] == EmptyCell {
      assert p !in Mines(r.grid) - Mines(g.grid);
      assert p !in Mines(g.grid);
    }
  }

  /**
   * A grid without mines or counts, as `Create` leaves it; marks placed
   * before the first click do not matter.
   */
  predicate Fresh(grid: map<Pos, Cell>)
  {
    forall p :: p in grid ==> !grid[p].isMine && grid[p].numMines == 0
  }

  lemma FreshHasNoMines(grid: map<Pos, Cell>)
    requires Fresh(grid)
    ensures Mines(grid) == {}
  {
  }

  /** On a freshly reset grid, placement leaves exactly `mines` mines, all inner, none under the selected box. */
  lemma FreshPlacementMines(g: Game, s: Pos, draws: seq<Draw>)
    requires EnoughDraws(g, s, draws)
    requires Fresh(g.grid) && g.mines >= 0
    ensures var r := PlaceMines(g, s, draws);
      && |Mines(r.grid)| == g.mines
      && s !in Mines(r.grid)
      && (forall p :: p in Mines(r.grid) ==> Interior(g.cols, g.rows, p))
  {
    PlacedMines(g, s, draws);
    FreshHasNoMines(g.grid);
  }

  /**
   * When the draws name fewer distinct free boxes than there are mines to
   * place, a fresh grid gets one mine per distinct free box drawn, none under
   * the selected box. (The source loop would keep drawing.)
   */
  lemma FreshPlacementShort(g: Game, s: Pos, draws: seq<Draw>)
    requires Shape(g) && s in g.grid && Fresh(g.grid)
    requires g.mines > |Eligible(Tentative(g.grid, s), g.cols, g.rows, draws)|
    ensures Mines(PlaceMines(g, s, draws).grid) == Eligible(Tentative(g.grid, s), g.cols, g.rows, draws)
    ensures |Mines(PlaceMines(g, s, draws).grid)| == |Eligible(Tentative(g.grid, s), g.cols, g.rows, draws)|
  {
    var t := Tentative(g.grid, s);
    FreshHasNoMines(g.grid);
    MinesAfterMark(g.grid, s, true);
    var spread := Scatter(t, g.cols, g.rows, draws, g.mines);
    ScatterShortTakesAll(t, g.cols, g.rows, draws, g.mines);
    MinesAfterMark(spread, s, false);
    EligibleIsDrawnFree(t, g.cols, g.rows, draws);
    var c := Cleared(g, s, draws);
    LabelKeepsMines(c, g.cols, g.rows);
  }

  /**
   * On a freshly reset grid every inner box ends up counting the mines of its
   * block, itself included, and border boxes keep count 0.
   */
  lemma FreshPlacementLabels(g: Game, s: Pos, draws: seq<Draw>, p: Pos)
    requires Shape(g) && s in g.grid && Fresh(g.grid)
    requires p in g.grid
    ensures var r := PlaceMines(g, s, draws);
      && (Interior(g.cols, g.rows, p) ==> r.grid[p].numMines == |BlockMines(r.grid, p.0, p.1)|)
      && (!Interior(g.cols, g.rows, p) ==> r.grid[p].numMines == 0)
  {
    var c := Cleared(g, s, draws);
    var r := PlaceMines(g, s, draws);
    assert r.grid == Label(c, g.cols, g.rows);
    assert c[p].numMines == 0;
    if Interior(g.cols, g.rows, p) {
      LabelCounts(c, g.cols, g.rows, p);
      AddCountSmall(0, |BlockMines(r.grid, p.0, p.1)|);
    }
  }

  /** An opened safe box shows one of the number images: its count never exceeds 8. */
  lemma SafeCountIsDigit(g: Game, s: Pos, draws: seq<Draw>, p: Pos)
    requires Shape(g) && s in g.grid && Fresh(g.grid)
    requires p in g.grid && p !in Mines(PlaceMines(g, s, draws).grid)
    ensures PlaceMines(g, s, draws).grid[p].numMines <= 8
  {
    var c := Cleared(g, s, draws);
    var r := PlaceMines(g, s, draws);
    assert r.grid == Label(c, g.cols, g.rows);
    assert c[p].numMines == 0;
    LabelKeepsMines(c, g.cols, g.rows);
    if Interior(g.cols, g.rows, p) {
      LabelAt(c, g.cols, g.rows, p);
      CountFromWithoutCentre(c, IsMine, p.0, p.1, 0);
      AddCountSmall(0, CountFrom(c, IsMine, p.0, p.1, 0));
    }
  }
}
