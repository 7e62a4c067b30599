/**
 * Lazy mine placement of the managed engine (`Board::PlaceMines`): the
 * rejection loop that turns drawn coordinates into mines while the first
 * selected box is temporarily a mine, and the labelling pass that stores in
 * every box the number of mines in its grid-clipped 3x3 block.
 *
 * The random generator is not modelled: `draws` is the finite sequence of
 * in-grid coordinates it produces.
 */
module CoreMines {
  import opened Common
  import opened CoreBoard

  predicate DrawsInGrid(draws: seq<(int, int)>, cols: int, rows: int)
  {
    forall i :: 0 <= i < |draws| ==> InGrid(cols, rows, draws[i].0, draws[i].1)
  }

  function DrawPos(draws: seq<(int, int)>, cols: int, rows: int, i: int): nat
    requires DrawsInGrid(draws, cols, rows)
    requires 0 <= i < |draws|
  {
    Idx(cols, rows, draws[i].0, draws[i].1)
  }

  /** Positions the draws name. */
  ghost function Drawn(draws: seq<(int, int)>, cols: int, rows: int): set<nat>
    requires DrawsInGrid(draws, cols, rows)
    decreases |draws|
  {
    if |draws| == 0 then {} else {DrawPos(draws, cols, rows, 0)} + Drawn(draws[1..], cols, rows)
  }

  /** Positions the draws name that are not mines yet: the draws the loop can still accept. */
  ghost function Eligible(boxes: seq<Box>, cols: int, rows: int, draws: seq<(int, int)>): set<nat>
    requires |boxes| == Area(cols, rows)
    requires DrawsInGrid(draws, cols, rows)
    decreases |draws|
  {
    if |draws| == 0 then {}
    else
      var k := DrawPos(draws, cols, rows, 0);
      (if boxes[k].isMine then {} else {k}) + Eligible(boxes, cols, rows, draws[1..])
  }

  /** Making position k a mine removes exactly k from what the draws can still accept. */
  lemma {:induction false} EligibleAfterMark(boxes: seq<Box>, cols: int, rows: int, draws: seq<(int, int)>, k: nat)
    requires |boxes| == Area(cols, rows)
    requires DrawsInGrid(draws, cols, rows)
    requires k < |boxes|
    ensures Eligible(boxes[k := boxes[k].(isMine := true)], cols, rows, draws)
         == Eligible(boxes, cols, rows, draws) - {k}
    decreases |draws|
  {
    if |draws| > 0 {
      EligibleAfterMark(boxes, cols, rows, draws[1..], k);
    }
  }

  lemma MinesAfterMark(boxes: seq<Box>, k: nat, mine: bool)
    requires k < |boxes|
    ensures mine ==> Mines(boxes[k := boxes[k].(isMine := mine)]) == Mines(boxes) + {k}
    ensures !mine ==> Mines(boxes[k := boxes[k].(isMine := mine)]) == Mines(boxes) - {k}
  {
  }

  /** One accepted draw: the mines added so far grow by the drawn position. */
  lemma SpreadMarkStep(boxes: seq<Box>, marked: seq<Box>, r: seq<Box>, k: nat,
                       drawn: set<nat>, drawnTail: set<nat>, left: int)
    requires k < |boxes| && !boxes[k].isMine
    requires marked == boxes[k := boxes[k].(isMine := true)]
    requires left > 0
    requires drawn == {k} + drawnTail
    requires Mines(marked) <= Mines(r)
    requires Mines(r) - Mines(marked) <= drawnTail
    requires |Mines(r) - Mines(marked)| == left - 1
    ensures Mines(boxes) <= Mines(r)
    ensures Mines(r) - Mines(boxes) <= drawn
    ensures |Mines(r) - Mines(boxes)| == left
  {
    MinesAfterMark(boxes, k, true);
    assert k !in Mines(boxes);
    assert Mines(r) - Mines(boxes) == (Mines(r) - Mines(marked)) + {k};
  }

  /** Only the mine bits differ between two box lists. */
  predicate SameButMines(a: seq<Box>, b: seq<Box>)
  {
    |a| == |b| && forall k :: 0 <= k < |a| ==> b[k] == a[k].(isMine := b[k].isMine)
  }

  /**
   * The rejection loop: take draws in order, turning each one that is not a
   * mine yet into a mine, until `left` mines have been added. When the draws
   * run out first the list is returned with fewer mines added, where the
   * source would keep drawing; `SpreadAddsMines` counts what is added.
   */
  function Spread(boxes: seq<Box>, cols: int, rows: int, draws: seq<(int, int)>, left: int): (r: seq<Box>)
    requires |boxes| == Area(cols, rows)
    requires DrawsInGrid(draws, cols, rows)
    ensures SameButMines(boxes, r)
    ensures Mines(boxes) <= Mines(r)
    decreases |draws|
  {
    if left <= 0 || |draws| == 0 then boxes
    else
      var k := DrawPos(draws, cols, rows, 0);
      if !boxes[k].isMine then
        MinesAfterMark(boxes, k, true);
        Spread(boxes[k := boxes[k].(isMine := true)], cols, rows, draws[1..], left - 1)
      else
        Spread(boxes, cols, rows, draws[1..], left)
  }

  /**
   * The loop adds `left` mines when the draws name at least that many
   * distinct free positions, and otherwise one mine per distinct free position
   * drawn; every added mine is at a drawn position.
   */
  lemma {:induction false} SpreadAddsMines(boxes: seq<Box>, cols: int, rows: int, draws: seq<(int, int)>, left: int)
    requires |boxes| == Area(cols, rows)
    requires DrawsInGrid(draws, cols, rows)
    ensures var r := Spread(boxes, cols, rows, draws, left);
      && Mines(r) - Mines(boxes) <= Drawn(draws, cols, rows)
      && (left <= |Eligible(boxes, cols, rows, draws)| ==> |Mines(r) - Mines(boxes)| == if left > 0 then left else 0)
      && (left > |Eligible(boxes, cols, rows, draws)| ==> |Mines(r) - Mines(boxes)| == |Eligible(boxes, cols, rows, draws)|)
    decreases |draws|
  {
    if left > 0 && |draws| > 0 {
      var k := DrawPos(draws, cols, rows, 0);
      if !boxes[k].isMine {
        SpreadAddsMines(boxes[k := boxes[k].(isMine := true)], cols, rows, draws[1..], left - 1);
        SpreadAcceptsDraw(boxes, cols, rows, draws, left);
      } else {
        SpreadAddsMines(boxes, cols, rows, draws[1..], left);
      }
    }
  }

  /**
   * The step of `SpreadAddsMines` where the first draw is accepted: what the
   * loop adds on the rest, plus the drawn position.
   */
  lemma SpreadAcceptsDraw(boxes: seq<Box>, cols: int, rows: int, draws: seq<(int, int)>, left: int)
    requires |boxes| == Area(cols, rows)
    requires DrawsInGrid(draws, cols, rows)
    requires left > 0 && |draws| > 0 && !boxes[DrawPos(draws, cols, rows, 0)].isMine
    requires var k := DrawPos(draws, cols, rows, 0);
      var marked := boxes[k := boxes[k].(isMine := true)];
      var r := Spread(marked, cols, rows, draws[1..], left - 1);
      var e := |Eligible(marked, cols, rows, draws[1..])|;
      && Mines(r) - Mines(marked) <= Drawn(draws[1..], cols, rows)
      && |Mines(r) - Mines(marked)| == if left - 1 <= e then left - 1 else e
    ensures var r := Spread(boxes, cols, rows, draws, left);
      var e := |Eligible(boxes, cols, rows, draws)|;
      && Mines(r) - Mines(boxes) <= Drawn(draws, cols, rows)
      && |Mines(r) - Mines(boxes)| == if left <= e then left else e
  {
    var k := DrawPos(draws, cols, rows, 0);
    var marked := boxes[k := boxes[k].(isMine := true)];
    var e := |Eligible(boxes, cols, rows, draws)|;
    var r := Spread(marked, cols, rows, draws[1..], left - 1);
    AcceptFirst(boxes, cols, rows, draws, left);
    var n := if left <= e then left else e;
    SpreadMarkStep(boxes, marked, r, k, Drawn(draws, cols, rows), Drawn(draws[1..], cols, rows), n);
  }

  /** What accepting the first draw does: one more mine, one fewer eligible draw, the loop goes on with the rest. */
  lemma AcceptFirst(boxes: seq<Box>, cols: int, rows: int, draws: seq<(int, int)>, left: int)
    requires |boxes| == Area(cols, rows)
    requires DrawsInGrid(draws, cols, rows)
    requires left > 0 && |draws| > 0 && !boxes[DrawPos(draws, cols, rows, 0)].isMine
    ensures var k := DrawPos(draws, cols, rows, 0);
      var marked := boxes[k := boxes[k].(isMine := true)];
      && Eligible(boxes, cols, rows, draws) == {k} + Eligible(boxes, cols, rows, draws[1..])
      && Eligible(marked, cols, rows, draws[1..]) == Eligible(boxes, cols, rows, draws[1..]) - {k}
      && |Eligible(marked, cols, rows, draws[1..])| == |Eligible(boxes, cols, rows, draws)| - 1
      && Mines(marked) == Mines(boxes) + {k}
      && Drawn(draws, cols, rows) == {k} + Drawn(draws[1..], cols, rows)
      && Spread(boxes, cols, rows, draws, left) == Spread(marked, cols, rows, draws[1..], left - 1)
  {
    var k := DrawPos(draws, cols, rows, 0);
    MinesAfterMark(boxes, k, true);
    EligibleAfterMark(boxes, cols, rows, draws[1..], k);
    CardRemoveOne(Eligible(boxes, cols, rows, draws), Eligible(boxes, cols, rows, draws[1..]), k);
  }

  /** The draws can still accept exactly the drawn positions that are no mines yet. */
  lemma {:induction false} EligibleIsDrawnFree(boxes: seq<Box>, cols: int, rows: int, draws: seq<(int, int)>)
    requires |boxes| == Area(cols, rows)
    requires DrawsInGrid(draws, cols, rows)
    ensures Eligible(boxes, cols, rows, draws) == Drawn(draws, cols, rows) - Mines(boxes)
    decreases |draws|
  {
    if |draws| > 0 {
      EligibleIsDrawnFree(boxes, cols, rows, draws[1..]);
    }
  }

  /** With fewer eligible draws than mines left, the loop makes every eligible position a mine. */
  lemma SpreadShortTakesAll(boxes: seq<Box>, cols: int, rows: int, draws: seq<(int, int)>, left: int)
    requires |boxes| == Area(cols, rows)
    requires DrawsInGrid(draws, cols, rows)
    requires left > |Eligible(boxes, cols, rows, draws)|
    ensures Mines(Spread(boxes, cols, rows, draws, left)) == Mines(boxes) + Eligible(boxes, cols, rows, draws)
  {
    var e := Eligible(boxes, cols, rows, draws);
    var r := Spread(boxes, cols, rows, draws, left);
    var added := Mines(r) - Mines(boxes);
    SpreadAddsMines(boxes, cols, rows, draws, left);
    EligibleIsDrawnFree(boxes, cols, rows, draws);
    SubsetCard(added, e);
    assert added == e;
  }

  // The labelling pass.

  /** Mines among the offsets n.. of the block around (x, y), counted as the loop does. */
  function CountFrom(boxes: seq<Box>, cols: int, rows: int, x: int, y: int, n: nat): nat
    requires |boxes| == Area(cols, rows)
    requires n <= 9
    decreases 9 - n
  {
    if n == 9 then 0
    else
      var (dx, dy) := BlockOffsets[n];
      var here := if InGrid(cols, rows, x + dx, y + dy) && boxes[Idx(cols, rows, x + dx, y + dy)].isMine
                  then 1 else 0;
      here + CountFrom(boxes, cols, rows, x, y, n + 1)
  }

  /** The reference count: mines whose coordinate lies in the 3x3 block around (x, y), (x, y) itself included. */
  ghost function BlockMines(boxes: seq<Box>, x: int, y: int): set<nat>
  {
    set m | 0 <= m < |boxes| && boxes[m].isMine && Near(boxes[m].column, boxes[m].row, x, y)
  }

  ghost function BlockMinesFrom(boxes: seq<Box>, x: int, y: int, n: int): set<nat>
  {
    set m | 0 <= m < |boxes| && boxes[m].isMine && Near(boxes[m].column, boxes[m].row, x, y)
                && OffsetIndex(boxes[m].column - x, boxes[m].row - y) >= n
  }

  /** The box the loop looks at in step n, if that offset is on the board. */
  ghost function StepBox(boxes: seq<Box>, cols: int, rows: int, x: int, y: int, n: int): set<nat>
    requires |boxes| == Area(cols, rows)
    requires 0 <= n < 9
  {
    var (dx, dy) := BlockOffsets[n];
    if InGrid(cols, rows, x + dx, y + dy) && boxes[Idx(cols, rows, x + dx, y + dy)].isMine
    then {Idx(cols, rows, x + dx, y + dy)} else {}
  }

  lemma StepBoxInBlock(boxes: seq<Box>, cols: int, rows: int, x: int, y: int, n: int)
    requires GridLayout(boxes, cols, rows)
    requires 0 <= n < 9
    ensures StepBox(boxes, cols, rows, x, y, n) <= BlockMinesFrom(boxes, x, y, n)
    ensures StepBox(boxes, cols, rows, x, y, n) !! BlockMinesFrom(boxes, x, y, n + 1)
  {
    BlockOffsetAt(n);
    var (dx, dy) := BlockOffsets[n];
    if InGrid(cols, rows, x + dx, y + dy) {
      IdxFinds(boxes, cols, rows, x + dx, y + dy);
    }
  }

  lemma BlockFromSplit(boxes: seq<Box>, cols: int, rows: int, x: int, y: int, n: int, m: nat)
    requires GridLayout(boxes, cols, rows)
    requires 0 <= n < 9
    requires m in BlockMinesFrom(boxes, x, y, n)
    ensures m in StepBox(boxes, cols, rows, x, y, n) || m in BlockMinesFrom(boxes, x, y, n + 1)
  {
    var dx, dy := boxes[m].column - x, boxes[m].row - y;
    if OffsetIndex(dx, dy) == n {
      BlockOffsetsVisitBlock(dx, dy);
      IdxOfBox(boxes, cols, rows, m);
    }
  }

  lemma BlockFromEnd(boxes: seq<Box>, x: int, y: int)
    ensures BlockMinesFrom(boxes, x, y, 9) == {}
  {
    forall m | m in BlockMinesFrom(boxes, x, y, 9) ensures false {
      BlockOffsetsVisitBlock(boxes[m].column - x, boxes[m].row - y);
    }
  }

  lemma {:induction false} CountFromIsBlockMines(boxes: seq<Box>, cols: int, rows: int, x: int, y: int, n: nat)
    requires GridLayout(boxes, cols, rows)
    requires n <= 9
    ensures CountFrom(boxes, cols, rows, x, y, n) == |BlockMinesFrom(boxes, x, y, n)|
    decreases 9 - n
  {
    if n == 9 {
      BlockFromEnd(boxes, x, y);
    } else {
      CountFromIsBlockMines(boxes, cols, rows, x, y, n + 1);
      var here := StepBox(boxes, cols, rows, x, y, n);
      var rest := BlockMinesFrom(boxes, x, y, n + 1);
      StepBoxInBlock(boxes, cols, rows, x, y, n);
      forall m | m in BlockMinesFrom(boxes, x, y, n) ensures m in here + rest {
        BlockFromSplit(boxes, cols, rows, x, y, n, m);
      }
      assert BlockMinesFrom(boxes, x, y, n) == here + rest;
      assert CountFrom(boxes, cols, rows, x, y, n) == |here| + CountFrom(boxes, cols, rows, x, y, n + 1);
    }
  }

  lemma CountIsBlockMines(boxes: seq<Box>, cols: int, rows: int, x: int, y: int)
    requires GridLayout(boxes, cols, rows)
    ensures CountFrom(boxes, cols, rows, x, y, 0) == |BlockMines(boxes, x, y)|
  {
    CountFromIsBlockMines(boxes, cols, rows, x, y, 0);
    forall m | m in BlockMines(boxes, x, y) ensures m in BlockMinesFrom(boxes, x, y, 0) {
      BlockOffsetsVisitBlock(boxes[m].column - x, boxes[m].row - y);
    }
    assert BlockMinesFrom(boxes, x, y, 0) == BlockMines(boxes, x, y);
  }

  /** Add to every box's count the mines in its block, as the nested loops over the box list do. */
  function Label(boxes: seq<Box>, cols: int, rows: int): (r: seq<Box>)
    requires GridLayout(boxes, cols, rows)
    ensures |r| == |boxes|
    ensures forall k :: 0 <= k < |r| ==>
      && r[k] == boxes[k].(minesAround := r[k].minesAround)
      && r[k].minesAround == boxes[k].minesAround + |BlockMines(boxes, boxes[k].column, boxes[k].row)|
  {
    var r := seq(|boxes|, k requires 0 <= k < |boxes| =>
      boxes[k].(minesAround := boxes[k].minesAround + CountFrom(boxes, cols, rows, boxes[k].column, boxes[k].row, 0)));
    forall k | 0 <= k < |r|
      ensures r[k].minesAround == boxes[k].minesAround + |BlockMines(boxes, boxes[k].column, boxes[k].row)|
    {
      CountIsBlockMines(boxes, cols, rows, boxes[k].column, boxes[k].row);
    }
    r
  }

  /** Block counts only depend on where the mines are. */
  lemma BlockMinesSameMines(a: seq<Box>, b: seq<Box>, x: int, y: int)
    requires |a| == |b|
    requires forall k :: 0 <= k < |a| ==>
      a[k].isMine == b[k].isMine && a[k].column == b[k].column && a[k].row == b[k].row
    ensures BlockMines(a, x, y) == BlockMines(b, x, y)
  {
  }

  /** The box list with the selected box temporarily made a mine. */
  function Tentative(b: Board): seq<Box>
    requires b.selected.Some? && b.selected.value < |b.boxes|
  {
    var s := b.selected.value;
    b.boxes[s := b.boxes[s].(isMine := true)]
  }

  /**
   * What placement needs from its caller: a selected box, and a prefix of the
   * generator's output that names at least `mines` distinct boxes that are
   * neither mines nor the selected box (otherwise the loop keeps drawing).
   */
  ghost predicate EnoughDraws(b: Board, draws: seq<(int, int)>)
  {
    && Layout(b)
    && b.selected.Some? && b.selected.value < |b.boxes|
    && DrawsInGrid(draws, b.cols, b.rows)
    && b.mines <= |Eligible(Tentative(b), b.cols, b.rows, draws)|
  }

  /** Every box has as count its old count plus the mines of its block. */
  ghost predicate Labelled(old_boxes: seq<Box>, boxes: seq<Box>)
    requires |old_boxes| == |boxes|
  {
    forall k :: 0 <= k < |boxes| ==>
      boxes[k].minesAround == old_boxes[k].minesAround + |BlockMines(boxes, boxes[k].column, boxes[k].row)|
  }

  /** `PlaceMines`: spread the mines away from the selected box, then label every box. */
  function PlaceMines(b: Board, draws: seq<(int, int)>): (r: Board)
    requires Layout(b)
    requires b.selected.Some? && b.selected.value < |b.boxes|
    requires DrawsInGrid(draws, b.cols, b.rows)
    ensures Layout(r)
    ensures r == b.(boxes := r.boxes)
    ensures forall k :: 0 <= k < |r.boxes| ==>
      && r.boxes[k].column == b.boxes[k].column && r.boxes[k].row == b.boxes[k].row
      && r.boxes[k].flag == b.boxes[k].flag
    ensures r.selected.value !in Mines(r.boxes)
  {
    var labelled := Label(Cleared(b, draws), b.cols, b.rows);
    b.(boxes := labelled)
  }

  /** The spread list with the selected box made safe again. */
  function Cleared(b: Board, draws: seq<(int, int)>): (r: seq<Box>)
    requires Layout(b)
    requires b.selected.Some? && b.selected.value < |b.boxes|
    requires DrawsInGrid(draws, b.cols, b.rows)
    ensures GridLayout(r, b.cols, b.rows)
    ensures SameButMines(b.boxes, r)
    ensures !r[b.selected.value].isMine
  {
    var s := b.selected.value;
    var spread := Spread(Tentative(b), b.cols, b.rows, draws, b.mines);
    var r := spread[s := spread[s].(isMine := false)];
    assert SameButMines(b.boxes, r);
    r
  }

  /** Mines placement adds: exactly `mines` new ones, all drawn, old ones kept except under the selected box. */
  lemma PlacedMines(b: Board, draws: seq<(int, int)>)
    requires EnoughDraws(b, draws)
    ensures var r := PlaceMines(b, draws);
      && Mines(b.boxes) - {b.selected.value} <= Mines(r.boxes)
      && |Mines(r.boxes) - Mines(b.boxes)| == (if b.mines > 0 then b.mines else 0)
      && Mines(r.boxes) - Mines(b.boxes) <= Drawn(draws, b.cols, b.rows)
  {
    var s := b.selected.value;
    var temp := Tentative(b);
    MinesAfterMark(b.boxes, s, true);
    var spread := Spread(temp, b.cols, b.rows, draws, b.mines);
    SpreadAddsMines(temp, b.cols, b.rows, draws, b.mines);
    MinesAfterMark(spread, s, false);
    var r := PlaceMines(b, draws);
    assert Mines(r.boxes) == Mines(Cleared(b, draws));
    assert Mines(r.boxes) - Mines(b.boxes) == Mines(spread) - Mines(temp);
  }

  /** After placement every box's count is its old count plus the mines of its (self-inclusive) block. */
  lemma PlacedLabels(b: Board, draws: seq<(int, int)>)
    requires Layout(b)
    requires b.selected.Some? && b.selected.value < |b.boxes|
    requires DrawsInGrid(draws, b.cols, b.rows)
    ensures Labelled(b.boxes, PlaceMines(b, draws).boxes)
  {
    var cleared := Cleared(b, draws);
    var labelled := PlaceMines(b, draws).boxes;
    forall k | 0 <= k < |labelled|
      ensures labelled[k].minesAround
           == b.boxes[k].minesAround + |BlockMines(labelled, labelled[k].column, labelled[k].row)|
    {
      BlockMinesSameMines(labelled, cleared, labelled[k].column, labelled[k].row);
    }
  }

  /** On a board without mines, placement leaves exactly `mines` of them, none under the selected box. */
  lemma PlacementCount(b: Board, draws: seq<(int, int)>)
    requires EnoughDraws(b, draws)
    requires Mines(b.boxes) == {}
    requires b.mines >= 0
    ensures |Mines(PlaceMines(b, draws).boxes)| == b.mines
    ensures b.selected.value !in Mines(PlaceMines(b, draws).boxes)
  {
    var r := PlaceMines(b, draws);
    PlacedMines(b, draws);
    assert Mines(r.boxes) - Mines(b.boxes) == Mines(r.boxes);
  }

  /**
   * When the draws name fewer distinct free boxes than there are mines to
   * place, a board without mines gets one mine per distinct free box drawn,
   * none under the selected box. (The source loop would keep drawing.)
   */
  lemma PlacementShortDraws(b: Board, draws: seq<(int, int)>)
    requires Layout(b)
    requires b.selected.Some? && b.selected.value < |b.boxes|
    requires DrawsInGrid(draws, b.cols, b.rows)
    requires Mines(b.boxes) == {}
    requires b.mines > |Eligible(Tentative(b), b.cols, b.rows, draws)|
    ensures Mines(PlaceMines(b, draws).boxes) == Eligible(Tentative(b), b.cols, b.rows, draws)
    ensures |Mines(PlaceMines(b, draws).boxes)| == |Eligible(Tentative(b), b.cols, b.rows, draws)|
  {
    var s := b.selected.value;
    var temp := Tentative(b);
    MinesAfterMark(b.boxes, s, true);
    var spread := Spread(temp, b.cols, b.rows, draws, b.mines);
    SpreadAddsMines(temp, b.cols, b.rows, draws, b.mines);
    SpreadShortTakesAll(temp, b.cols, b.rows, draws, b.mines);
    MinesAfterMark(spread, s, false);
    EligibleIsDrawnFree(temp, b.cols, b.rows, draws);
    var r := PlaceMines(b, draws);
    assert Mines(r.boxes) == Mines(Cleared(b, draws));
  }

  /**
   * The count includes the box itself: after labelling a fresh board, a mine
   * counts one more than its mine neighbours, so it is never 0.
   */
  lemma MineCountsItself(b: Board, draws: seq<(int, int)>, k: nat)
    requires EnoughDraws(b, draws)
    requires forall j :: 0 <= j < |b.boxes| ==> b.boxes[j].minesAround == 0
    requires k < |b.boxes| && k in Mines(PlaceMines(b, draws).boxes)
    ensures var r := PlaceMines(b, draws).boxes;
      r[k].minesAround == 1 + |BlockMines(r, r[k].column, r[k].row) - {k}|
  {
    var r := PlaceMines(b, draws).boxes;
    PlacedLabels(b, draws);
    var s := BlockMines(r, r[k].column, r[k].row);
    assert k in s;
    assert s == (s - {k}) + {k};
  }
}
