/**
 * The flood reveal of the managed engine (`Board::CompleteBox`): opening a
 * box, losing on a mine, counting down the safe boxes still to open, and
 * cascading into the whole 3x3 block when the box's count is 0.
 *
 * The recursion is modelled as two mutually recursive functions, one for a
 * box and one for the loop over its block; both only ever turn closed,
 * unflagged boxes into opened ones, which is what makes the recursion stop.
 */
module CoreReveal {
  import opened Common
  import opened CoreBoard

  /** `b` is `a` with some closed, unflagged boxes opened and nothing else changed. */
  predicate Opens(a: seq<Box>, b: seq<Box>)
  {
    && |a| == |b|
    && forall j :: 0 <= j < |a| ==>
         b[j] == a[j] || (a[j].flag != Flag && b[j] == a[j].(flag := Complete))
  }

  /** Only the box list, the status and the safe-box countdown may differ. */
  predicate SameGame(a: Board, b: Board)
  {
    a == b.(boxes := a.boxes, status := a.status, boxesLeft := a.boxesLeft)
  }

  /** The boxes a reveal opened. */
  ghost function Opened(a: seq<Box>, b: seq<Box>): set<nat>
  {
    set j | 0 <= j < |a| && j < |b| && a[j].flag != Complete && b[j].flag == Complete
  }

  lemma OpensRefl(a: seq<Box>)
    ensures Opens(a, a)
  {
  }

  lemma OpensTrans(a: seq<Box>, b: seq<Box>, c: seq<Box>)
    requires Opens(a, b) && Opens(b, c)
    ensures Opens(a, c)
    ensures Opened(a, c) == Opened(a, b) + Opened(b, c)
    ensures Opened(a, b) !! Opened(b, c)
  {
    forall j | 0 <= j < |a|
      ensures c[j] == a[j] || (a[j].flag != Flag && c[j] == a[j].(flag := Complete))
    {
    }
  }

  /** Opening moves boxes out of the closed set, so the closed set never grows. */
  lemma OpensShrinks(a: seq<Box>, b: seq<Box>)
    requires Opens(a, b)
    ensures Closed(b) <= Closed(a)
    ensures Closed(a) - Closed(b) == Opened(a, b)
    ensures |Closed(b)| <= |Closed(a)|
  {
    SubsetCard(Closed(b), Closed(a));
  }

  lemma OpensKeepsLayout(a: seq<Box>, b: seq<Box>, cols: int, rows: int)
    requires GridLayout(a, cols, rows) && Opens(a, b)
    ensures GridLayout(b, cols, rows)
  {
    assert forall j :: 0 <= j < |b| ==> b[j].column == a[j].column && b[j].row == a[j].row;
  }

  /** Opening box k, when it is closed, removes exactly k from the closed set. */
  lemma OpenOne(a: seq<Box>, k: nat)
    requires k < |a| && a[k].flag != Complete && a[k].flag != Flag
    ensures Opens(a, a[k := a[k].(flag := Complete)])
    ensures Opened(a, a[k := a[k].(flag := Complete)]) == {k}
    ensures |Closed(a[k := a[k].(flag := Complete)])| < |Closed(a)|
  {
    var b := a[k := a[k].(flag := Complete)];
    assert Closed(b) == Closed(a) - {k};
    SubsetCard(Closed(b), Closed(a));
  }

  /**
   * `CompleteBox(box)`: a box that is opened or flagged is left alone.
   * Otherwise it is opened; a mine ends the game, a safe box counts down the
   * boxes left unless the game is already over, and a box with no mine in
   * its block opens its whole block.
   */
  function CompleteBox(b: Board, k: nat): (r: Board)
    requires Layout(b) && k < |b.boxes|
    ensures Layout(r) && SameGame(r, b)
    ensures Opens(b.boxes, r.boxes)
    ensures |Closed(r.boxes)| <= |Closed(b.boxes)|
    ensures b.boxes[k].flag == Complete || b.boxes[k].flag == Flag ==> r == b
    ensures r.boxes[k].flag == Complete || r.boxes[k].flag == Flag
    decreases |Closed(b.boxes)|, 0
  {
    var box := b.boxes[k];
    if box.flag == Complete || box.flag == Flag then b
    else
      var b1 := Open(b, k);
      if box.minesAround == 0 then
        var r := CompleteNeighbours(b1, box.column, box.row, 0);
        OpensTrans(b.boxes, b1.boxes, r.boxes);
        OpensShrinks(b.boxes, r.boxes);
        r
      else b1
  }

  /** Opening one closed, unflagged box: a mine ends the game, a safe box counts down unless it is over. */
  function Open(b: Board, k: nat): (r: Board)
    requires Layout(b) && k < |b.boxes|
    requires b.boxes[k].flag != Complete && b.boxes[k].flag != Flag
    ensures Layout(r) && SameGame(r, b)
    ensures Opens(b.boxes, r.boxes) && Opened(b.boxes, r.boxes) == {k}
    ensures |Closed(r.boxes)| < |Closed(b.boxes)|
    ensures r.boxes[k] == b.boxes[k].(flag := Complete)
  {
    var box := b.boxes[k];
    var marked := b.boxes[k := box.(flag := Complete)];
    OpenOne(b.boxes, k);
    OpensKeepsLayout(b.boxes, marked, b.cols, b.rows);
    var status := if box.isMine then GameOver else b.status;
    var left := if !box.isMine && b.status != GameOver then b.boxesLeft - 1 else b.boxesLeft;
    b.(boxes := marked, status := status, boxesLeft := left)
  }

  /** The loop over the block around (x, y), from offset n on, completing every in-grid box. */
  function CompleteNeighbours(b: Board, x: int, y: int, n: nat): (r: Board)
    requires Layout(b) && n <= 9
    ensures Layout(r) && SameGame(r, b)
    ensures Opens(b.boxes, r.boxes)
    ensures |Closed(r.boxes)| <= |Closed(b.boxes)|
    decreases |Closed(b.boxes)|, 1, 9 - n
  {
    if n == 9 then OpensRefl(b.boxes); b
    else
      var nb := Neighbour(b, x, y, n);
      var b1 := if nb.Some? then CompleteBox(b, nb.value) else b;
      OpensRefl(b.boxes);
      var r := CompleteNeighbours(b1, x, y, n + 1);
      OpensTrans(b.boxes, b1.boxes, r.boxes);
      OpensShrinks(b.boxes, r.boxes);
      r
  }

  // What a reveal does to the game: the outcome (status and countdown) and the cascade.

  lemma OpensKeepsMines(a: seq<Box>, b: seq<Box>)
    requires Opens(a, b)
    ensures Mines(a) == Mines(b)
  {
  }

  /** Opening never sets or removes a flag. */
  lemma OpensKeepsFlags(a: seq<Box>, b: seq<Box>)
    requires Opens(a, b)
    ensures Flags(a) == Flags(b)
  {
  }

  /**
   * The game ends exactly when it was over already or a mine was opened;
   * while it is not over, the countdown drops by the number of boxes opened;
   * once it is over the countdown stays; it never drops by more than the
   * number of safe boxes opened.
   */
  ghost predicate Outcome(b: Board, r: Board)
  {
    var gone := Opened(b.boxes, r.boxes);
    && (r.status == GameOver <==> b.status == GameOver || gone * Mines(b.boxes) != {})
    && (r.status != GameOver ==> r.status == b.status && r.boxesLeft == b.boxesLeft - |gone|)
    && (b.status == GameOver ==> r.boxesLeft == b.boxesLeft)
    && b.boxesLeft - |gone - Mines(b.boxes)| <= r.boxesLeft <= b.boxesLeft
  }

  lemma OutcomeRefl(b: Board)
    ensures Outcome(b, b)
  {
    assert Opened(b.boxes, b.boxes) == {};
  }

  lemma OutcomeTrans(a: Board, b: Board, c: Board)
    requires Opens(a.boxes, b.boxes) && Opens(b.boxes, c.boxes)
    requires Outcome(a, b) && Outcome(b, c)
    ensures Outcome(a, c)
  {
    OpensTrans(a.boxes, b.boxes, c.boxes);
    OpensKeepsMines(a.boxes, b.boxes);
    DisjointParts(Opened(a.boxes, b.boxes), Opened(b.boxes, c.boxes), Mines(a.boxes));
  }

  /** The boxes around (x, y) visited from offset n on are all opened or flagged. */
  ghost predicate Settled(boxes: seq<Box>, x: int, y: int, n: int)
  {
    forall m :: 0 <= m < |boxes| && Near(boxes[m].column, boxes[m].row, x, y)
                && OffsetIndex(boxes[m].column - x, boxes[m].row - y) >= n ==>
      boxes[m].flag == Complete || boxes[m].flag == Flag
  }

  /** Every box the reveal opened with count 0 has its whole block opened or flagged. */
  ghost predicate Closure(a: seq<Box>, b: seq<Box>)
  {
    forall j :: j in Opened(a, b) && j < |b| && b[j].minesAround == 0 ==> Settled(b, b[j].column, b[j].row, 0)
  }

  lemma SettledMono(a: seq<Box>, b: seq<Box>, x: int, y: int, n: int)
    requires Opens(a, b) && Settled(a, x, y, n)
    ensures Settled(b, x, y, n)
  {
    forall m | 0 <= m < |b| && Near(b[m].column, b[m].row, x, y) && OffsetIndex(b[m].column - x, b[m].row - y) >= n
      ensures b[m].flag == Complete || b[m].flag == Flag
    {
      assert a[m].column == b[m].column && a[m].row == b[m].row;
    }
  }

  lemma SettledEnd(boxes: seq<Box>, x: int, y: int)
    ensures Settled(boxes, x, y, 9)
  {
    forall m | 0 <= m < |boxes| && Near(boxes[m].column, boxes[m].row, x, y)
      ensures OffsetIndex(boxes[m].column - x, boxes[m].row - y) < 9
    {
      BlockOffsetsVisitBlock(boxes[m].column - x, boxes[m].row - y);
    }
  }

  lemma ClosureTrans(a: seq<Box>, b: seq<Box>, c: seq<Box>)
    requires Opens(a, b) && Opens(b, c)
    requires Closure(a, b) && Closure(b, c)
    ensures Closure(a, c)
  {
    OpensTrans(a, b, c);
    forall j | j in Opened(a, c) && j < |c| && c[j].minesAround == 0
      ensures Settled(c, c[j].column, c[j].row, 0)
    {
      if j in Opened(a, b) {
        assert b[j].column == c[j].column && b[j].row == c[j].row && b[j].minesAround == 0;
        SettledMono(b, c, c[j].column, c[j].row, 0);
      }
    }
  }

  lemma ClosureRefl(a: seq<Box>)
    ensures Closure(a, a)
  {
    assert Opened(a, a) == {};
  }

  lemma OpenEffect(b: Board, k: nat)
    requires Layout(b) && k < |b.boxes|
    requires b.boxes[k].flag != Complete && b.boxes[k].flag != Flag
    ensures Outcome(b, Open(b, k))
    ensures b.boxes[k].minesAround != 0 ==> Closure(b.boxes, Open(b, k).boxes)
  {
    assert Mines(b.boxes) * {k} == (if b.boxes[k].isMine then {k} else {});
  }

  /** What `CompleteBox` does to the game, and that its cascade closes every empty region it opens. */
  lemma {:induction false} CompleteBoxEffect(b: Board, k: nat)
    requires Layout(b) && k < |b.boxes|
    ensures var r := CompleteBox(b, k);
      && Outcome(b, r)
      && Closure(b.boxes, r.boxes)
      && (b.boxes[k].flag != Complete && b.boxes[k].flag != Flag ==> k in Opened(b.boxes, r.boxes))
    decreases |Closed(b.boxes)|, 0
  {
    var box := b.boxes[k];
    if box.flag == Complete || box.flag == Flag {
      OutcomeRefl(b);
      ClosureRefl(b.boxes);
    } else {
      OpenEffect(b, k);
      var b1 := Open(b, k);
      if box.minesAround == 0 {
        var r := CompleteNeighbours(b1, box.column, box.row, 0);
        CompleteNeighboursEffect(b1, box.column, box.row, 0);
        OutcomeTrans(b, b1, r);
        CascadeClosure(b.boxes, b1.boxes, r.boxes, k);
      }
    }
  }

  /** Opening an empty box k and then settling its block closes the cascade at k. */
  lemma CascadeClosure(a: seq<Box>, b: seq<Box>, c: seq<Box>, k: nat)
    requires Opens(a, b) && Opens(b, c) && Opened(a, b) == {k}
    requires k < |a| && b[k].minesAround == 0
    requires Closure(b, c) && Settled(c, b[k].column, b[k].row, 0)
    ensures Closure(a, c)
    ensures k in Opened(a, c)
  {
    OpensTrans(a, b, c);
    forall j | j in Opened(a, c) && j < |c| && c[j].minesAround == 0
      ensures Settled(c, c[j].column, c[j].row, 0)
    {
      if j == k {
        assert c[k].column == b[k].column && c[k].row == b[k].row;
      }
    }
  }

  /** The loop leaves every in-grid box of the block, from offset n on, opened or flagged. */
  lemma {:induction false} CompleteNeighboursEffect(b: Board, x: int, y: int, n: nat)
    requires Layout(b) && n <= 9
    ensures var r := CompleteNeighbours(b, x, y, n);
      && Outcome(b, r)
      && Closure(b.boxes, r.boxes)
      && Settled(r.boxes, x, y, n)
    decreases |Closed(b.boxes)|, 1, 9 - n
  {
    var r := CompleteNeighbours(b, x, y, n);
    if n == 9 {
      OutcomeRefl(b);
      ClosureRefl(b.boxes);
      SettledEnd(b.boxes, x, y);
    } else {
      var nb := Neighbour(b, x, y, n);
      var b1 := if nb.Some? then CompleteBox(b, nb.value) else b;
      if nb.Some? {
        CompleteBoxEffect(b, nb.value);
      } else {
        OutcomeRefl(b);
        ClosureRefl(b.boxes);
      }
      OpensRefl(b.boxes);
      assert r == CompleteNeighbours(b1, x, y, n + 1);
      CompleteNeighboursEffect(b1, x, y, n + 1);
      OutcomeTrans(b, b1, r);
      ClosureTrans(b.boxes, b1.boxes, r.boxes);
      NeighbourSettled(b, b1, r, x, y, n);
    }
  }

  /** The step of the loop: the box at offset n is opened or flagged, and stays so. */
  lemma NeighbourSettled(b: Board, b1: Board, r: Board, x: int, y: int, n: nat)
    requires Layout(b) && n < 9
    requires var nb := Neighbour(b, x, y, n);
      nb.Some? ==> nb.value < |b1.boxes| && (b1.boxes[nb.value].flag == Complete || b1.boxes[nb.value].flag == Flag)
    requires Opens(b.boxes, b1.boxes) && Opens(b1.boxes, r.boxes)
    requires Settled(r.boxes, x, y, n + 1)
    ensures Settled(r.boxes, x, y, n)
  {
    OpensTrans(b.boxes, b1.boxes, r.boxes);
    forall m | 0 <= m < |r.boxes| && Near(r.boxes[m].column, r.boxes[m].row, x, y)
                && OffsetIndex(r.boxes[m].column - x, r.boxes[m].row - y) >= n
      ensures r.boxes[m].flag == Complete || r.boxes[m].flag == Flag
    {
      if OffsetIndex(r.boxes[m].column - x, r.boxes[m].row - y) == n {
        assert b.boxes[m].column == r.boxes[m].column && b.boxes[m].row == r.boxes[m].row;
        NeighbourIs(b, x, y, n, m);
      }
    }
  }

  /** The box at offset n of the block around (x, y), if that offset is on the board. */
  function Neighbour(b: Board, x: int, y: int, n: nat): (nb: Option<nat>)
    requires Layout(b) && n < 9
    ensures nb.Some? ==> nb.value < |b.boxes|
    ensures nb.Some? ==> Near(b.boxes[nb.value].column, b.boxes[nb.value].row, x, y)
  {
    At(b, x + BlockOffsets[n].0, y + BlockOffsets[n].1)
  }

  /** A box of the block is the neighbour the loop visits at its offset. */
  lemma NeighbourIs(b: Board, x: int, y: int, n: nat, m: nat)
    requires Layout(b) && n < 9 && m < |b.boxes|
    requires Near(b.boxes[m].column, b.boxes[m].row, x, y)
    requires OffsetIndex(b.boxes[m].column - x, b.boxes[m].row - y) == n
    ensures Neighbour(b, x, y, n) == Some(m)
  {
    var dx, dy := b.boxes[m].column - x, b.boxes[m].row - y;
    BlockOffsetsVisitBlock(dx, dy);
    IdxOfBox(b.boxes, b.cols, b.rows, m);
  }


  // The cascade opens nothing it should not: every box it opens is the one
  // clicked or lies in the block of an opened box with count 0.

  /** Box j lies in the block of some box with count 0 that the reveal opened. */
  ghost predicate Spreads(a: seq<Box>, c: seq<Box>, j: nat)
    requires j < |c|
  {
    exists i :: i in Opened(a, c) && i < |c| && c[i].minesAround == 0
                && Near(c[j].column, c[j].row, c[i].column, c[i].row)
  }

  ghost predicate ReachedAround(a: seq<Box>, c: seq<Box>, x: int, y: int)
  {
    forall j :: j in Opened(a, c) && j < |c| ==> Near(c[j].column, c[j].row, x, y) || Spreads(a, c, j)
  }

  ghost predicate ReachedFrom(a: seq<Box>, c: seq<Box>, k: nat)
  {
    forall j :: j in Opened(a, c) && j < |c| ==> j == k || Spreads(a, c, j)
  }

  lemma SpreadsGrow(a: seq<Box>, b: seq<Box>, c: seq<Box>, j: nat)
    requires Opens(a, b) && Opens(b, c) && j < |c|
    requires Spreads(a, b, j) || Spreads(b, c, j)
    ensures Spreads(a, c, j)
  {
    OpensTrans(a, b, c);
    if Spreads(a, b, j) {
      var i :| i in Opened(a, b) && i < |b| && b[i].minesAround == 0
                && Near(b[j].column, b[j].row, b[i].column, b[i].row);
      assert i in Opened(a, c) && c[i].minesAround == 0;
      assert c[i].column == b[i].column && c[i].row == b[i].row && c[j].column == b[j].column && c[j].row == b[j].row;
    } else {
      var i :| i in Opened(b, c) && i < |c| && c[i].minesAround == 0
                && Near(c[j].column, c[j].row, c[i].column, c[i].row);
      assert i in Opened(a, c);
    }
  }

  /** Every box `CompleteBox(k)` opens is k itself or next to an opened box with count 0. */
  lemma {:induction false} CompleteBoxReach(b: Board, k: nat)
    requires Layout(b) && k < |b.boxes|
    ensures ReachedFrom(b.boxes, CompleteBox(b, k).boxes, k)
    decreases |Closed(b.boxes)|, 0
  {
    var box := b.boxes[k];
    var r := CompleteBox(b, k);
    if box.flag == Complete || box.flag == Flag {
      assert Opened(b.boxes, r.boxes) == {};
    } else {
      var b1 := Open(b, k);
      if box.minesAround == 0 {
        CompleteNeighboursReach(b1, box.column, box.row, 0);
        OpensTrans(b.boxes, b1.boxes, r.boxes);
        forall j | j in Opened(b.boxes, r.boxes) && j < |r.boxes| && j != k
          ensures Spreads(b.boxes, r.boxes, j)
        {
          assert j in Opened(b1.boxes, r.boxes);
          if Near(r.boxes[j].column, r.boxes[j].row, box.column, box.row) {
            assert k in Opened(b.boxes, r.boxes) && r.boxes[k] == box.(flag := Complete);
          } else {
            SpreadsGrow(b.boxes, b1.boxes, r.boxes, j);
          }
        }
      }
    }
  }

  /** Every box the loop opens lies in the block of (x, y) or next to an opened box with count 0. */
  lemma {:induction false} CompleteNeighboursReach(b: Board, x: int, y: int, n: nat)
    requires Layout(b) && n <= 9
    ensures ReachedAround(b.boxes, CompleteNeighbours(b, x, y, n).boxes, x, y)
    decreases |Closed(b.boxes)|, 1, 9 - n
  {
    var r := CompleteNeighbours(b, x, y, n);
    if n == 9 {
      assert Opened(b.boxes, r.boxes) == {};
    } else {
      var nb := Neighbour(b, x, y, n);
      var b1 := if nb.Some? then CompleteBox(b, nb.value) else b;
      if nb.Some? {
        CompleteBoxReach(b, nb.value);
        FromIsAround(b.boxes, b1.boxes, nb.value, x, y);
      } else {
        OpensRefl(b.boxes);
        assert Opened(b.boxes, b1.boxes) == {};
      }
      CompleteNeighboursReach(b1, x, y, n + 1);
      AroundTrans(b.boxes, b1.boxes, CompleteNeighbours(b1, x, y, n + 1).boxes, x, y);
    }
  }

  lemma FromIsAround(a: seq<Box>, b: seq<Box>, k: nat, x: int, y: int)
    requires Opens(a, b) && k < |b| && ReachedFrom(a, b, k)
    requires Near(b[k].column, b[k].row, x, y)
    ensures ReachedAround(a, b, x, y)
  {
  }

  lemma AroundTrans(a: seq<Box>, b: seq<Box>, c: seq<Box>, x: int, y: int)
    requires Opens(a, b) && Opens(b, c)
    requires ReachedAround(a, b, x, y) && ReachedAround(b, c, x, y)
    ensures ReachedAround(a, c, x, y)
  {
    OpensTrans(a, b, c);
    forall j | j in Opened(a, c) && j < |c| && !Near(c[j].column, c[j].row, x, y)
      ensures Spreads(a, c, j)
    {
      assert c[j].column == b[j].column && c[j].row == b[j].row;
      SpreadsGrow(a, b, c, j);
    }
  }
}
