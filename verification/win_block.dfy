/**
 * Counting over the 3x3 block of the Win32 engine: the `for i / for j`
 * loops that count mines when labelling and flags before a chord. The loop
 * visits the nine offsets in `BlockOffsets` order, the box itself included;
 * the reference count is the set of matching boxes whose position lies in the
 * block.
 */
module WinBlock {
  import opened Common
  import opened WinBoard

  predicate IsMine(c: Cell)
  {
    c.isMine
  }

  predicate IsFlag(c: Cell)
  {
    c.flag == Flag
  }

  /** Boxes matching `pick` among the offsets n.. of the block around (x, y), counted as the loop does. */
  function CountFrom(grid: map<Pos, Cell>, pick: Cell -> bool, x: int, y: int, n: nat): (c: nat)
    requires n <= 9
    ensures c <= 9 - n
    decreases 9 - n
  {
    if n == 9 then 0
    else
      var p := (x + BlockOffsets[n].0, y + BlockOffsets[n].1);
      var here := if p in grid && pick(grid[p]) then 1 else 0;
      here + CountFrom(grid, pick, x, y, n + 1)
  }

  /** When the box itself does not match, the count is at most 8. */
  lemma {:induction false} CountFromWithoutCentre(grid: map<Pos, Cell>, pick: Cell -> bool, x: int, y: int, n: nat)
    requires n <= 4
    requires (x, y) in grid && !pick(grid[(x, y)])
    ensures CountFrom(grid, pick, x, y, n) <= 8 - n
    decreases 4 - n
  {
    if n < 4 {
      CountFromWithoutCentre(grid, pick, x, y, n + 1);
    } else {
      assert BlockOffsets[4] == (0, 0);
    }
  }

  /** The reference count: matching boxes in the 3x3 block around (x, y), (x, y) itself included. */
  ghost function BlockWith(grid: map<Pos, Cell>, pick: Cell -> bool, x: int, y: int): set<Pos>
  {
    set p | p in grid && pick(grid[p]) && Near(p.0, p.1, x, y)
  }

  ghost function BlockWithFrom(grid: map<Pos, Cell>, pick: Cell -> bool, x: int, y: int, n: int): set<Pos>
  {
    set p | p in grid && pick(grid[p]) && Near(p.0, p.1, x, y) && OffsetIndex(p.0 - x, p.1 - y) >= n
  }

  /** Mines of the block: what a box's count stands for. */
  ghost function BlockMines(grid: map<Pos, Cell>, x: int, y: int): set<Pos>
  {
    BlockWith(grid, IsMine, x, y)
  }

  /** Flags of the block: what a chord compares with the count. */
  ghost function BlockFlags(grid: map<Pos, Cell>, x: int, y: int): set<Pos>
  {
    BlockWith(grid, IsFlag, x, y)
  }

  /** The box the loop looks at in step n, if it matches. */
  ghost function StepWith(grid: map<Pos, Cell>, pick: Cell -> bool, x: int, y: int, n: int): set<Pos>
    requires 0 <= n < 9
  {
    var p := (x + BlockOffsets[n].0, y + BlockOffsets[n].1);
    if p in grid && pick(grid[p]) then {p} else {}
  }

  lemma StepWithInBlock(grid: map<Pos, Cell>, pick: Cell -> bool, x: int, y: int, n: int)
    requires 0 <= n < 9
    ensures StepWith(grid, pick, x, y, n) <= BlockWithFrom(grid, pick, x, y, n)
    ensures StepWith(grid, pick, x, y, n) !! BlockWithFrom(grid, pick, x, y, n + 1)
  {
    BlockOffsetAt(n);
  }

  lemma BlockFromSplit(grid: map<Pos, Cell>, pick: Cell -> bool, x: int, y: int, n: int, p: Pos)
    requires 0 <= n < 9
    requires p in BlockWithFrom(grid, pick, x, y, n)
    ensures p in StepWith(grid, pick, x, y, n) || p in BlockWithFrom(grid, pick, x, y, n + 1)
  {
    if OffsetIndex(p.0 - x, p.1 - y) == n {
      BlockOffsetsVisitBlock(p.0 - x, p.1 - y);
    }
  }

  lemma BlockFromEnd(grid: map<Pos, Cell>, pick: Cell -> bool, x: int, y: int)
    ensures BlockWithFrom(grid, pick, x, y, 9) == {}
  {
    forall p | p in BlockWithFrom(grid, pick, x, y, 9) ensures false {
      BlockOffsetsVisitBlock(p.0 - x, p.1 - y);
    }
  }

  lemma BlockFromStart(grid: map<Pos, Cell>, pick: Cell -> bool, x: int, y: int)
    ensures BlockWithFrom(grid, pick, x, y, 0) == BlockWith(grid, pick, x, y)
  {
    forall p | p in BlockWith(grid, pick, x, y) ensures OffsetIndex(p.0 - x, p.1 - y) >= 0 {
      BlockOffsetsVisitBlock(p.0 - x, p.1 - y);
    }
  }

  lemma {:induction false} CountFromIsBlockWith(grid: map<Pos, Cell>, pick: Cell -> bool, x: int, y: int, n: nat)
    requires n <= 9
    ensures CountFrom(grid, pick, x, y, n) == |BlockWithFrom(grid, pick, x, y, n)|
    decreases 9 - n
  {
    if n == 9 {
      BlockFromEnd(grid, pick, x, y);
    } else {
      CountFromIsBlockWith(grid, pick, x, y, n + 1);
      var here := StepWith(grid, pick, x, y, n);
      var rest := BlockWithFrom(grid, pick, x, y, n + 1);
      StepWithInBlock(grid, pick, x, y, n);
      forall p | p in BlockWithFrom(grid, pick, x, y, n) ensures p in here + rest {
        BlockFromSplit(grid, pick, x, y, n, p);
      }
      assert BlockWithFrom(grid, pick, x, y, n) == here + rest;
      assert CountFrom(grid, pick, x, y, n) == |here| + CountFrom(grid, pick, x, y, n + 1);
    }
  }

  /** The loop counts exactly the matching boxes of the block. */
  lemma CountIsBlockWith(grid: map<Pos, Cell>, pick: Cell -> bool, x: int, y: int)
    ensures CountFrom(grid, pick, x, y, 0) == |BlockWith(grid, pick, x, y)|
  {
    CountFromIsBlockWith(grid, pick, x, y, 0);
    BlockFromStart(grid, pick, x, y);
  }

  /** The block's matching boxes only depend on the boxes that match. */
  lemma BlockWithSame(a: map<Pos, Cell>, b: map<Pos, Cell>, pick: Cell -> bool, x: int, y: int)
    requires a.Keys == b.Keys
    requires forall p :: p in a ==> pick(a[p]) == pick(b[p])
    ensures BlockWith(a, pick, x, y) == BlockWith(b, pick, x, y)
  {
  }
}
