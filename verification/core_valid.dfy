/**
 * The invariant the managed engine keeps between input events, and the
 * theorems it yields: the counts are right, the countdown is the number of
 * safe boxes still closed, a lost game has an opened mine, a won game has
 * none closed, and the first click never loses.
 */
module CoreValid {
  import opened Common
  import opened CoreBoard
  import opened CoreMines
  import opened CoreReveal
  import opened CoreGame

  /** Every box's count is the number of mines in its (self-inclusive) block. */
  ghost predicate Counted(boxes: seq<Box>)
  {
    forall k :: 0 <= k < |boxes| ==> boxes[k].minesAround == |BlockMines(boxes, boxes[k].column, boxes[k].row)|
  }

  /** Mines that have been opened. */
  ghost function Exploded(boxes: seq<Box>): set<nat>
  {
    set k | 0 <= k < |boxes| && boxes[k].isMine && boxes[k].flag == Complete
  }

  /** A board before the first click: nothing opened, no mine, no count. */
  ghost predicate Untouched(boxes: seq<Box>)
  {
    forall k :: 0 <= k < |boxes| ==> boxes[k].flag != Complete && !boxes[k].isMine && boxes[k].minesAround == 0
  }

  /** The mines are placed and counted. */
  ghost predicate Placed(b: Board)
  {
    |Mines(b.boxes)| == b.mines && Counted(b.boxes)
  }

  ghost predicate Valid(b: Board)
  {
    && Layout(b) && SelectionOk(b)
    && 0 <= b.mines < Area(b.cols, b.rows)
    && (b.status != Won ==> b.numFlags == |Flags(b.boxes)|)
    && (b.status == GameOver <==> Exploded(b.boxes) != {})
    && match b.status
       case Waiting => Untouched(b.boxes) && b.boxesLeft == b.cols * b.rows - b.mines
       case Playing => Placed(b) && b.boxesLeft == |SafeClosed(b.boxes)| > 0
       case GameOver => Placed(b) && b.boxesLeft >= |SafeClosed(b.boxes)|
       case Won => Placed(b) && b.boxesLeft == 0 && SafeClosed(b.boxes) == {}
  }

  // Facts about box lists that differ only in marks.

  /** Only the marks of unopened boxes differ. */
  predicate Remarked(a: seq<Box>, b: seq<Box>)
  {
    && |a| == |b|
    && forall k :: 0 <= k < |a| ==>
         b[k] == a[k] || (a[k].flag != Complete && b[k].flag != Complete && b[k] == a[k].(flag := b[k].flag))
  }

  lemma RemarkedKeeps(a: seq<Box>, b: seq<Box>)
    requires Remarked(a, b)
    ensures Mines(a) == Mines(b) && Closed(a) == Closed(b) && SafeClosed(a) == SafeClosed(b)
    ensures Exploded(a) == Exploded(b)
    ensures Counted(a) ==> Counted(b)
    ensures Untouched(a) ==> Untouched(b)
    ensures forall cols, rows :: GridLayout(a, cols, rows) ==> GridLayout(b, cols, rows)
  {
    if Counted(a) {
      forall k | 0 <= k < |b|
        ensures b[k].minesAround == |BlockMines(b, b[k].column, b[k].row)|
      {
        BlockMinesSameMines(a, b, b[k].column, b[k].row);
      }
    }
  }

  /** Opening boxes keeps the mines, the counts and the flags. */
  lemma OpensKeeps(a: seq<Box>, b: seq<Box>)
    requires Opens(a, b)
    ensures Mines(a) == Mines(b) && Flags(a) == Flags(b)
    ensures Counted(a) ==> Counted(b)
    ensures SafeClosed(b) == SafeClosed(a) - Opened(a, b)
    ensures Exploded(b) == Exploded(a) + Opened(a, b) * Mines(a)
  {
    if Counted(a) {
      forall k | 0 <= k < |b|
        ensures b[k].minesAround == |BlockMines(b, b[k].column, b[k].row)|
      {
        BlockMinesSameMines(a, b, b[k].column, b[k].row);
      }
    }
  }

  // The first click never loses.

  /**
   * With correct counts, a reveal opens no mine except possibly the clicked
   * box: every other box it opens borders an opened box whose block holds
   * no mine.
   */
  lemma CascadeIsSafe(b: Board, k: nat)
    requires Layout(b) && k < |b.boxes| && Counted(b.boxes)
    ensures Opened(b.boxes, CompleteBox(b, k).boxes) * Mines(b.boxes) <= {k}
  {
    CompleteBoxReach(b, k);
  }

  /** Opening a safe box on a correctly counted board never ends the game. */
  lemma SafeOpenDoesNotLose(b: Board, k: nat)
    requires Layout(b) && k < |b.boxes| && Counted(b.boxes)
    requires !b.boxes[k].isMine && b.status != GameOver
    ensures CompleteBox(b, k).status == b.status
    ensures Opened(b.boxes, CompleteBox(b, k).boxes) * Mines(b.boxes) == {}
  {
    CascadeIsSafe(b, k);
    CompleteBoxEffect(b, k);
    assert k !in Mines(b.boxes);
  }

  /** Placement on an untouched board places `mines` mines, none under the selected box, and counts them. */
  lemma PlacementIsValid(b: Board, draws: seq<(int, int)>)
    requires EnoughDraws(b, draws) && Untouched(b.boxes) && b.mines >= 0
    ensures Placed(PlaceMines(b, draws))
    ensures b.selected.value !in Mines(PlaceMines(b, draws).boxes)
  {
    var p := PlaceMines(b, draws);
    assert Mines(b.boxes) == {};
    PlacementCount(b, draws);
    PlacedLabels(b, draws);
    LabelledFromZero(b.boxes, p.boxes);
  }

  /** Placement opens nothing and sets no mark, so every box but the mines is still to be opened. */
  lemma PlacementOpensNothing(b: Board, draws: seq<(int, int)>)
    requires EnoughDraws(b, draws) && Untouched(b.boxes)
    ensures var p := PlaceMines(b, draws);
      && Exploded(p.boxes) == {} && Flags(p.boxes) == Flags(b.boxes)
      && |SafeClosed(p.boxes)| == |p.boxes| - |Mines(p.boxes)|
  {
    var p := PlaceMines(b, draws);
    assert Flags(p.boxes) == Flags(b.boxes);
    NothingOpened(p.boxes);
  }

  lemma LabelledFromZero(a: seq<Box>, b: seq<Box>)
    requires |a| == |b| && Labelled(a, b)
    requires forall k :: 0 <= k < |a| ==> a[k].minesAround == 0
    ensures Counted(b)
  {
  }

  /** On a board with nothing opened, the safe closed boxes are all boxes but the mines. */
  lemma NothingOpened(boxes: seq<Box>)
    requires forall k :: 0 <= k < |boxes| ==> boxes[k].flag != Complete
    ensures |SafeClosed(boxes)| == |boxes| - |Mines(boxes)|
    ensures Exploded(boxes) == {}
  {
    ClosedAll(boxes);
    assert SafeClosed(boxes) == Closed(boxes) - Mines(boxes);
    assert Mines(boxes) <= Closed(boxes);
  }

  lemma {:induction false} ClosedAll(boxes: seq<Box>)
    requires forall k :: 0 <= k < |boxes| ==> boxes[k].flag != Complete
    ensures |Closed(boxes)| == |boxes|
  {
    if |boxes| > 0 {
      var rest := boxes[..|boxes| - 1];
      ClosedAll(rest);
      assert Closed(boxes) == Closed(rest) + {|boxes| - 1};
    }
  }

  /**
   * The first handled release on a valid board never loses: the mines are
   * placed away from the selected box and the cascade from it opens no mine.
   */
  lemma FirstClickNeverLoses(b: Board, draws: seq<(int, int)>)
    requires Valid(b) && b.status == Waiting && b.selected.Some?
    requires EnoughDraws(b.(status := Playing), draws)
    ensures BoxUpdate(b, true, draws).board.status in {Playing, Won}
  {
    var p := PlaceMines(b.(status := Playing), draws);
    PlacementIsValid(b.(status := Playing), draws);
    PlacementOpensNothing(b.(status := Playing), draws);
    SafeOpenDoesNotLose(p, b.selected.value);
    BoxUpdateUnfold(b, draws);
  }

  // The invariant is kept by every input event.

  /** A game being played whose countdown may already have reached 0 (before the win check). */
  ghost predicate Live(b: Board)
  {
    && Layout(b) && SelectionOk(b)
    && 0 <= b.mines < Area(b.cols, b.rows)
    && b.status == Playing
    && b.numFlags == |Flags(b.boxes)|
    && Exploded(b.boxes) == {}
    && Placed(b) && b.boxesLeft == |SafeClosed(b.boxes)|
  }

  lemma SafeClosedIsClosedMinusMines(boxes: seq<Box>)
    ensures SafeClosed(boxes) == Closed(boxes) - Mines(boxes)
  {
  }

  /** Removing the opened boxes from the safe closed ones removes exactly the safe opened ones. */
  lemma SafeCount(sc: set<nat>, g: set<nat>, m: set<nat>, c: set<nat>)
    requires g <= c && sc == c - m
    ensures |sc - g| == |sc| - |g - m|
  {
    assert sc - g == sc - (g - m);
    SubsetCard(g - m, sc);
    assert sc == (sc - (g - m)) + (g - m);
  }

  /** The countdown after a reveal: what it keeps about the safe boxes still closed. */
  lemma RevealCount(b: Board, k: nat)
    requires Layout(b) && k < |b.boxes|
    ensures var r := CompleteBox(b, k);
      var g := Opened(b.boxes, r.boxes);
      && |SafeClosed(r.boxes)| == |SafeClosed(b.boxes)| - |g - Mines(b.boxes)|
      && SafeClosed(r.boxes) == SafeClosed(b.boxes) - g
      && Exploded(r.boxes) == Exploded(b.boxes) + g * Mines(b.boxes)
      && Mines(r.boxes) == Mines(b.boxes) && Flags(r.boxes) == Flags(b.boxes)
      && (Counted(b.boxes) ==> Counted(r.boxes))
  {
    var r := CompleteBox(b, k);
    OpensKeeps(b.boxes, r.boxes);
    OpensShrinks(b.boxes, r.boxes);
    SafeClosedIsClosedMinusMines(b.boxes);
    SafeCount(SafeClosed(b.boxes), Opened(b.boxes, r.boxes), Mines(b.boxes), Closed(b.boxes));
  }

  /** A reveal that hits a mine leaves a valid lost game. */
  lemma RevealLoses(b: Board, k: nat)
    requires Live(b) && k < |b.boxes|
    requires CompleteBox(b, k).status == GameOver
    ensures Valid(CompleteBox(b, k).(selected := None))
  {
    var r := CompleteBox(b, k);
    CompleteBoxEffect(b, k);
    RevealCount(b, k);
  }

  /** A reveal that hits no mine leaves the game live. */
  lemma RevealStaysLive(b: Board, k: nat)
    requires Live(b) && k < |b.boxes|
    requires CompleteBox(b, k).status != GameOver
    ensures Live(CompleteBox(b, k))
  {
    var r := CompleteBox(b, k);
    CompleteBoxEffect(b, k);
    RevealCount(b, k);
    DisjointMinus(Opened(b.boxes, r.boxes), Mines(b.boxes));
  }

  lemma DisjointMinus<T>(g: set<T>, m: set<T>)
    requires g * m == {}
    ensures g - m == g
  {
    forall x | x in g ensures x !in m {
      assert x in g * m <==> x in m;
    }
  }

  /** The win check on a live game leaves a valid game, won exactly when no safe box is closed. */
  lemma WinCheckIsValid(r: Board)
    requires Live(r)
    ensures Valid(CheckWin(r).board.(selected := None))
    ensures CheckWin(r).board.status == Won <==> SafeClosed(r.boxes) == {}
  {
  }

  /** The first release places the mines and leaves a live game that the opening click does not lose. */
  lemma FirstOpenIsLive(b: Board, draws: seq<(int, int)>)
    requires Valid(b) && b.status == Waiting && b.selected.Some?
    requires EnoughDraws(b.(status := Playing), draws)
    ensures Live(PlaceMines(b.(status := Playing), draws))
    ensures CompleteBox(PlaceMines(b.(status := Playing), draws), b.selected.value).status == Playing
  {
    var w := b.(status := Playing);
    var p := PlaceMines(w, draws);
    PlacementIsValid(w, draws);
    PlacementOpensNothing(w, draws);
    SafeOpenDoesNotLose(p, b.selected.value);
  }

  /** Every release keeps the invariant (the first one given enough draws to place the mines). */
  lemma BoxUpdateKeepsValid(b: Board, handled: bool, draws: seq<(int, int)>)
    requires Valid(b) && DrawsInGrid(draws, b.cols, b.rows)
    requires b.status == Waiting && handled && b.selected.Some? ==> EnoughDraws(b.(status := Playing), draws)
    ensures Valid(BoxUpdate(b, handled, draws).board)
  {
    if b.status == Won || b.status == GameOver || !handled {
    } else {
      BoxUpdateUnfold(b, draws);
      if b.selected.None? {
        assert b.boxesLeft != 0;
      } else {
        var k := b.selected.value;
        var start := if b.status == Playing then b else PlaceMines(b.(status := Playing), draws);
        if b.status == Waiting {
          FirstOpenIsLive(b, draws);
        }
        assert Live(start);
        var r := CompleteBox(start, k);
        assert OpenSelected(b, draws).board == r;
        if r.status == GameOver {
          RevealLoses(start, k);
        } else {
          RevealStaysLive(start, k);
          WinCheckIsValid(r);
        }
      }
    }
  }

  /** Pressing a box keeps the invariant. */
  lemma BoxPressKeepsValid(b: Board, k: nat)
    requires Valid(b) && k < |b.boxes|
    ensures Valid(BoxPress(b, k).board)
  {
  }

  /** A tick keeps the invariant. */
  lemma UpdateTimerKeepsValid(b: Board)
    requires Valid(b)
    ensures Valid(UpdateTimer(b).board)
  {
  }

  /** A right click keeps the invariant, whatever the status. */
  lemma UpdateFlagKeepsValid(b: Board, k: nat)
    requires Valid(b) && k < |b.boxes|
    ensures Valid(UpdateFlag(b, k).board)
  {
    var r := UpdateFlag(b, k).board;
    UpdateFlagTracksFlags(b, k);
    assert Remarked(b.boxes, r.boxes);
    RemarkedKeeps(b.boxes, r.boxes);
  }

  /** A fresh board is valid when its mines leave at least one safe box. */
  lemma BuildIsValid(b: Board)
    requires 0 <= b.mines < Area(b.cols, b.rows)
    ensures Valid(Build(b).board)
  {
    var r := Build(b).board;
    assert Exploded(r.boxes) == {};
  }

  /** Every fixed level starts valid. */
  lemma NewGameIsValid(b: Board, d: Difficulty)
    requires d != Custom
    ensures Valid(NewGame(b, d).board)
  {
    var l := Preset(d);
    BuildIsValid(b.(difficulty := d, cols := l.cols, rows := l.rows, mines := l.mines));
  }

  /** A release of the face button keeps the invariant: a restart at a valid level is valid again. */
  lemma FaceButtonKeepsValid(b: Board, handled: bool)
    requires Valid(b)
    ensures Valid(FaceButtonUpdate(b, handled).board)
  {
    if handled {
      if b.difficulty != Custom {
        NewGameIsValid(b, b.difficulty);
      } else {
        BuildIsValid(b.(difficulty := Custom, cols := b.cols, rows := b.rows, mines := b.mines));
      }
    }
  }
}
