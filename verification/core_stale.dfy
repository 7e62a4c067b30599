/**
 * A selection left over from before a rebuild, as the managed engine has it.
 *
 * `Build` empties the box list and fills it with new box objects, but it
 * never touches `SelectedBox`. A box pressed before a new game is started
 * (`BoxPress`, then `NewGame` before the button comes up) therefore stays
 * selected although it is no longer on the board, and the release that
 * follows works on that dropped box: placement keeps no box of the new list
 * free, the countdown counts the dropped box, and its old count of 0
 * cascades into the new list around its old coordinates.
 *
 * The rest of the model uses `CoreBoard.Build`, which drops the selection;
 * this module models the code as written and shows what goes wrong.
 */
module CoreStale {
  import opened Common
  import opened CoreBoard
  import opened CoreMines
  import opened CoreReveal
  import opened CoreGame
  import opened CoreValid

  /** A rebuilt board and the box object `SelectedBox` still refers to, if any. */
  datatype Kept = Kept(board: Board, stale: Option<Box>)

  /** `Build` as written: the list is rebuilt, and the selected box object survives outside it. */
  function BuildKeepingSelection(b: Board): (k: Kept)
    requires SelectionOk(b)
    ensures k.board == Build(b).board && k.board.selected == None
    ensures k.stale.Some? <==> b.selected.Some?
    ensures b.selected.Some? ==> k.stale.value == b.boxes[b.selected.value]
  {
    Kept(Build(b).board, if b.selected.Some? then Some(b.boxes[b.selected.value]) else None)
  }

  /**
   * `PlaceMines` when `SelectedBox` is not in the list: its temporary mine
   * bit is set and cleared on the dropped box, so every box of the list may
   * be drawn.
   */
  function PlaceAnywhere(b: Board, draws: seq<(int, int)>): (r: Board)
    requires Layout(b) && DrawsInGrid(draws, b.cols, b.rows)
    ensures Layout(r) && r == b.(boxes := r.boxes)
    ensures forall j :: 0 <= j < |r.boxes| ==>
      r.boxes[j].flag == b.boxes[j].flag && r.boxes[j].column == b.boxes[j].column && r.boxes[j].row == b.boxes[j].row
    ensures Mines(b.boxes) <= Mines(r.boxes)
  {
    var spread := Spread(b.boxes, b.cols, b.rows, draws, b.mines);
    var labelled := Label(spread, b.cols, b.rows);
    assert Mines(labelled) == Mines(spread);
    b.(boxes := labelled)
  }

  /**
   * `CompleteBox` on the dropped box: it is marked opened (on the dropped
   * object only), a mine loses, a safe box counts the countdown down although
   * the list holds no such box, and a count of 0 completes the block around
   * its old coordinates through the indexer.
   */
  function CompleteStale(b: Board, stale: Box): (r: Board)
    requires Layout(b)
    ensures Layout(r) && SameGame(r, b) && Opens(b.boxes, r.boxes)
  {
    if stale.flag == Complete || stale.flag == Flag then OpensRefl(b.boxes); b
    else
      var status := if stale.isMine then GameOver else b.status;
      var left := if !stale.isMine && b.status != GameOver then b.boxesLeft - 1 else b.boxesLeft;
      var counted := b.(status := status, boxesLeft := left);
      OpensRefl(b.boxes);
      if stale.minesAround == 0 then CompleteNeighbours(counted, stale.column, stale.row, 0) else counted
  }

  /**
   * `BoxUpdate(true)` as written when `SelectedBox` is a dropped box: the
   * first release starts the game and places the mines with no box of the
   * list kept free, the dropped box is completed, and the loss reveal or the
   * win check follows; the selection is then cleared.
   */
  function StaleRelease(b: Board, stale: Box, draws: seq<(int, int)>): (s: Step)
    requires Layout(b) && b.selected.None? && DrawsInGrid(draws, b.cols, b.rows)
    ensures Layout(s.board) && s.board.selected == None
    ensures b.status == Won || b.status == GameOver ==> s == Step(b, [])
  {
    if b.status == Won || b.status == GameOver then Step(b, [])
    else
      var first := b.status != Playing;
      var start := if first then PlaceAnywhere(b.(status := Playing), draws) else b;
      var box := if first then stale.(isMine := false) else stale;
      var o := CompleteStale(start, box);
      var after := Settle(o, if first then [TimerStarted] else []);
      Step(after.board.(selected := None), after.notes)
  }

  /** Placement with nothing kept free puts the first mine at the first draw's position. */
  lemma FirstDrawIsMine(b: Board, draws: seq<(int, int)>, k: nat)
    requires Layout(b) && DrawsInGrid(draws, b.cols, b.rows)
    requires b.mines >= 1 && |draws| > 0 && k == DrawPos(draws, b.cols, b.rows, 0)
    requires k < |b.boxes| && !b.boxes[k].isMine
    ensures k in Mines(PlaceAnywhere(b, draws).boxes)
  {
    var marked := b.boxes[k := b.boxes[k].(isMine := true)];
    assert k in Mines(marked);
    var spread := Spread(b.boxes, b.cols, b.rows, draws, b.mines);
    assert spread == Spread(marked, b.cols, b.rows, draws[1..], b.mines - 1);
    var labelled := Label(spread, b.cols, b.rows);
    assert Mines(labelled) == Mines(spread);
  }

  /**
   * As written, the first release after a rebuild can lose. When the dropped
   * box counted 0 and the first draw names its old coordinates, placement
   * puts a mine there (nothing keeps it free), and the cascade around the
   * dropped box opens it.
   */
  lemma StaleFirstReleaseLoses(b: Board, stale: Box, draws: seq<(int, int)>)
    requires Layout(b) && b.selected.None? && DrawsInGrid(draws, b.cols, b.rows)
    requires b.status == Waiting && b.mines >= 1
    requires forall j :: 0 <= j < |b.boxes| ==> b.boxes[j].flag == Normal && !b.boxes[j].isMine
    requires stale.flag == Normal && stale.minesAround == 0
    requires |draws| > 0 && draws[0] == (stale.column, stale.row)
    ensures StaleRelease(b, stale, draws).board.status == GameOver
  {
    var x, y := stale.column, stale.row;
    var k := Idx(b.cols, b.rows, x, y);
    IdxFinds(b.boxes, b.cols, b.rows, x, y);
    var w := b.(status := Playing);
    var start := PlaceAnywhere(w, draws);
    FirstDrawIsMine(w, draws, k);
    assert start.boxes[k].column == x && start.boxes[k].row == y && start.boxes[k].flag == Normal;
    var counted := start.(boxesLeft := start.boxesLeft - 1);
    var o := CompleteNeighbours(counted, x, y, 0);
    StaleCascades(start, stale.(isMine := false));
    CascadeHitsMine(counted, x, y, k);
    StaleFirstRelease(b, stale, draws);
  }

  /** The first release after a rebuild loses exactly when completing the dropped box on the new layout does. */
  lemma StaleFirstRelease(b: Board, stale: Box, draws: seq<(int, int)>)
    requires Layout(b) && b.selected.None? && DrawsInGrid(draws, b.cols, b.rows) && b.status == Waiting
    ensures var o := CompleteStale(PlaceAnywhere(b.(status := Playing), draws), stale.(isMine := false));
      StaleRelease(b, stale, draws).board.status == GameOver <==> o.status == GameOver
  {
  }

  /** A safe dropped box with count 0 is counted down and cascades around its old coordinates. */
  lemma StaleCascades(b: Board, stale: Box)
    requires Layout(b) && b.status != GameOver
    requires stale.flag == Normal && !stale.isMine && stale.minesAround == 0
    ensures CompleteStale(b, stale) == CompleteNeighbours(b.(boxesLeft := b.boxesLeft - 1), stale.column, stale.row, 0)
  {
  }

  /** The block loop around (x, y) opens the unmarked mine at (x, y) and so loses. */
  lemma CascadeHitsMine(b: Board, x: int, y: int, k: nat)
    requires Layout(b) && k < |b.boxes|
    requires b.boxes[k].column == x && b.boxes[k].row == y
    requires b.boxes[k].flag == Normal && b.boxes[k].isMine
    ensures CompleteNeighbours(b, x, y, 0).status == GameOver
  {
    var o := CompleteNeighbours(b, x, y, 0);
    CompleteNeighboursEffect(b, x, y, 0);
    SettledAtCentre(b.boxes, o.boxes, x, y, k);
    OpenedMineLoses(b, o, k);
  }

  /** A reveal that opened a mine has ended the game. */
  lemma OpenedMineLoses(b: Board, r: Board, k: nat)
    requires Outcome(b, r) && k in Opened(b.boxes, r.boxes) && k < |b.boxes| && b.boxes[k].isMine
    ensures r.status == GameOver
  {
    assert k in Opened(b.boxes, r.boxes) * Mines(b.boxes);
  }

  /** A block settled from offset 0 has its centre box opened or flagged; an unflagged one was opened. */
  lemma SettledAtCentre(a: seq<Box>, c: seq<Box>, x: int, y: int, k: nat)
    requires Opens(a, c) && Settled(c, x, y, 0) && k < |a|
    requires a[k].column == x && a[k].row == y && a[k].flag == Normal
    ensures k in Opened(a, c)
  {
    assert Near(x, y, x, y) && OffsetIndex(0, 0) >= 0;
    assert c[k].column == x && c[k].row == y;
  }

  /**
   * The sequence a player can produce: press an unopened box of a game that
   * waits for its first click, start a new game before releasing, then
   * release. With a first draw at the pressed box's coordinates, the first
   * release of the new game loses.
   */
  lemma PressRebuildReleaseLoses(b: Board, k: nat, draws: seq<(int, int)>)
    requires Valid(b) && b.status == Waiting && k < |b.boxes| && b.boxes[k].flag == Normal
    requires b.mines >= 1
    requires DrawsInGrid(draws, b.cols, b.rows)
    requires |draws| > 0 && draws[0] == (b.boxes[k].column, b.boxes[k].row)
    ensures var pressed := BoxPress(b, k).board;
      var kept := BuildKeepingSelection(pressed);
      && kept.stale == Some(b.boxes[k])
      && StaleRelease(kept.board, kept.stale.value, draws).board.status == GameOver
  {
    var pressed := BoxPress(b, k).board;
    var kept := BuildKeepingSelection(pressed);
    StaleFirstReleaseLoses(kept.board, b.boxes[k], draws);
  }

  /**
   * As written, a dropped box with a count other than 0 is counted down
   * without any box of the new list being opened, so the countdown runs one
   * ahead of the closed safe boxes; with one safe box left the game is won
   * at once.
   */
  lemma StaleReleaseMiscounts(b: Board, stale: Box, draws: seq<(int, int)>)
    requires Layout(b) && b.selected.None? && DrawsInGrid(draws, b.cols, b.rows)
    requires b.status == Waiting
    requires stale.flag == Normal && stale.minesAround != 0
    ensures var s := StaleRelease(b, stale, draws).board;
      && Opened(b.boxes, s.boxes) == {}
      && s.boxesLeft == b.boxesLeft - 1
      && s.status == (if b.boxesLeft == 1 then Won else Playing)
  {
    var start := PlaceAnywhere(b.(status := Playing), draws);
    var o := start.(boxesLeft := start.boxesLeft - 1);
    assert CompleteStale(start, stale.(isMine := false)) == o;
    assert Opened(b.boxes, o.boxes) == {};
  }

  /**
   * With the selection dropped by the rebuild, as `CoreBoard.Build` does, the
   * release after a new game opens nothing and the game keeps waiting for
   * its first click, whose release `FirstClickNeverLoses` then covers.
   */
  lemma ReleaseAfterRebuild(b: Board, draws: seq<(int, int)>)
    requires 0 <= b.mines < Area(b.cols, b.rows)
    requires DrawsInGrid(draws, b.cols, b.rows)
    ensures var r := Build(b).board;
      && Valid(r)
      && BoxUpdate(r, true, draws) == Step(r, [])
  {
    BuildIsValid(b);
  }
}
