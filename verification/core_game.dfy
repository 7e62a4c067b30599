/**
 * The input handlers of the managed engine: pressing and releasing a box
 * (`BoxPress`, `BoxUpdate`), the win check, the right-click mark cycle
 * (`UpdateFlag`) and the timer tick (`UpdateTimer`).
 *
 * What the engine draws is returned as notes; the face button is not
 * modelled. The counter, timer and win callback are taken to be attached.
 */
module CoreGame {
  import opened Common
  import Images
  import opened CoreBoard
  import opened CoreMines
  import opened CoreReveal

  /** The selection, when there is one, names a box of the list. */
  predicate SelectionOk(b: Board)
  {
    b.selected.Some? ==> b.selected.value < |b.boxes|
  }

  predicate AllBoxNotes(notes: seq<Note>)
  {
    forall i :: 0 <= i < |notes| ==> notes[i].BoxShows?
  }

  /**
   * The notes of a pass over boxes 0..n-1 that draws `pick(box)` for every
   * box where it names an image, in list order.
   */
  function Redraw(boxes: seq<Box>, pick: Box -> Option<Images.MineImage>, n: nat): (notes: seq<Note>)
    requires n <= |boxes|
    ensures AllBoxNotes(notes)
    ensures forall i :: 0 <= i < |notes| ==>
      notes[i].index < n && pick(boxes[notes[i].index]) == Some(notes[i].image)
    ensures forall k: nat, img :: BoxShows(k, img) in notes <==> 0 <= k < n && pick(boxes[k]) == Some(img)
    ensures forall i, j :: 0 <= i < j < |notes| ==> notes[i].index < notes[j].index
  {
    if n == 0 then []
    else
      var rest := Redraw(boxes, pick, n - 1);
      var p := pick(boxes[n - 1]);
      rest + (if p.Some? then [BoxShows(n - 1, p.value)] else [])
  }

  /** On a win, every mine not flagged is drawn as a flag. */
  function WinImage(box: Box): (m: Option<Images.MineImage>)
    ensures m.Some? <==> box.isMine && box.flag != Flag
    ensures m.Some? ==> m.value == Images.Flag
  {
    if box.isMine && box.flag != Flag then Some(Images.Flag) else None
  }

  /**
   * On a loss: unmarked mines show a mine, the opened mine explodes, and a
   * flag on a safe box shows as wrong. Flagged or question-marked mines and
   * all other safe boxes are not redrawn.
   */
  function LossImage(box: Box): (m: Option<Images.MineImage>)
    ensures m == Some(Images.Mine) <==> box.isMine && box.flag == Normal
    ensures m == Some(Images.Explode) <==> box.isMine && box.flag == Complete
    ensures m == Some(Images.Wrong) <==> !box.isMine && box.flag == Flag
    ensures m.Some? ==> m.value in {Images.Mine, Images.Explode, Images.Wrong}
  {
    if box.isMine then
      if box.flag == Normal then Some(Images.Mine)
      else if box.flag == Complete then Some(Images.Explode)
      else None
    else if box.flag == Flag then Some(Images.Wrong)
    else None
  }

  /**
   * `CheckWin`: when no safe box is left the game is won. The flags are only
   * drawn, not set, and only when fewer flags than mines were placed; the
   * flag count becomes the mine count, the counter shows 0, the timer stops
   * and the callback is called outside custom games.
   */
  function CheckWin(b: Board): (s: Step)
    ensures b.boxesLeft != 0 ==> s == Step(b, [])
    ensures b.boxesLeft == 0 ==> s.board == b.(status := Won, numFlags := b.mines)
  {
    if b.boxesLeft != 0 then Step(b, [])
    else
      var flags := if b.numFlags < b.mines then Redraw(b.boxes, WinImage, |b.boxes|) else [];
      Step(b.(status := Won, numFlags := b.mines), flags + [CounterShows(0), TimerStopped] + CallbackNotes(b.difficulty))
  }

  /**
   * What a win draws: the counter as 0, the stopped timer, the callback
   * outside custom games, and a flag on exactly the unflagged mines when
   * fewer flags than mines were placed; no other box.
   */
  lemma CheckWinDraws(b: Board)
    requires b.boxesLeft == 0
    ensures var s := CheckWin(b);
      && CounterShows(0) in s.notes && TimerStopped in s.notes
      && (WinCalled in s.notes <==> b.difficulty != Custom)
      && (forall k :: 0 <= k < |b.boxes| ==>
            (BoxShows(k, Images.Flag) in s.notes <==> b.numFlags < b.mines && b.boxes[k].isMine && b.boxes[k].flag != Flag))
      && (forall i :: 0 <= i < |s.notes| && s.notes[i].BoxShows? ==>
            s.notes[i].image == Images.Flag && s.notes[i].index < |b.boxes|)
  {
    var s := CheckWin(b);
    forall k | 0 <= k < |b.boxes|
      ensures BoxShows(k, Images.Flag) in s.notes <==> b.numFlags < b.mines && b.boxes[k].isMine && b.boxes[k].flag != Flag
    {
      CheckWinFlagAt(b, k);
    }
    forall i | 0 <= i < |s.notes| && s.notes[i].BoxShows?
      ensures s.notes[i].image == Images.Flag && s.notes[i].index < |b.boxes|
    {
      CheckWinNoteAt(b, i);
    }
  }

  lemma CheckWinFlagAt(b: Board, k: nat)
    requires b.boxesLeft == 0 && k < |b.boxes|
    ensures BoxShows(k, Images.Flag) in CheckWin(b).notes <==> b.numFlags < b.mines && b.boxes[k].isMine && b.boxes[k].flag != Flag
  {
    var flags := if b.numFlags < b.mines then Redraw(b.boxes, WinImage, |b.boxes|) else [];
    var tail := [CounterShows(0), TimerStopped] + CallbackNotes(b.difficulty);
    assert CheckWin(b).notes == flags + tail;
    assert BoxShows(k, Images.Flag) !in tail;
  }

  lemma CheckWinNoteAt(b: Board, i: nat)
    requires b.boxesLeft == 0 && i < |CheckWin(b).notes| && CheckWin(b).notes[i].BoxShows?
    ensures CheckWin(b).notes[i].image == Images.Flag && CheckWin(b).notes[i].index < |b.boxes|
  {
    var flags := if b.numFlags < b.mines then Redraw(b.boxes, WinImage, |b.boxes|) else [];
    var tail := [CounterShows(0), TimerStopped] + CallbackNotes(b.difficulty);
    assert CheckWin(b).notes == flags + tail;
  }

  /** The win callback runs only outside custom games. */
  function CallbackNotes(d: Difficulty): (notes: seq<Note>)
    ensures WinCalled in notes <==> d != Custom
    ensures notes == [] || notes == [WinCalled]
  {
    if d != Custom then [WinCalled] else []
  }

  /** The image a pressed box shows. */
  function PressImage(f: FlagType): Images.MineImage
  {
    if f == Question then Images.QuestionPress else Images.MinePress
  }

  /** The image a released but unhandled box shows again. */
  function ReleaseImage(f: FlagType): Images.MineImage
  {
    if f == Question then Images.Question else Images.Box
  }

  /**
   * `BoxPress(box)`: while the game is not finished, select the box unless it
   * is flagged or opened, and draw the selection pressed.
   */
  function BoxPress(b: Board, k: nat): (s: Step)
    requires SelectionOk(b) && k < |b.boxes|
    ensures SelectionOk(s.board)
    ensures s.board == b.(selected := s.board.selected)
    ensures b.status == Won || b.status == GameOver ==> s == Step(b, [])
    ensures s.board.selected != b.selected ==>
      && s.board.selected == Some(k)
      && b.boxes[k].flag != Flag && b.boxes[k].flag != Complete
    ensures b.status != Won && b.status != GameOver && b.boxes[k].flag != Flag && b.boxes[k].flag != Complete ==>
      s.board.selected == Some(k) && s.notes == [BoxShows(k, PressImage(b.boxes[k].flag))]
  {
    if b.status == Won || b.status == GameOver then Step(b, [])
    else
      var sel := if b.boxes[k].flag != Flag && b.boxes[k].flag != Complete then Some(k) else b.selected;
      var notes := if sel.Some? then [BoxShows(sel.value, PressImage(b.boxes[sel.value].flag))] else [];
      Step(b.(selected := sel), notes)
  }

  /** The first handled release: start playing, place the mines away from the selection, start the timer. */
  function StartGame(b: Board, draws: seq<(int, int)>): (s: Step)
    requires Layout(b) && b.selected.Some? && b.selected.value < |b.boxes|
    requires DrawsInGrid(draws, b.cols, b.rows)
    ensures Layout(s.board) && s.board.selected == b.selected
    ensures s.board == PlaceMines(b.(status := Playing), draws)
    ensures s.board.status == Playing && !s.board.boxes[b.selected.value].isMine
    ensures forall k :: 0 <= k < |b.boxes| ==> s.board.boxes[k].flag == b.boxes[k].flag
    ensures s.notes == [TimerStarted]
  {
    Step(PlaceMines(b.(status := Playing), draws), [TimerStarted])
  }

  /** Two box lists with the same marks open and flag the same boxes. */
  lemma SameMarks(a: seq<Box>, a2: seq<Box>, c: seq<Box>)
    requires |a| == |a2| && forall j :: 0 <= j < |a| ==> a[j].flag == a2[j].flag
    ensures Opened(a, c) == Opened(a2, c) && Flags(a) == Flags(a2)
  {
  }

  /**
   * The handled release up to the loss or win check: open the selected box,
   * after starting the game if it is not being played yet. The game is then
   * being played or lost, lost exactly when a mine was opened; the box ends
   * opened unless it carries a flag; no flag changes; and the mines are
   * placed, away from the box, exactly when the game was not being played,
   * which is also exactly when the timer is started.
   */
  function OpenSelected(b: Board, draws: seq<(int, int)>): (s: Step)
    requires Layout(b) && SelectionOk(b)
    requires DrawsInGrid(draws, b.cols, b.rows)
    ensures Layout(s.board) && s.board.selected == b.selected
    ensures s.board.difficulty == b.difficulty && s.board.mines == b.mines
    ensures |s.board.boxes| == |b.boxes|
    ensures b.selected.None? ==> s == Step(b, [])
    ensures b.selected.Some? ==>
      var k := b.selected.value;
      var gone := Opened(b.boxes, s.board.boxes);
      && (s.board.status == Playing || s.board.status == GameOver)
      && (s.board.status == GameOver <==> gone * Mines(s.board.boxes) != {})
      && (s.board.status == Playing ==> s.board.boxesLeft == b.boxesLeft - |gone|)
      && (s.board.boxes[k].flag == Complete <==> b.boxes[k].flag != Flag)
      && Flags(s.board.boxes) == Flags(b.boxes)
      && (s.notes == [TimerStarted] <==> b.status != Playing)
      && (b.status == Playing ==> s.notes == [] && Mines(s.board.boxes) == Mines(b.boxes))
      && (b.status != Playing ==>
            && Mines(s.board.boxes) == Mines(PlaceMines(b.(status := Playing), draws).boxes)
            && k !in Mines(s.board.boxes))
  {
    if b.selected.None? then Step(b, [])
    else
      var k := b.selected.value;
      if b.status == Playing then
        OpenFrom(b, b, k);
        Step(CompleteBox(b, k), [])
      else
        var start := StartGame(b, draws);
        OpenFrom(b, start.board, k);
        Step(CompleteBox(start.board, k), start.notes)
  }

  /** Opening box k of a game being played whose marks are those of b. */
  lemma OpenFrom(b: Board, start: Board, k: nat)
    requires Layout(start) && k < |start.boxes| && |b.boxes| == |start.boxes|
    requires forall j :: 0 <= j < |b.boxes| ==> start.boxes[j].flag == b.boxes[j].flag
    requires start.status == Playing
    ensures var r := CompleteBox(start, k);
      var gone := Opened(b.boxes, r.boxes);
      && |r.boxes| == |b.boxes|
      && (r.status == Playing || r.status == GameOver)
      && (r.status == GameOver <==> gone * Mines(r.boxes) != {})
      && (r.status == Playing ==> r.boxesLeft == start.boxesLeft - |gone|)
      && (r.boxes[k].flag == Complete <==> b.boxes[k].flag != Flag)
      && Flags(r.boxes) == Flags(b.boxes)
      && Mines(r.boxes) == Mines(start.boxes)
  {
    var r := CompleteBox(start, k);
    CompleteBoxEffect(start, k);
    OpensKeepsMines(start.boxes, r.boxes);
    SameMarks(b.boxes, start.boxes, r.boxes);
    OpensKeepsFlags(start.boxes, r.boxes);
  }

  /**
   * `BoxUpdate(handled)`: while the game is not finished, a handled release
   * opens the selected box, then either reveals the mines after a loss or
   * checks for a win; an unhandled release only redraws the selection. The
   * selection is always cleared.
   */
  function BoxUpdate(b: Board, handled: bool, draws: seq<(int, int)>): (s: Step)
    requires Layout(b) && SelectionOk(b)
    requires DrawsInGrid(draws, b.cols, b.rows)
    ensures Layout(s.board) && s.board.selected == None
    ensures b.status == Won || b.status == GameOver ==> s == Step(b.(selected := None), [])
    ensures b.status != Won && b.status != GameOver && !handled ==>
      && s.board == b.(selected := None)
      && s.notes == if b.selected.Some? then [BoxShows(b.selected.value, ReleaseImage(b.boxes[b.selected.value].flag))] else []
  {
    if b.status == Won || b.status == GameOver then Step(b.(selected := None), [])
    else if !handled then
      var notes := if b.selected.Some? then [BoxShows(b.selected.value, ReleaseImage(b.boxes[b.selected.value].flag))] else [];
      Step(b.(selected := None), notes)
    else
      var o := OpenSelected(b, draws);
      var after := Settle(o.board, o.notes);
      Step(after.board.(selected := None), after.notes)
  }

  /** After the opening: on a loss reveal the mines and stop the timer, otherwise check for a win. */
  function Settle(o: Board, notes: seq<Note>): Step
  {
    if o.status == GameOver then
      Step(o, notes + Redraw(o.boxes, LossImage, |o.boxes|) + [TimerStopped])
    else
      var w := CheckWin(o);
      Step(w.board, notes + w.notes)
  }

  /** A handled release unfolded: the opening step followed by the loss reveal or the win check. */
  lemma BoxUpdateUnfold(b: Board, draws: seq<(int, int)>)
    requires Layout(b) && SelectionOk(b)
    requires DrawsInGrid(draws, b.cols, b.rows)
    requires b.status != Won && b.status != GameOver
    ensures var s := BoxUpdate(b, true, draws);
      var o := OpenSelected(b, draws);
      && (o.board.status == GameOver ==>
            s == Step(o.board.(selected := None), o.notes + Redraw(o.board.boxes, LossImage, |o.board.boxes|) + [TimerStopped]))
      && (o.board.status != GameOver ==>
            s == Step(CheckWin(o.board).board.(selected := None), o.notes + CheckWin(o.board).notes))
  {
  }

  /**
   * The outcome of a handled release while the game is not finished: it is
   * lost exactly when the release opened a mine, and won exactly when it
   * opened none and no safe box is left; the timer stops exactly when the
   * game ends, and the win callback runs exactly on a win outside custom
   * games. With a box selected the game no longer waits.
   */
  lemma BoxUpdateHandled(b: Board, draws: seq<(int, int)>)
    requires Layout(b) && SelectionOk(b)
    requires DrawsInGrid(draws, b.cols, b.rows)
    requires b.status != Won && b.status != GameOver
    ensures var s := BoxUpdate(b, true, draws);
      var gone := Opened(b.boxes, s.board.boxes);
      && (s.board.status == GameOver <==> gone * Mines(s.board.boxes) != {})
      && (s.board.status == Won <==> gone * Mines(s.board.boxes) == {} && s.board.boxesLeft == 0)
      && (TimerStopped in s.notes <==> s.board.status == GameOver || s.board.status == Won)
      && (WinCalled in s.notes <==> s.board.status == Won && b.difficulty != Custom)
      && (s.board.status == Won ==> s.board.numFlags == b.mines)
      && (b.selected.Some? ==> s.board.status != Waiting)
  {
    BoxUpdateUnfold(b, draws);
    var o := OpenSelected(b, draws);
    if b.selected.None? {
      assert Opened(b.boxes, b.boxes) == {};
    }
    var red := Redraw(o.board.boxes, LossImage, |o.board.boxes|);
    assert TimerStopped !in red && WinCalled !in red;
    assert TimerStopped !in o.notes && WinCalled !in o.notes;
    if o.board.status != GameOver && o.board.boxesLeft == 0 {
      CheckWinDraws(o.board);
    }
  }

  /** Neither the loss reveal nor the win check starts the timer. */
  lemma AfterOpenStartsNothing(o: Board)
    ensures TimerStarted !in Redraw(o.boxes, LossImage, |o.boxes|) + [TimerStopped]
    ensures TimerStarted !in CheckWin(o).notes
  {
    var red := Redraw(o.boxes, LossImage, |o.boxes|);
    assert forall i :: 0 <= i < |red| ==> red[i] != TimerStarted;
  }

  /** A handled release while playing places no mines and does not start the timer again. */
  lemma BoxUpdateWhilePlaying(b: Board, draws: seq<(int, int)>)
    requires Layout(b) && SelectionOk(b)
    requires DrawsInGrid(draws, b.cols, b.rows)
    requires b.status == Playing && b.selected.Some?
    ensures var s := BoxUpdate(b, true, draws);
      Mines(s.board.boxes) == Mines(b.boxes) && TimerStarted !in s.notes && s.board.status != Waiting
  {
    BoxUpdateUnfold(b, draws);
    AfterOpenStartsNothing(OpenSelected(b, draws).board);
  }

  /** The first handled release places the mines, once, and starts the timer before anything else is drawn. */
  lemma BoxUpdateFirstClick(b: Board, draws: seq<(int, int)>)
    requires Layout(b) && SelectionOk(b)
    requires DrawsInGrid(draws, b.cols, b.rows)
    requires b.status == Waiting && b.selected.Some?
    ensures var s := BoxUpdate(b, true, draws);
      && Mines(s.board.boxes) == Mines(PlaceMines(b.(status := Playing), draws).boxes)
      && s.notes[0] == TimerStarted
      && TimerStarted !in s.notes[1..]
      && s.board.status != Waiting
  {
    BoxUpdateUnfold(b, draws);
    var o := OpenSelected(b, draws);
    AfterOpenStartsNothing(o.board);
    assert o.notes == [TimerStarted];
    var tail := if o.board.status == GameOver
      then Redraw(o.board.boxes, LossImage, |o.board.boxes|) + [TimerStopped]
      else CheckWin(o.board).notes;
    assert BoxUpdate(b, true, draws).notes == [TimerStarted] + tail;
  }

  /** After a loss the release draws every box whose loss image is set, with that image, and stops the timer. */
  lemma BoxUpdateLoss(b: Board, draws: seq<(int, int)>)
    requires Layout(b) && SelectionOk(b)
    requires DrawsInGrid(draws, b.cols, b.rows)
    requires b.status != Won && b.status != GameOver
    requires OpenSelected(b, draws).board.status == GameOver
    ensures var s := BoxUpdate(b, true, draws);
      && s.board.status == GameOver
      && s.notes[|s.notes| - 1] == TimerStopped
      && (forall k :: 0 <= k < |s.board.boxes| && LossImage(s.board.boxes[k]).Some? ==>
            BoxShows(k, LossImage(s.board.boxes[k]).value) in s.notes)
      && WinCalled !in s.notes
  {
    BoxUpdateUnfold(b, draws);
    var o := OpenSelected(b, draws);
    assert WinCalled !in o.notes;
    var red := Redraw(o.board.boxes, LossImage, |o.board.boxes|);
    assert WinCalled !in red;
  }

  /**
   * `FaceButtonUpdate(handled)`: the face image is left out; a handled
   * release of the face button starts a new game at the current level
   * (`NewGame()`), and an unhandled one changes nothing.
   */
  function FaceButtonUpdate(b: Board, handled: bool): (s: Step)
    ensures !handled ==> s == Step(b, [])
    ensures handled ==>
      var r := s.board;
      && Layout(r) && r.status == Waiting && r.time == 0 && r.numFlags == 0 && r.selected == None
      && r.difficulty == b.difficulty && r.markQuestion == b.markQuestion
      && Mines(r.boxes) == {} && Flags(r.boxes) == {}
      && (b.difficulty == Custom ==> r.cols == b.cols && r.rows == b.rows && r.mines == b.mines)
      && (b.difficulty != Custom ==> Level(r.cols, r.rows, r.mines) == Preset(b.difficulty))
      && r.boxesLeft == r.cols * r.rows - r.mines
  {
    if handled then Restart(b) else Step(b, [])
  }

  /** The image a box shows after a right click. */
  function MarkImage(f: FlagType): Images.MineImage
  {
    match f
    case Flag => Images.Flag
    case Question => Images.Question
    case _ => Images.Box
  }

  /**
   * `UpdateFlag(box)`: an opened box is left alone and nothing is drawn;
   * otherwise the mark moves on, the flag count follows, the box is redrawn
   * and the counter shows the mines not yet flagged. The status is not
   * consulted, so marks can still change after the game has ended.
   */
  function UpdateFlag(b: Board, k: nat): (s: Step)
    requires k < |b.boxes|
    ensures b.boxes[k].flag == Complete ==> s == Step(b, [])
    ensures b.boxes[k].flag != Complete ==>
      && s.board == b.(boxes := s.board.boxes, numFlags := s.board.numFlags)
      && s.board.boxes == b.boxes[k := b.boxes[k].(flag := NextMark(b.boxes[k].flag, b.markQuestion))]
      && s.notes == [BoxShows(k, MarkImage(s.board.boxes[k].flag)), CounterShows(b.mines - s.board.numFlags)]
  {
    var box := b.boxes[k];
    if box.flag == Complete then Step(b, [])
    else
      var g := NextMark(box.flag, b.markQuestion);
      var r := b.(boxes := b.boxes[k := box.(flag := g)], numFlags := b.numFlags + MarkDelta(box.flag));
      Step(r, [BoxShows(k, MarkImage(g)), CounterShows(r.mines - r.numFlags)])
  }

  lemma FlagsAfterMark(boxes: seq<Box>, k: nat, g: FlagType)
    requires k < |boxes|
    ensures g == Flag ==> Flags(boxes[k := boxes[k].(flag := g)]) == Flags(boxes) + {k}
    ensures g != Flag ==> Flags(boxes[k := boxes[k].(flag := g)]) == Flags(boxes) - {k}
  {
  }

  /**
   * The flag count moves with the flags on the board: a right click changes
   * `numFlags` by exactly as much as the number of flagged boxes.
   */
  lemma UpdateFlagTracksFlags(b: Board, k: nat)
    requires k < |b.boxes|
    ensures var r := UpdateFlag(b, k).board;
      r.numFlags - |Flags(r.boxes)| == b.numFlags - |Flags(b.boxes)|
    ensures var r := UpdateFlag(b, k).board;
      (r.numFlags == b.numFlags + 1 <==> b.boxes[k].flag == Normal)
      && (r.numFlags == b.numFlags - 1 <==> b.boxes[k].flag == Flag)
  {
    var f := b.boxes[k].flag;
    if f != Complete {
      var g := NextMark(f, b.markQuestion);
      FlagsAfterMark(b.boxes, k, g);
      MarkDeltaTracksFlags(f, b.markQuestion);
      if f == Flag {
        assert k in Flags(b.boxes);
      } else {
        assert k !in Flags(b.boxes);
      }
    }
  }

  /** Clicking a box through its whole mark cycle restores the board and the flag count. */
  lemma UpdateFlagCycle(b: Board, k: nat)
    requires k < |b.boxes| && b.boxes[k].flag == Normal
    ensures var once := UpdateFlag(b, k).board;
      var twice := UpdateFlag(once, k).board;
      if b.markQuestion then UpdateFlag(twice, k).board == b else twice == b
  {
    var once := UpdateFlag(b, k).board;
    var twice := UpdateFlag(once, k).board;
    assert once.boxes[k].flag == Flag;
    if b.markQuestion {
      var thrice := UpdateFlag(twice, k).board;
      assert thrice.boxes == b.boxes;
    } else {
      assert twice.boxes == b.boxes;
    }
  }

  /** `UpdateTimer`: one tick counts a second only while playing. */
  function UpdateTimer(b: Board): (s: Step)
    ensures b.status == Playing ==> s == Step(b.(time := b.time + 1), [TimerShows(b.time + 1)])
    ensures b.status != Playing ==> s == Step(b, [])
  {
    if b.status == Playing then Step(b.(time := b.time + 1), [TimerShows(b.time + 1)]) else Step(b, [])
  }

  function Ticks(b: Board, n: nat): Board
    decreases n
  {
    if n == 0 then b else Ticks(UpdateTimer(b).board, n - 1)
  }

  /** n ticks add n seconds to a game being played and leave any other game alone. */
  lemma {:induction false} TicksCount(b: Board, n: nat)
    ensures b.status == Playing ==> Ticks(b, n) == b.(time := b.time + n)
    ensures b.status != Playing ==> Ticks(b, n) == b
    decreases n
  {
    if n > 0 {
      TicksCount(UpdateTimer(b).board, n - 1);
    }
  }
}
