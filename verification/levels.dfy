/**
 * The board-size checks of both front ends: `Board::CheckLevel` of the Win32
 * program, run on the size read from the registry or typed into the custom
 * dialog, and the OK handler of the WPF custom dialog. Both clamp the rows to
 * 9..24, the columns to 9..30 and the mines to 10..(cols-1)(rows-1), in
 * that order, so the mine bound uses the clamped size.
 */
module Levels {
  import opened Common

  /** A size both programs accept unchanged. */
  predicate Legal(l: Level)
  {
    && BeginnerRows <= l.rows <= MaxRows
    && BeginnerCols <= l.cols <= MaxCols
    && BeginnerMines <= l.mines <= (l.cols - 1) * (l.rows - 1)
  }

  /** `if (v < lo) v = lo; if (v > hi) v = hi;` */
  function Clamp(v: int, lo: int, hi: int): (r: int)
    requires lo <= hi
    ensures lo <= r <= hi
    ensures lo <= v <= hi ==> r == v
    ensures v < lo ==> r == lo
    ensures v > hi ==> r == hi
  {
    var up := if v < lo then lo else v;
    if up > hi then hi else up
  }

  /** The size fields of the Win32 board are unsigned. */
  predicate Unsigned(l: Level)
  {
    l.cols >= 0 && l.rows >= 0 && l.mines >= 0
  }

  /**
   * `CheckLevel`: rows, then columns, then mines are pulled into range; the
   * upper mine bound leaves at least one row and one column free of mines.
   */
  function CheckLevel(l: Level): (r: Level)
    requires Unsigned(l)
    ensures Legal(r)
    ensures Legal(l) ==> r == l
    ensures r.mines < r.cols * r.rows
  {
    var rows := Clamp(l.rows, BeginnerRows, MaxRows);
    var cols := Clamp(l.cols, BeginnerCols, MaxCols);
    MineBoundFits(cols, rows);
    var mines := Clamp(l.mines, BeginnerMines, (cols - 1) * (rows - 1));
    Level(cols, rows, mines)
  }

  /** On the smallest board the mine bound is 64, and it stays below the number of boxes. */
  lemma MineBoundFits(cols: int, rows: int)
    requires BeginnerCols <= cols && BeginnerRows <= rows
    ensures 64 <= (cols - 1) * (rows - 1) < cols * rows
  {
    assert (cols - 1) * (rows - 1) == cols * rows - cols - rows + 1;
    assert (cols - 1) * (rows - 1) >= 8 * (rows - 1) by {
      MulMono(cols - 1, 8, rows - 1);
    }
  }

  /** A legal size is exactly one the check leaves alone, and checking twice is checking once. */
  lemma CheckLevelFixesLegal(l: Level)
    requires Unsigned(l)
    ensures CheckLevel(l) == l <==> Legal(l)
    ensures CheckLevel(CheckLevel(l)) == CheckLevel(l)
  {
  }

  /** Each field moves only as far as its bound demands: an in-range field keeps its value. */
  lemma CheckLevelKeepsInRange(l: Level)
    requires Unsigned(l)
    ensures BeginnerRows <= l.rows <= MaxRows ==> CheckLevel(l).rows == l.rows
    ensures BeginnerCols <= l.cols <= MaxCols ==> CheckLevel(l).cols == l.cols
    ensures BeginnerMines <= l.mines <= (CheckLevel(l).cols - 1) * (CheckLevel(l).rows - 1) ==> CheckLevel(l).mines == l.mines
  {
  }

  /** Every fixed difficulty passes the check unchanged. */
  lemma PresetsPassCheck(d: Difficulty)
    requires d != Custom
    ensures CheckLevel(Preset(d)) == Preset(d)
  {
    PresetsAreLegal(d);
  }

  /**
   * The OK button of the WPF custom dialog: the same clamps on the signed
   * `int` properties, and the dialog then closes with result true.
   */
  function CustomDialogOk(l: Level): (r: (Level, bool))
    ensures Legal(r.0) && r.1
    ensures r.0.mines < r.0.cols * r.0.rows
    ensures Legal(l) ==> r.0 == l
  {
    var rows := Clamp(l.rows, 9, 24);
    var cols := Clamp(l.cols, 9, 30);
    MineBoundFits(cols, rows);
    var mines := Clamp(l.mines, 10, (cols - 1) * (rows - 1));
    (Level(cols, rows, mines), true)
  }

  /** Both front ends agree on every size the Win32 fields can hold. */
  lemma CustomDialogIsCheckLevel(l: Level)
    requires Unsigned(l)
    ensures CustomDialogOk(l).0 == CheckLevel(l)
  {
  }

  /** The dialog is idempotent: pressing OK again on its result changes nothing. */
  lemma CustomDialogIsIdempotent(l: Level)
    ensures CustomDialogOk(CustomDialogOk(l).0).0 == CustomDialogOk(l).0
  {
  }
}
