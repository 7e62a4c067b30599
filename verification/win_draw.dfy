/**
 * The image `Board::DrawMine` picks for a box of the Win32 minefield, and
 * the window placement helper `Board::ShiftBetween`. The drawing itself
 * (device contexts, blitting) is left out; what is modelled is which strip
 * image a box shows and where a window edge pair ends up.
 */
module WinDraw {
  import opened Common
  import opened WinBoard
  import CoreBoard
  import CoreGame
  import Images

  /**
   * The image of one box. After a loss a mine shows a flag when flagged,
   * the explosion when opened, and a plain mine otherwise; a safe box shows a
   * question mark, a crossed-out flag, or the closed box. Otherwise a box
   * shows its mark, pressed when the mouse holds it. An opened safe box
   * finally shows its count in every state.
   */
  function CellImage(status: GameStatus, c: Cell, isPressed: bool): (m: Images.MineImage)
    ensures c.flag == Complete && !c.isMine ==> Images.ImageIndex(m) == c.numMines
    ensures c.flag == Complete && !c.isMine && c.numMines <= 8 ==> m == Images.NumberImage(c.numMines)
  {
    var offset :=
      if status == GameOver then
        if c.isMine then
          match c.flag
          case Flag => Images.Flag
          case Complete => Images.Explode
          case _ => Images.Mine
        else
          match c.flag
          case Question => Images.Question
          case Flag => Images.Wrong
          case _ => Images.Box
      else
        match c.flag
        case Question => if !isPressed then Images.Question else Images.QuestionPress
        case Flag => Images.Flag
        case Normal => if !isPressed then Images.Box else Images.MinePress
        case Complete => Images.Box;
    if c.flag == Complete && !c.isMine then Images.ImageAt(c.numMines) else offset
  }

  /** `DrawMine(col, row, isPressed)` on unsigned coordinates: border positions are not drawn. */
  function DrawMine(g: Game, p: Pos, isPressed: bool): (m: Option<Images.MineImage>)
    requires Shape(g) && p.0 >= 0 && p.1 >= 0
    ensures m.Some? <==> Interior(g.cols, g.rows, p)
    ensures m.Some? && g.grid[p].flag == Complete && !g.grid[p].isMine ==> Images.ImageIndex(m.value) == g.grid[p].numMines
  {
    if p.0 == 0 || p.0 > g.cols || p.1 == 0 || p.1 > g.rows then None
    else
      InteriorInPad(g.cols, g.rows, p);
      Some(CellImage(g.status, g.grid[p], isPressed))
  }

  /**
   * Until the game is lost, a box that is not open shows only its mark and
   * whether it is pressed: two closed boxes with the same mark look alike,
   * mine or not, whatever they count.
   */
  lemma ClosedBoxHidesContents(status: GameStatus, a: Cell, b: Cell, isPressed: bool)
    requires status != GameOver && a.flag == b.flag && a.flag != Complete
    ensures CellImage(status, a, isPressed) == CellImage(status, b, isPressed)
    ensures CellImage(status, a, isPressed) in {Images.Box, Images.MinePress, Images.Flag, Images.Question, Images.QuestionPress}
  {
  }

  /**
   * After a loss every mine is visible (as a flag, the explosion or a mine)
   * and every flag on a safe box is shown as wrong.
   */
  lemma LossShowsMines(c: Cell, isPressed: bool)
    requires c.isMine || c.flag == Flag
    ensures var m := CellImage(GameOver, c, isPressed);
      && (c.isMine ==> m in {Images.Flag, Images.Explode, Images.Mine})
      && (!c.isMine ==> m == Images.Wrong)
  {
  }

  /**
   * The two engines reveal a loss alike wherever the managed core redraws a
   * box, except that a question-marked mine, which the core leaves as it is,
   * shows as a mine here.
   */
  lemma LossImagesAgree(c: Cell, b: CoreBoard.Box)
    requires c.isMine == b.isMine && c.flag == b.flag
    ensures CoreGame.LossImage(b).Some? ==> CellImage(GameOver, c, false) == CoreGame.LossImage(b).value
    ensures c.isMine && c.flag == Question ==> CoreGame.LossImage(b) == None && CellImage(GameOver, c, false) == Images.Mine
  {
  }

  /**
   * `ShiftBetween(x, y, a, b)`: moves the edge pair x..y right so that x is
   * at least a, or else left so that y is at most b, keeping its width.
   */
  function ShiftBetween(x: int, y: int, a: int, b: int): (r: (int, int))
    ensures r.1 - r.0 == y - x
    ensures a <= x && y <= b ==> r == (x, y)
    ensures x < a ==> r.0 == a
    ensures x >= a && y > b ==> r.1 == b
  {
    if x < a then (a, y + (a - x))
    else if y > b then (x - (y - b), b)
    else (x, y)
  }

  /** A pair that fits between a and b ends up inside, and shifting again does nothing. */
  lemma ShiftBetweenFits(x: int, y: int, a: int, b: int)
    requires x <= y && y - x <= b - a
    ensures var r := ShiftBetween(x, y, a, b);
      a <= r.0 && r.1 <= b && ShiftBetween(r.0, r.1, a, b) == r
  {
  }

  /** A pair wider than the range keeps its left edge visible when it starts left of a. */
  lemma ShiftBetweenTooWide(x: int, y: int, a: int, b: int)
    requires y - x > b - a && x < a
    ensures ShiftBetween(x, y, a, b).0 == a && ShiftBetween(x, y, a, b).1 > b
  {
  }
}
