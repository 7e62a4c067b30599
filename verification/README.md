# Minesweeper engines in Dafny

This project models the two game engines of the Minesweeper repository:

- the managed engine `MinesweeperCore/Board.cpp` used by the WPF front end;
- the Win32 engine `winmine/board.cpp`.

It also models the two small helpers of the WPF front end that share logic with the Win32 engine: the custom-size dialog and the LED counter.

Both engines keep a grid of boxes. Each box has a mine bit, a count, and a mark: unmarked, question mark, flag, or opened. Each engine also keeps:

- a game status: waiting, playing, lost, or won;
- a countdown of safe boxes still to open;
- a flag counter and a clock.

Mines are placed lazily on the first opening, never under the clicked box. Every box then counts the mines of its 3x3 block, itself included. Opening a box with count 0 opens its whole block, recursively. Opening a mine loses the game. The game is won when the countdown reaches 0.

Layout:

- `common.dfy`: shared pieces.
  - enumerations and the level constants of `winmine/board.h`;
  - the fixed levels;
  - the right-click mark cycle;
  - the 3x3 visiting order;
  - the box image strip.
- The managed engine:
  - `core_board.dfy`: the box list, the indexer, `Build`, and the `NewGame` overloads.
  - `core_mines.dfy`: `PlaceMines`.
  - `core_reveal.dfy`: `CompleteBox`.
  - `core_game.dfy`: `CheckWin`, `BoxPress`, `BoxUpdate`, `FaceButtonUpdate`, `UpdateFlag`, and `UpdateTimer`.
  - `core_valid.dfy`: the invariant these handlers keep, and the first-click theorem.
  - `core_stale.dfy`: `Build` as written, which keeps the selected box object, and the release that follows it.
- The Win32 engine:
  - `win_board.dfy`: the padded grid and the reset part of `Create`.
  - `win_block.dfy`: counting over a 3x3 block.
  - `win_mines.dfy`: `PlaceMines`.
  - `win_reveal.dfy`: `CompleteBox` and the chord `CompleteBoxes`.
  - `win_game.dfy`: `AddFlag`, the first-click logic of `TestMines`, and the win block, input lock and face-button reset of `Test`.
  - `win_countdown.dfy`: the invariant tying the safe-box countdown to the grid, set up by `Create` and kept by `Test`.
  - `win_draw.dfy`: the image `DrawMine` picks, and `ShiftBetween`.
- Both front ends:
  - `levels.dfy`: the size clamps.
  - `leds.dfy`: the three-digit LED split.

The managed engine stores its boxes as a row-major list; a box is named by its position in the list. The Win32 engine stores a map over the padded `(cols+2) x (rows+2)` array. The border around the inner boxes never holds a mine, and the reveal never opens it.

What an engine draws through its UI callbacks is returned as a list of notes. These notes cover:

- box images;
- counter and timer values;
- timer start and stop;
- the win callback.

The random generator is a parameter. Placement takes the finite sequence of values the generator produces and places no more mines than that sequence names distinct free boxes. With enough such boxes it places exactly the requested number; with fewer it places one mine per box named, where the source loop would keep drawing.

The Win32 engine's 4-bit count field is modelled with wrap-around. The 64-bit generator values are reduced with `% cols + 1` and `% rows + 1`, as the source does.

## Model

| member | source | states |
|---|---|---|
| Common.Preset | MinesweeperCore/Board.cpp:19-35 | Beginner is 9x9 with 10 mines, Advanced 16x16 with 40, Expert 30x16 with 99 |
| Common.PresetsAreLegal | winmine/board.h:4-20 | every fixed level lies inside the bounds the size check enforces |
| Common.NextMark | MinesweeperCore/Board.cpp:365-382 | an opened box keeps its state; only an unmarked box becomes a flag; a flag becomes a question mark exactly when question marks are on; a question mark becomes unmarked |
| Common.MarkDeltaTracksFlags | MinesweeperCore/Board.cpp:368-381 | a right click changes the flag counter by exactly the number of flags it adds or removes |
| Common.MarkCycle | winmine/board.cpp:426-447 | the marks cycle back to unmarked after three clicks with question marks and two without, with net flag change 0 |
| Images.ImageAt | winmine/board.cpp:258-259 | casting a strip position to an image gives the image at that position |
| Images.ImageIndexRoundTrip | winmine/board.h:66-72 | position and image determine each other over the whole strip |
| Images.NumberImage | winmine/board.cpp:258-259 | an opened box with count n shows the image at strip position n, never a box, flag or mine |
| CoreBoard.IdxIsRowMajor | MinesweeperCore/Board.cpp:117 | the indexer's position of an in-grid coordinate is its row-major position, inside the list |
| CoreBoard.At | MinesweeperCore/Board.cpp:112-118 | the indexer gives a box exactly for in-grid coordinates, and on a laid-out board that box has those coordinates |
| CoreBoard.FreshBoxes | MinesweeperCore/Board.cpp:77-88 | the rebuilt list is in row-major order with every box unmarked, mine-free and counting 0 |
| CoreBoard.Build | MinesweeperCore/Board.cpp:69-103 | the reset keeps the level; it waits at time 0 with no flag and no mine; the countdown is boxes minus mines; every box is drawn closed, then the timer shows 0 and the counter the mines; the selection is dropped, the corrected behaviour of the Findings row (the source keeps it) |
| CoreBoard.NewGame | MinesweeperCore/Board.cpp:14-37 | a fixed difficulty selects its preset size and starts a waiting game over cols x rows boxes |
| CoreBoard.NewCustomGame | MinesweeperCore/Board.cpp:45-52 | a custom game stores the size as given, unclamped, and marks the difficulty custom |
| CoreBoard.Restart | MinesweeperCore/Board.cpp:57-64 | restarting keeps the difficulty, and for a custom game the size too |
| CoreBoard.RestartIsIdempotent | MinesweeperCore/Board.cpp:57-64 | restarting a restarted game changes nothing |
| CoreMines.Spread | MinesweeperCore/Board.cpp:132-143 | the rejection loop changes only mine bits and never removes a mine; when the draws run out it stops with what it has placed |
| CoreMines.SpreadAddsMines | MinesweeperCore/Board.cpp:132-143 | all added mines are at drawn boxes; with at least as many distinct free draws as requested the loop adds exactly the requested number, and with fewer it adds one per distinct free draw |
| CoreMines.SpreadShortTakesAll | MinesweeperCore/Board.cpp:132-143 | with fewer distinct free draws than mines left, every drawn free box becomes a mine |
| CoreMines.Label | MinesweeperCore/Board.cpp:146-160 | labelling changes only the counts, and each box's count grows by the mines of its block |
| CoreMines.CountIsBlockMines | MinesweeperCore/Board.cpp:149-158 | the 3x3 count loop, skipping off-grid neighbours, counts the mines of the box's block |
| CoreMines.PlaceMines | MinesweeperCore/Board.cpp:124-161 | placement changes only the box list; it keeps positions and marks, and the selected box is not a mine |
| CoreMines.PlacedMines | MinesweeperCore/Board.cpp:132-144 | placement adds exactly `mines` mines, all drawn, and keeps old mines except under the selected box |
| CoreMines.PlacedLabels | MinesweeperCore/Board.cpp:146-160 | every box's count becomes its old count plus the mines of its self-inclusive block |
| CoreMines.PlacementCount | MinesweeperCore/Board.cpp:132-144 | on a board without mines, placement leaves exactly `mines` mines, none under the selected box |
| CoreMines.PlacementShortDraws | MinesweeperCore/Board.cpp:132-144 | on a board without mines and with too few distinct free draws, the mines are exactly the drawn free boxes, none under the selected box |
| CoreMines.MineCountsItself | MinesweeperCore/Board.cpp:149-157 | a mine counts itself, so it counts one more than its mine neighbours |
| CoreReveal.Open | MinesweeperCore/Board.cpp:202-210 | opening one closed box opens exactly it; a mine ends the game; a safe box counts down unless the game is over |
| CoreReveal.CompleteBox | MinesweeperCore/Board.cpp:200-236 | an opened or flagged box is left alone; otherwise the box ends up opened, only closed unflagged boxes are opened, and the closed set shrinks |
| CoreReveal.CompleteNeighbours | MinesweeperCore/Board.cpp:223-234 | the block loop only opens boxes and never grows the closed set |
| CoreReveal.CompleteBoxEffect | MinesweeperCore/Board.cpp:200-236 | the game ends exactly when a mine was opened or it was over; while not over, the countdown drops by the boxes opened; every opened box with count 0 has its block opened or flagged |
| CoreReveal.CompleteBoxReach | MinesweeperCore/Board.cpp:223-234 | every box the reveal opens is the clicked box or lies in the block of an opened box with count 0 |
| CoreGame.WinImage | MinesweeperCore/Board.cpp:171-177 | on a win exactly the unflagged mines are redrawn, and as flags |
| CoreGame.LossImage | MinesweeperCore/Board.cpp:309-323 | on a loss an unmarked mine shows a mine, exactly the opened mine explodes, exactly a flag on a safe box shows as wrong, and nothing else is redrawn |
| CoreGame.Redraw | MinesweeperCore/Board.cpp:309-324 | a pass over the boxes draws exactly the boxes whose image is set, with that image, in list order |
| CoreGame.CheckWin | MinesweeperCore/Board.cpp:166-194 | with boxes left nothing happens; otherwise the game is won and the flag counter becomes the mine count |
| CoreGame.CheckWinDraws | MinesweeperCore/Board.cpp:168-193 | a win draws a flag on exactly the unflagged mines when fewer flags than mines were placed, shows 0 on the counter, stops the timer, and calls back exactly outside custom games |
| CoreGame.BoxPress | MinesweeperCore/Board.cpp:274-287 | a finished game ignores the press; otherwise a closed unflagged box becomes the selection and is drawn pressed |
| CoreGame.StartGame | MinesweeperCore/Board.cpp:298-305 | the first release starts play, places the mines with the selected box safe and every mark kept, and starts the timer |
| CoreGame.OpenSelected | MinesweeperCore/Board.cpp:296-307 | with no selection nothing happens; otherwise an unflagged selected box ends opened and a flagged one stays closed, the game is playing or lost, lost exactly when a mine was opened, and while playing the countdown drops by the boxes opened; flags are kept; the mines are placed, with the selected box safe, and the timer started exactly when the game was not being played |
| CoreGame.BoxUpdate | MinesweeperCore/Board.cpp:293-342 | a finished game only drops the selection; an unhandled release redraws the selection unpressed; the selection is always cleared |
| CoreGame.BoxUpdateHandled | MinesweeperCore/Board.cpp:293-342 | a handled release in an unfinished game loses exactly when it opened a mine and wins exactly when it opened none and no safe box is left; the timer stops exactly when the game ends; the win callback is called exactly on a win outside custom games; a win sets the flag counter to the mines; a release with a selection never leaves the game waiting |
| CoreGame.FaceButtonUpdate | MinesweeperCore/Board.cpp:251-268 | an unhandled release changes nothing; a handled one starts a waiting game at the same level, with no mine, no flag, no selection and the countdown at boxes minus mines |
| CoreGame.BoxUpdateWhilePlaying | MinesweeperCore/Board.cpp:298-306 | while playing, a release places no mines and does not start the timer |
| CoreGame.BoxUpdateFirstClick | MinesweeperCore/Board.cpp:298-305 | the first release places the mines once and starts the timer before anything else is drawn |
| CoreGame.BoxUpdateLoss | MinesweeperCore/Board.cpp:308-327 | after a loss every box with a loss image is drawn with it, the timer stops last, and the win callback is not called |
| CoreGame.UpdateFlag | MinesweeperCore/Board.cpp:363-386 | an opened box is ignored; otherwise the mark moves on, only that box changes, and the box and the counter of unflagged mines are redrawn |
| CoreGame.UpdateFlagTracksFlags | MinesweeperCore/Board.cpp:368-381 | the flag counter moves with the flags on the board, up exactly for an unmarked box and down exactly for a flag |
| CoreGame.UpdateFlagCycle | MinesweeperCore/Board.cpp:365-382 | cycling a box's marks restores the board |
| CoreGame.UpdateTimer | MinesweeperCore/Board.cpp:391-398 | a tick adds a second and shows it only while playing |
| CoreGame.TicksCount | MinesweeperCore/Board.cpp:391-398 | n ticks add n seconds to a game being played and leave any other game alone |
| CoreValid.CascadeIsSafe | MinesweeperCore/Board.cpp:223-234 | with correct counts a reveal opens no mine except possibly the clicked box |
| CoreValid.SafeOpenDoesNotLose | MinesweeperCore/Board.cpp:200-236 | opening a safe box on a correctly counted board keeps the status |
| CoreValid.PlacementIsValid | MinesweeperCore/Board.cpp:124-161 | placement on an untouched board places and counts `mines` mines, none under the selected box |
| CoreValid.FirstClickNeverLoses | MinesweeperCore/Board.cpp:296-307 | the first handled release on a valid board ends playing or won, never lost |
| CoreValid.FirstOpenIsLive | MinesweeperCore/Board.cpp:298-306 | the first release gives a live game that its opening does not lose |
| CoreValid.RevealLoses | MinesweeperCore/Board.cpp:204-206 | a reveal that hits a mine leaves a valid lost game |
| CoreValid.RevealStaysLive | MinesweeperCore/Board.cpp:207-210 | a reveal that hits no mine keeps the countdown equal to the closed safe boxes |
| CoreValid.WinCheckIsValid | MinesweeperCore/Board.cpp:166-194 | the win check on a live game is valid and wins exactly when no safe box is closed |
| CoreValid.BoxUpdateKeepsValid | MinesweeperCore/Board.cpp:293-342 | every release keeps the board invariant |
| CoreValid.BoxPressKeepsValid | MinesweeperCore/Board.cpp:274-287 | a press keeps the board invariant |
| CoreValid.UpdateFlagKeepsValid | MinesweeperCore/Board.cpp:363-386 | a right click keeps the board invariant, whatever the status |
| CoreValid.UpdateTimerKeepsValid | MinesweeperCore/Board.cpp:391-398 | a tick keeps the board invariant |
| CoreValid.BuildIsValid | MinesweeperCore/Board.cpp:69-103 | a rebuilt board with at least one safe box satisfies the invariant |
| CoreValid.NewGameIsValid | MinesweeperCore/Board.cpp:14-37 | every fixed level starts valid |
| CoreValid.FaceButtonKeepsValid | MinesweeperCore/Board.cpp:251-268 | a face-button release keeps the board invariant, and a handled one starts a valid game |
| CoreStale.BuildKeepingSelection | MinesweeperCore/Board.cpp:69-103 | the reset as written: the list is rebuilt as by the corrected reset, and the box selected before it is still referred to, outside the new list |
| CoreStale.PlaceAnywhere | MinesweeperCore/Board.cpp:124-161 | placement around a selected box outside the list changes only the box list, keeps marks and positions, and keeps every mine |
| CoreStale.FirstDrawIsMine | MinesweeperCore/Board.cpp:131-143 | with no box of the list kept free, the box the first draw names always becomes a mine |
| CoreStale.CompleteStale | MinesweeperCore/Board.cpp:200-236 | completing the dropped box changes only the box list, the status and the countdown, and only opens boxes of the list |
| CoreStale.StaleRelease | MinesweeperCore/Board.cpp:293-342 | a handled release on the dropped box: a finished game is left alone; otherwise the selection is cleared after the release |
| CoreStale.StaleFirstReleaseLoses | MinesweeperCore/Board.cpp:124-236 | when the dropped box counted 0 and the first draw names its old coordinates, the first release of the new game loses |
| CoreStale.PressRebuildReleaseLoses | MinesweeperCore/Board.cpp:69-103 | pressing a box of a waiting game, starting a new game before the release, then releasing, with the first draw at the pressed box, loses on the first release |
| CoreStale.StaleReleaseMiscounts | MinesweeperCore/Board.cpp:200-210 | a dropped box that counted other than 0 counts the countdown down with no box of the list opened, and wins at once when one safe box was left |
| CoreStale.ReleaseAfterRebuild | MinesweeperCore/Board.cpp:293-342 | with the selection dropped by the reset, the release after a new game changes nothing and the game stays valid and waiting |
| WinBoard.Create | winmine/board.cpp:68-122 | the whole padded grid becomes empty boxes, the border clear; the countdown is boxes minus mines, with no flags, waiting, at time 0 |
| WinBoard.CreateIsIdempotent | winmine/board.cpp:68-122 | resetting twice is resetting once |
| WinBlock.CountIsBlockWith | winmine/board.cpp:479-485 | the 3x3 count loop counts the boxes of the block that have the property |
| WinMines.DrawCell | winmine/board.cpp:462-463 | every generator value names an inner box |
| WinMines.Scatter | winmine/board.cpp:461-470 | the rejection loop keeps the grid's shape, changes only mine bits and never removes a mine; when the draws run out it stops with what it has placed |
| WinMines.ScatterAddsMines | winmine/board.cpp:461-470 | all added mines are at drawn boxes; with at least as many distinct free draws as requested the loop adds exactly the requested number, and with fewer it adds one per distinct free draw |
| WinMines.ScatterShortTakesAll | winmine/board.cpp:461-470 | with fewer distinct free draws than mines left, every drawn free box becomes a mine |
| WinMines.Label | winmine/board.cpp:477-487 | labelling changes only the counts of inner boxes and leaves the border alone |
| WinMines.LabelCounts | winmine/board.cpp:477-487 | each inner box adds to its 4-bit count the mines of its block, at most 9 |
| WinMines.AddCountSmall | winmine/board.h:155 | the 4-bit count field does not wrap while the sum stays below 16 |
| WinMines.PlaceMines | winmine/board.cpp:451-488 | placement changes only the grid, keeps every mark, and leaves the selected box safe |
| WinMines.PlacedMines | winmine/board.cpp:455-473 | placement adds exactly `mines` inner mines, all drawn, and keeps old mines except under the selected box |
| WinMines.PlacementKeepsBorder | winmine/board.cpp:461-487 | the border is never drawn or labelled |
| WinMines.FreshPlacementMines | winmine/board.cpp:451-473 | on a reset grid exactly `mines` mines are placed, all inner, none under the selected box |
| WinMines.FreshPlacementShort | winmine/board.cpp:451-473 | on a reset grid with too few distinct free draws, the mines are exactly the drawn free boxes, none under the selected box |
| WinMines.FreshPlacementLabels | winmine/board.cpp:477-487 | on a reset grid every inner box counts the mines of its self-inclusive block, and the border keeps 0 |
| WinMines.SafeCountIsDigit | winmine/board.cpp:258-259 | a safe box counts at most 8, so its opened image is a number image |
| WinReveal.Open | winmine/board.cpp:377-386 | opening one closed inner box opens exactly it; a mine ends the game; a safe box counts down unless the game is over |
| WinReveal.CompleteBox | winmine/board.cpp:375-397 | an opened, flagged or border box is left alone; otherwise the box is opened, the game ends exactly on an opened mine, the countdown drops by the boxes opened, every opened empty box has its block settled, and every box opened is the clicked one or next to an opened empty box |
| WinReveal.CompleteNeighbours | winmine/board.cpp:389-395 | the block loop leaves every box of the block opened or flagged, and opens only boxes reached from the block |
| WinReveal.Chord | winmine/board.cpp:399-421 | the chord acts exactly on an opened box whose block holds as many flags as it counts; it then leaves the block settled, and opens nothing the cascades do not reach |
| WinReveal.ChordLoop | winmine/board.cpp:412-418 | skipping flagged boxes is the cascade's own block loop, since a flag is never opened |
| WinGame.AddFlag | winmine/board.cpp:423-449 | only the box's mark and the flag counter change: the mark moves on along the cycle and the counter by the flag difference |
| WinGame.AddFlagTracksFlags | winmine/board.cpp:429-446 | the flag counter keeps its difference to the number of flags on the grid |
| WinGame.AddFlagCycle | winmine/board.cpp:425-448 | three right clicks with question marks, two without, restore the game |
| WinGame.BoxAt | winmine/board.cpp:523-524 | a point right of and below the minefield's corner lies in the square its box is drawn in |
| WinGame.BoxAtInField | winmine/board.cpp:523-524 | a point of the minefield always hits an inner box |
| WinGame.BoxAtOrigin | winmine/board.cpp:523-524 | every pixel of a box's square maps back to that box |
| WinGame.TestMines | winmine/board.cpp:521-583 | presses change nothing; a left release opens the box after the first-click placement; a middle release chords; a right press cycles the mark |
| WinGame.FirstOpen | winmine/board.cpp:545-548 | the first opening of an unflagged box starts the game with the box safe; otherwise nothing changes; flags are kept |
| WinGame.FlagMines | winmine/board.cpp:630-637 | exactly the inner mines not yet flagged become flags; mines and counts are kept |
| WinGame.WinAudit | winmine/board.cpp:626-640 | with no safe box left the game is won, and with fewer flags than mines every inner mine is flagged and the counter set to the mines; otherwise nothing changes |
| WinGame.WinAuditIsIdempotent | winmine/board.cpp:626-640 | the audit changes nothing the second time |
| WinGame.Test | winmine/board.cpp:613-654 | a left release over the face button starts a waiting game at time 0 with no flags; otherwise a zero countdown is always reported as won |
| WinGame.TestLocked | winmine/board.cpp:613-654 | once the game is lost or won, input on the board is ignored and only the audit runs, except that a left release over the face button resets the game |
| WinGame.TestOutsideField | winmine/board.cpp:613-654 | a point outside the minefield changes nothing but through the audit, unless it is a left release over the face button, which resets the game |
| WinGame.TestFaceRestarts | winmine/board.cpp:508-514 | a left release over the face button resets the game before the click, whatever its state, keeping the grid's shape |
| WinGame.RevealOpensNoOtherMine | winmine/board.cpp:389-395 | with correct counts a reveal opens no mine but the clicked box |
| WinGame.SafeReveal | winmine/board.cpp:375-397 | with correct counts, revealing a safe box keeps the status |
| WinGame.PlacementIsLabelled | winmine/board.cpp:477-487 | after placement on a reset grid every inner box counts its block |
| WinGame.FirstClickIsSafe | winmine/board.cpp:540-550 | the first left release on an unflagged inner box of a reset grid leaves the game being played |
| WinGame.TestMinesTracksFlags | winmine/board.cpp:527-577 | every action on a box keeps the flag counter's difference to the flags on the grid |
| WinGame.RevealKeepsCountdown | winmine/board.cpp:384-386 | a reveal that does not lose keeps the countdown equal to the closed safe boxes |
| WinDraw.CellImage | winmine/board.cpp:203-260 | an opened safe box always shows its count, as the number image when it counts at most 8 |
| WinCountdown.RectCard | winmine/board.cpp:77-84 | the field of cols x rows inner boxes has cols * rows boxes |
| WinCountdown.InnerCard | winmine/board.cpp:71 | a grid of the right shape has exactly cols * rows inner boxes, the area `Create` counts from |
| WinCountdown.CreateCountdown | winmine/board.cpp:68-122 | the reset grid satisfies the countdown invariant: fresh, nothing opened, countdown equal to boxes minus mines |
| WinCountdown.CheckedCreateCountdown | winmine/board.cpp:853-873 | every size that passed `CheckLevel` leaves a safe box, so its reset satisfies the invariant |
| WinCountdown.FirstOpenCountdown | winmine/board.cpp:545-548 | the first opening places the mines so that the countdown `Create` set equals the closed safe boxes |
| WinCountdown.OpeningCountsSafe | winmine/board.cpp:375-397 | a reveal removes from the closed safe boxes exactly the safe boxes it opened |
| WinCountdown.RevealCountdown | winmine/board.cpp:375-421 | a reveal or chord keeps the invariant: while playing the countdown equals the closed safe boxes, after a loss it is at least their number |
| WinCountdown.AddFlagCountdown | winmine/board.cpp:423-449 | a right click keeps the invariant |
| WinCountdown.TestMinesCountdown | winmine/board.cpp:521-583 | every action on an inner box keeps the invariant while waiting or playing, given enough draws for the first opening |
| WinCountdown.FlagMinesKeepsSafe | winmine/board.cpp:630-637 | flagging the remaining mines leaves the closed safe boxes as they are |
| WinCountdown.WinAuditCountdown | winmine/board.cpp:626-640 | the win audit keeps the invariant: a countdown of 0 means no safe box is closed |
| WinCountdown.TestCountdown | winmine/board.cpp:613-640 | `Test` keeps the invariant, so a won game has every safe box open and a game in play has a safe box left |
| WinDraw.DrawMine | winmine/board.cpp:194-260 | exactly the inner boxes are drawn, and an opened safe box shows its count |
| WinDraw.ClosedBoxHidesContents | winmine/board.cpp:233-256 | until a loss, a closed box shows only its mark and whether it is pressed, whatever it holds |
| WinDraw.LossShowsMines | winmine/board.cpp:203-232 | after a loss every mine is visible and every flag on a safe box shows as wrong |
| WinDraw.LossImagesAgree | MinesweeperCore/Board.cpp:309-323 | the two engines show a loss alike wherever the managed engine redraws a box; a question-marked mine is left alone there and shown as a mine here |
| WinDraw.ShiftBetween | winmine/board.cpp:43-52 | the edge pair keeps its width, stays put when inside, and otherwise moves to the nearer bound |
| WinDraw.ShiftBetweenFits | winmine/board.cpp:43-52 | a pair no wider than the range ends up inside it, and shifting again does nothing |
| WinDraw.ShiftBetweenTooWide | winmine/board.cpp:45-47 | a pair wider than the range and left of it keeps its left edge on the bound |
| Levels.Clamp | winmine/board.cpp:855-860 | the value is pulled into the range and kept when already inside |
| Levels.CheckLevel | winmine/board.cpp:853-873 | the result is always a legal size that leaves a safe box, and a legal size is kept |
| Levels.CheckLevelFixesLegal | winmine/board.cpp:853-873 | the check leaves a size alone exactly when it is legal, and checking twice is checking once |
| Levels.CheckLevelKeepsInRange | winmine/board.cpp:853-873 | a field already in its range keeps its value |
| Levels.PresetsPassCheck | winmine/board.cpp:853-873 | every fixed level passes the check unchanged |
| Levels.MineBoundFits | winmine/board.cpp:870-872 | the mine bound is at least 64 and below the number of boxes |
| Levels.CustomDialogOk | WPF/DlgCustom.xaml.cs:21-30 | OK always yields a legal size that leaves a safe box, keeps a legal size, and closes with result true |
| Levels.CustomDialogIsCheckLevel | WPF/DlgCustom.xaml.cs:23-28 | on every size the Win32 fields can hold, the dialog clamps as the Win32 check does |
| Levels.CustomDialogIsIdempotent | WPF/DlgCustom.xaml.cs:23-28 | pressing OK again on the dialog's result changes nothing |
| Leds.LedDigits | winmine/board.cpp:153-168 | 0..999 show three digits, -99..-1 show a sign and two digits, and 1000 or more show three signs |
| Leds.LedRoundTrip | WPF/BaseCounter.xaml.cs:35-74 | every number from -99 to 999 reads back as itself and shows only strip images |
| Leds.LedDigitsInjective | winmine/board.cpp:153-168 | different numbers from -99 to 999 show differently |
| Leds.LedOverflow | winmine/board.cpp:153-163 | below -99 the middle position holds 10 or more, and from -110 on it is 11 or more, beyond the digit and sign images the code uses |
| Leds.ClampedLedDigits | winmine/board.cpp:153-168 | with the number clamped to -99 first, every value shows strip images, and -99 and above show as before |
| Leds.ClampedLedReadsBack | WPF/BaseCounter.xaml.cs:35-74 | the clamped display reads back the number, or -99 for anything lower |

## Left out

- Drawing is left out: device contexts, bitmaps, blitting, and the face button images. This covers `DrawFace`, `FaceButtonPress`, and the image choice of `TestFace` and `FaceButtonUpdate`; the new game their face releases start is modelled (`WinGame.Test`, `CoreGame.FaceButtonUpdate`). The managed engine's per-box number draws inside `CompleteBox` are left out too. The model keeps only which image a box shows and what the counter and timer are given.
- The pressed highlight of the Win32 engine is left out. This covers `isPressed`, `PressBox(es)`, `UnpressBox(es)` and the `press` point. The presses in `TestMines` therefore leave the game unchanged in the model.
- `BoxChange` of the managed engine is left out. It only redraws the old selection and presses the new box.
- The random generator is left out. This covers seeding from the clock, the Mersenne twister, `gen_rand`, and the uniform distributions. Placement takes the values as a parameter instead.
- The timer thread of both front ends is left out. `UpdateTimer` is one tick.
- The registry, best times and player names are left out. This covers the congratulations, times and custom dialogs of the Win32 program, and the WPF windows other than the custom dialog's OK handler. `Init`, `SetDifficulty` and the menus are left out too.
- Window geometry is left out. This covers `MoveOnScreen`'s monitor query, the window sizes and face, timer and counter rectangles that `Create` computes, `AdjustWindowRect`, and `MoveWindow`. Only the minefield rectangle that `Test` uses is modelled.
- The null checks on the managed engine's `Counter`, `Timer`, `FaceButton` and `OnWin` are left out. The model takes all of them to be attached. `Debug::Assert` becomes a precondition.
- Unsigned and 32-bit arithmetic is not modelled: integers are unbounded. In particular, `Create` computes `cols * rows - mines` on unsigned values. Every size `CheckLevel` admits keeps that value positive.
- `Board.h` property accessors are left out. So is the WPF `CtrlGameBoard` mapping from mouse events to `BoxPress` and `BoxUpdate`.
- WinGame.Test: its contract states only the shape, the face reset and the won-at-zero rule. Its parts carry the rest: `TestLocked`, `TestOutsideField`, `TestFaceRestarts`, `TestMines` and `WinAudit`. The face rectangle is taken as `Create` computes it from the current size.
- CoreBoard.Build: the model's reset drops the selection, which the source's `Build` never touches; this is the corrected behaviour of the Findings row, and `CoreStale.BuildKeepingSelection` models the code as written.
- CoreValid.BuildIsValid: the invariant holds after the corrected reset only; after the reset as written the stale selection breaks it, as `CoreStale.PressRebuildReleaseLoses` shows.
- CoreValid.NewGameIsValid: rests on the corrected reset in the same way as `CoreValid.BuildIsValid`.
- CoreStale.StaleRelease: only the handled release is modelled; the unhandled one only redraws the dropped box.
- CoreMines.Spread: when the draws run out before all mines are placed, the model stops with one mine per distinct free box drawn (`SpreadAddsMines`, `PlacementShortDraws`). The source keeps drawing, and never stops when the mines are at least the free boxes, which an unclamped `NewGame(cols, rows, mines)` allows. The model places no promise on that non-terminating case.
- WinMines.Scatter: the same holds for the Win32 loop (`ScatterAddsMines`, `FreshPlacementShort`). `CheckLevel` keeps the mines below the boxes there, so an endless loop needs an endless run of already-taken draws.
- WinGame.BoxAt: `TestMines` divides a `LONG` offset by the unsigned `MINE_WIDTH`, which is an unsigned division when `LONG` is 32 bits. A negative offset would wrap around, but `Test` calls `TestMines` only for points inside the minefield, where the offsets are non-negative, so the model divides only non-negative offsets.
- CoreBoard.NewCustomGame: a negative or oversized custom size is stored as given, as the source does. The properties of a valid board are proved only for sizes with at least one safe box.

## Findings

| source | as written | input that shows it | evidently intended | confidence | as-written member | corrected member |
|---|---|---|---|---|---|---|
| winmine/board.cpp:153-163 | a negative number shows a minus sign, then `-n / 10` and `-n % 10`; below -99 the middle position gets 10 or more. The same split is in WPF/BaseCounter.xaml.cs:35-64, where `LedsImage[Value]` is then read past the strip. | the mine counter at -100, reached by placing 199 flags in an expert game (99 mines): it shows sign, sign, 0, and from -110 on the middle index is 11 or more, beyond the digit and sign images 0..10 the code uses; how many images the bitmap resource holds is not part of this model | the counter stays within the strip, for example by clamping at -99 | not executed | Leds.LedOverflow | Leds.ClampedLedDigits |
| MinesweeperCore/Board.cpp:69-103 | the reset rebuilds the box list but leaves `SelectedBox` pointing at a box of the old list | press a box of a waiting game, choose a new game before releasing, then release with the first mine drawn at the pressed box's coordinates: placement keeps no box free, the dropped box (count 0) cascades around its old coordinates through the indexer and opens that mine, so the first click loses; a dropped box with a nonzero count instead counts the countdown down with nothing opened | the reset clears the selection, so the release after it does nothing and the first click never loses (`CoreStale.ReleaseAfterRebuild`, `CoreValid.FirstClickNeverLoses`) | not executed | CoreStale.PressRebuildReleaseLoses | CoreBoard.Build |
