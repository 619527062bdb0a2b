# MineSweeper game core in Dafny

This project models the game logic of a small pygame MineSweeper (`main.py`): the
neighbourhood scan, board generation with a safe first click, the recursive
flood-fill reveal, the mapping from mouse pixels to cells, the per-click state
transitions of the main loop (reveal, flag, win, loss) and the text snapshot of
the board written at the end of a game.

Modules, one per concern of the program:

- `Cells` (cells.dfy): coordinates, the Chebyshev distance and `get_neighbors`
  as a nested-loop method.
- `Board` (board.dfy): `create_grid`. The mine-drawing loop and the counting
  loop are imperative. The board is an `array2<int>` and the mines a `set`.
- `Reveal` (reveal.dfy): `create_mask` as a recursive method. It updates an
  `array2<bool>` mask in place and is specified by the predicate `Reveals` over
  the set of shown cells.
- `Mouse` (mouse.dfy): the window constants and `pos_from_mouse`.
- `Report` (report.dfy): the `last_game.txt` text, as functions over the
  board's rows and as the writing loops.
- `Game` (game.dfy): a `Game` class that holds field, mask, mines, flags and a
  status (Playing, Won or Lost). It has the left-click, right-click,
  win-check and mouse-event transitions.

Python's `//` on a positive divisor is Dafny's `/`: both round towards minus
infinity. Integers are unbounded in both languages, so no wrap-around needs to
be modelled.

How the nondeterminism is modelled:

- `random.randint` in `create_grid` becomes a nondeterministic choice of the
  next accepted draw. A draw inside the safe zone, or on a cell already
  chosen, leaves the state as it was, so only accepted draws are modelled.
- The iteration order of `for pos in mines` becomes a choice of any remaining
  mine.

create_grid does not check that the mines fit outside the safe zone. If they
do not, its drawing loop never ends. The model therefore makes the bound a
precondition of `PlaceMines` and `CreateGrid`. `Board.CentreClickLeavesNoRoom`
shows that the 5 x 5 board clicked in its centre leaves no room for any mine,
and `Game.DefaultGameStarts` shows that the shipped 20 x 20 game with 5 mines
always meets the bound.

## Model

| member | source | states |
|---|---|---|
| `Cells.GetNeighbors` | main.py:38-47 | the result holds exactly the in-bounds cells within Chebyshev distance `offset` of (x, y), other than (x, y). It is strictly increasing in row-major order, so it has no duplicates, and it has at most (2·offset+1)² − 1 entries |
| `Board.PlaceMines` | main.py:55-63 | the drawing loop ends with exactly `numMines` distinct mines, all in bounds and all at Chebyshev distance more than 2 from the click |
| `Board.FreeCells` | main.py:56-61 | a draw is accepted exactly when it is in bounds and not on the friendlies list. There are rows·cols − \|safe zone\| such cells |
| `Board.SafeZoneAtMost25` | main.py:56-57 | the friendlies (click plus radius-2 neighbourhood) are at most 25 cells |
| `Board.RectCard` | main.py:52 | an h × w block of cells has h·w cells |
| `Board.AllCellsCard` | main.py:52 | the rows × cols grid has rows·cols cells |
| `Board.CentreClickLeavesNoRoom` | main.py:56-63 | on a 5 × 5 board a click at (2, 2) makes every cell safe, so no mine fits |
| `Board.RaiseNeighbors` | main.py:67-70 | one turn of the counting loop: after -1 is written on `pos`, every cell holds -1 on a mine handled so far, and otherwise its adjacent-mine count over those mines. A neighbour that is a mine still to be handled is raised too, and later overwritten |
| `Board.AddMine` | main.py:68-70 | adding a mine raises a cell's count by one exactly when the cell is in that mine's neighbour list |
| `Board.SetCounts` | main.py:66-70 | after the counting loop every mine holds -1 and every other cell the number of mines among its neighbours |
| `Board.CreateGrid` | main.py:50-72 | create_grid returns a fresh rows × cols board and exactly `numMines` mines, none within distance 2 of the click. Every cell holds `CellValue` (-1 on a mine, otherwise the adjacent-mine count) |
| `Board.CountAtMostEight` | main.py:66-70 | an adjacent-mine count is between 0 and 8 |
| `Board.FirstClickOpens` | main.py:55-70 | with no mine within distance 2 of the click, the click and its 8 neighbours hold 0 |
| `Reveal.Show` | main.py:76 | setting one mask cell shows that cell and changes no other |
| `Reveal.CreateMask` | main.py:75-82 | create_mask terminates, because each recursion enters a hidden 0-cell. Afterwards the click is shown and no shown cell is hidden again. The ghost result lists the entered cells in entry order: the click first, then hidden 0-cells, each a neighbour of a cell entered earlier. Each entered cell ends with all its non-mine neighbours shown. Every other newly shown cell is a non-mine neighbour of an entered cell, so no mine other than the click is shown |
| `Reveal.EntryOrderAppend` | main.py:78-79 | the cells a recursive call from a neighbour of the click enters, appended to those entered so far, keep the entry order |
| `Reveal.EnteredPath` | main.py:77-79 | every entered cell lies at the end of a flood path from the click: a chain of neighbours whose inner cells are 0-cells hidden before the call |
| `Reveal.FloodConfined` | main.py:75-82 | every newly shown cell ends a flood path from the click. The flood stays in the click's region of hidden 0-cells and the non-mine cells bordering it |
| `Reveal.ShownZeroFloodChangesNothing` | main.py:75-82 | on a closed board, a flood from a 0-cell that is already shown shows nothing new |
| `Reveal.ClosedAfterReveals` | main.py:75-82 | a reveal keeps the board closed: every shown 0-cell has all its non-mine neighbours shown |
| `Reveal.ClosedAfterShowing` | main.py:260-261 | showing one cell that does not hold 0 keeps the board closed |
| `Reveal.ZeroPathShown` | main.py:77-81 | on a closed board, a chain of 0-cells from a shown cell, ending in any non-mine cell, is shown entirely |
| `Mouse.FloorDiv` | main.py:131-132 | `//` with a positive divisor yields the q with q·b ≤ a < q·b + b |
| `Mouse.CellHeight` | main.py:131 | (HEIGHT − BUFFER) // ROWS is 35 |
| `Mouse.CellWidth` | main.py:132 | WIDTH // COLS is 35 |
| `Mouse.PosFromMouse` | main.py:130-135 | the result is None exactly when y < 100. Otherwise the (row, column)'s 35-pixel square below the title band contains the pixel |
| `Mouse.BoardPixelInBounds` | main.py:130-135 | every pixel with 0 ≤ x < 700 and 100 ≤ y < 800 maps to a cell of [0, 20) × [0, 20) |
| `Mouse.DrawnSquareMapsBack` | main.py:86-93 | every pixel of the step × step cell square around what draw_grid paints for cell (i, j) maps back to (i, j) |
| `Report.Digits` | main.py:196 | `str` of a natural: at least one character, all decimal digits, a single digit exactly below 10, and no leading zero |
| `Report.DigitsRoundTrip` | main.py:196 | the digits of n read back as n |
| `Report.Str` | main.py:196 | `str` of an integer begins with '-' exactly for a negative number, and all its other characters are digits |
| `Report.CellText` | main.py:196 | the text for a cell is "+" exactly for -1 and " " exactly for 0. It never holds a newline, and it is one character for -1..9 |
| `Report.GlyphRoundTrip` | main.py:196 | the one character written for a value in -1..9 decodes to that value |
| `Report.WriteReport` | main.py:194-197 | the writing loops produce exactly `ReportText` of the board's rows |
| `Report.LineLength` | main.py:195-196 | a row of one-character cells takes 2·cols characters |
| `Report.LineCell` | main.py:195-196 | cell j of a row is written at position 2·j of its line and followed by one space |
| `Report.LineNoNewline` | main.py:195-196 | a line holds no newline |
| `Report.ReportLength` | main.py:194-197 | the snapshot of m rows of one-character cells is `LineStart(cols, m)` long |
| `Report.LineStartClosedForm` | main.py:194-197 | line i starts at i·(2·cols + 1) |
| `Report.ReportLine` | main.py:194-197 | row i is written as its line from `LineStart(cols, i)` on, and a newline follows it directly |
| `Report.ReportLineNoNewline` | main.py:194-197 | no newline falls inside a line, so the newlines are exactly the line ends |
| `Report.ReportReadsBack` | main.py:194-197 | the character at i·(2·cols + 1) + 2·j decodes to the value of cell (i, j) |
| `Game.Toggle` | main.py:264-267 | after the toggle, pos is flagged exactly when it was not before, and every other cell is as it was |
| `Game.ToggleTwice` | main.py:262-267 | two right clicks on the same cell leave the flags unchanged |
| `Game.ExtraFlagBlocksWin` | main.py:271 | a flag on a cell without a mine blocks the win |
| `Game.MissingFlagBlocksWin` | main.py:271 | a mine without a flag blocks the win |
| `Game.DefaultGameStarts` | main.py:236-237 | every first click on the board of the 20 × 20 game gives an in-bounds cell. Five mines fit outside its safe zone, so create_grid terminates |
| `Game.NoMineAfterReveals` | main.py:258-259 | a flood started on a cell that is not a mine shows no mine |
| `Game.FirstReveal` | main.py:237-238 | the first flood on the all-hidden mask shows the click and all its neighbours, and leaves the board closed and mine-free |
| `Game.BoardGlyphs` | main.py:66-70 | a generated board holds only -1..8, so its snapshot has one character per cell |
| `Game.ToggleAsWritten` | main.py:262-267 | the right-click toggle as written, over the values pos_from_mouse returns, None included |
| `Game.HeaderRightClickBlocksWin` | main.py:262-267 | as written, a right click in the title band adds None to the flags, and such a flag set never equals the mines |
| `Game.Game.constructor` | main.py:233-239 | builds fresh board and mask arrays around the first click and floods from it. The game starts Playing with no flags, and the click and its neighbours are shown |
| `Game.Game.LeftClick` | main.py:251-261 | a left click on a mine loses and leaves the mask unchanged. On a 0-cell it floods (`Reveals`): every zero path from the cell ends shown, and every newly shown cell ends a flood path from it. On a cell above 0 it shows only that cell. A click on a cell already shown changes nothing. Flags are unchanged and no shown cell is hidden |
| `Game.Game.RightClick` | main.py:262-267 | the flags become `Toggle(old flags, pos)`, and the mask and status are unchanged |
| `Game.Game.CheckWin` | main.py:271-273 | the status becomes Won exactly when the flags equal the mines, and otherwise stays Playing |
| `Game.Game.MouseDown` | main.py:249-267 | one mouse event. Button 1 takes precedence over button 3, and a click in the title band changes nothing. A left click on a board cell has the effect `LeftClick` states: it loses exactly on a mine, leaving the mask unchanged. On a 0-cell it floods exactly the cell's region, and on a cell above 0 it shows only that cell. A click on a shown cell changes nothing. A right click toggles the flag |
| `Game.Game.Snapshot` | main.py:193-197 | the snapshot text is `ReportText` of the board, and every cell's character reads back as the cell's value |

Every operation keeps the class invariant `Game.Game.Valid`:

- the board is the one create_grid made for `mines`;
- the shown cells are closed and hold no mine;
- a won game has its flags on exactly the mines.

## Findings

| source | as written | input that shows it | evidently intended | confidence | as-written member | corrected member |
|---|---|---|---|---|---|---|
| main.py:262-267 | a right click in the title band makes pos_from_mouse return None, and `flags.add(None)` stores it | a right click at pixel (10, 50), with None not yet among the flags: None joins the flags and the win test `flags == mines` cannot succeed until a second title-band right click | clicks in the title band are ignored, as pregame does (main.py:164-165) | not executed | `Game.ToggleAsWritten`, `Game.HeaderRightClickBlocksWin` | `Game.Game.MouseDown` |

## Left out

- pygame setup, fonts and images, `draw_grid`, `redraw` and every drawing call (main.py:23-35, 85-127, 138-149): rendering only. The cell layout of `draw_grid` appears only in `Mouse.DrawnSquareMapsBack`.
- Event polling, `pygame.time.delay`, quit handling, `pregame`'s wait loop and the tick loop of `main` (main.py:152-168, 241-250, 269): I/O and timing. `Game.Game.MouseDown` models the handling of one event and `Game.Game.CheckWin` the test after a tick.
- The end-game animation (main.py:171-188, 201-218) reveals remaining mines at random (`random.random() < 0.25`) for presentation, then shows the whole board. It is not modelled.
- Opening and writing `last_game.txt` (main.py:193, 224): file I/O. `Report.WriteReport` collects the same text in a string. It builds each line before appending it instead of writing cell by cell, which gives the same text.
- `Game.Game.LeftClick` and `Game.Game.RightClick` require an in-bounds cell. A left click in the title band crashes the source by indexing None (main.py:253). `Game.Game.MouseDown` ignores it instead, which is the intended behaviour; the crash itself is not modelled.
- `random.randint` is collapsed into a choice of the next accepted draw. Rejected draws and the uniform distribution are not modelled, since they do not change the state.
- `Board.PlaceMines`: the bound `numMines <= rows*cols - |SafeZone|` is a precondition, not an error result. The code has no such check and its loop would never end.
- `Cells.GetNeighbors` takes the board size, not the board: the source reads only `len(grid)` and `len(grid[0])`. With rows = 0 both return the empty list, since the source's bounds test (main.py:42) decides before it reaches `grid[0]`.
- `Reveal.CreateMask`: the source nests one Python call for each hidden 0-cell it enters (main.py:78-79). On boards larger than the game's 20 x 20, a flood that nests deeper than Python's recursion limit (1000 by default) raises RecursionError, for example on a 40 x 40 board without mines clicked at (0, 0). The model always ends normally and does not capture this. On the 20 x 20 board with its 5 mines at most 395 cells can be entered, so the nesting stays below 400.
- `Reveal.CreateMask` returns nothing: the source's returned mask is the same object it updated in place, and every caller rebinds its variable to it.
- The `pressed` tuple from `pygame.mouse.get_pressed()` is reduced to the two booleans for buttons 1 and 3.
