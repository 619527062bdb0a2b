/** The game state of main and the transitions of its event loop. */
module Game {
  import opened Cells
  import opened Board
  import opened Reveal
  import opened Mouse
  import opened Report

  datatype Status = Playing | Won | Lost

  /** The right-click toggle: pos joins the flags when absent and leaves them when present. */
  function Toggle(flags: set<Cell>, pos: Cell): (r: set<Cell>)
    ensures pos in r <==> pos !in flags
    ensures forall c :: c != pos ==> (c in r <==> c in flags)
  {
    if pos in flags then flags - {pos} else flags + {pos}
  }

  /** Two right clicks on the same cell leave the flags as they were. */
  lemma ToggleTwice(flags: set<Cell>, pos: Cell)
    ensures Toggle(Toggle(flags, pos), pos) == flags
  {
  }

  /** The win test of the main loop: the flags are exactly the mines. */
  predicate Wins(flags: set<Cell>, mines: set<Cell>)
  {
    flags == mines
  }

  /** A flag on a cell without a mine blocks the win, even when every mine is flagged. */
  lemma ExtraFlagBlocksWin(flags: set<Cell>, mines: set<Cell>, c: Cell)
    requires c in flags && c !in mines
    ensures !Wins(flags, mines)
  {
  }

  /** A mine without a flag blocks the win. */
  lemma MissingFlagBlocksWin(flags: set<Cell>, mines: set<Cell>, m: Cell)
    requires m in mines && m !in flags
    ensures !Wins(flags, mines)
  {
  }

  /**
   * Every first click on the board of the 20 x 20 game with five mines
   * starts a game: its cell is on the grid and the mines fit outside its
   * safe zone, so the drawing loop of create_grid ends.
   */
  lemma DefaultGameStarts(x: int, y: int)
    requires 0 <= x < WIDTH && BUFFER <= y < HEIGHT
    ensures PosFromMouse(x, y).Some?
    ensures InBounds(ROWS, COLS, PosFromMouse(x, y).value)
    ensures MINES <= ROWS * COLS - |SafeZone(ROWS, COLS, PosFromMouse(x, y).value)|
  {
    BoardPixelInBounds(x, y);
    SafeZoneAtMost25(ROWS, COLS, PosFromMouse(x, y).value);
  }

  ghost predicate NoMineShown(vis: set<Cell>, mines: set<Cell>)
  {
    forall c :: c in vis ==> c !in mines
  }

  /** A reveal started on a cell that is not a mine shows no mine. */
  lemma NoMineAfterReveals(field: array2<int>, mines: set<Cell>, click: Cell,
                           before: set<Cell>, after: set<Cell>, entered: seq<Cell>)
    requires Matches(field, mines) && NoMineShown(before, mines)
    requires !IsMine(field, click)
    requires Reveals(field, click, before, after, entered)
    ensures NoMineShown(after, mines)
  {
    forall c | c in after ensures c !in mines {
      if c !in before {
        assert InBounds(field.Length0, field.Length1, c);
        assert field[c.0, c.1] == CellValue(mines, c);
        if c in entered {
          if c != click {
            assert IsZero(field, c);
          }
        } else {
          assert !IsMine(field, c);
        }
      }
    }
  }

  /**
   * The flood from the first click on an all-hidden mask: with no mine within
   * distance 2, the click and its neighbours hold 0, so they are all shown,
   * and the shown cells are closed and hold no mine.
   */
  lemma FirstReveal(field: array2<int>, mines: set<Cell>, click: Cell, after: set<Cell>, entered: seq<Cell>)
    requires Matches(field, mines) && InBounds(field.Length0, field.Length1, click)
    requires forall m :: m in mines ==> Dist(click, m) > 2
    requires Reveals(field, click, {}, after, entered)
    ensures Closed(after, field) && NoMineShown(after, mines)
    ensures forall c :: c == click || IsNeighbor(field.Length0, field.Length1, click, c, 1) ==> c in after
  {
    FirstClickOpens(mines, click, click);
    ClosedAfterReveals(field, click, {}, after, entered);
    NoMineAfterReveals(field, mines, click, {}, after, entered);
    forall c | IsNeighbor(field.Length0, field.Length1, click, c, 1) ensures c in after {
      FirstClickOpens(mines, click, c);
      assert OpenedIn(after, field, click);
    }
  }

  /** A generated board holds -1..8 only, so its snapshot has one character per cell. */
  lemma BoardGlyphs(field: array2<int>, mines: set<Cell>)
    requires Matches(field, mines)
    ensures SingleGlyphs(Rows(field), field.Length1)
  {
    forall i, j | 0 <= i < field.Length0 && 0 <= j < field.Length1 ensures -1 <= field[i, j] <= 8 {
      CountAtMostEight(mines, (i, j));
    }
  }

  /** main.py:262-267 as written: whatever pos_from_mouse returned is toggled, None included. */
  function ToggleAsWritten(flags: set<Option<Cell>>, pos: Option<Cell>): (r: set<Option<Cell>>)
    ensures pos in r <==> pos !in flags
    ensures forall p :: p != pos ==> (p in r <==> p in flags)
  {
    if pos in flags then flags - {pos} else flags + {pos}
  }

  /** The mines as the flag set of the as-written model would have to hold them. */
  function Lifted(mines: set<Cell>): set<Option<Cell>>
  {
    set m | m in mines :: Some(m)
  }

  /**
   * As written, a right click in the title band adds None to the flags, and a
   * flag set holding None never equals the mines: the game cannot be won
   * until a second right click in the band takes it out again.
   */
  lemma HeaderRightClickBlocksWin(flags: set<Option<Cell>>, mines: set<Cell>, x: int, y: int)
    requires 0 <= x < WIDTH && 0 <= y < BUFFER
    requires None !in flags
    ensures None in ToggleAsWritten(flags, PosFromMouse(x, y))
    ensures ToggleAsWritten(flags, PosFromMouse(x, y)) != Lifted(mines)
  {
    assert None !in Lifted(mines);
  }

  /** The state main keeps between events: the board, the mask, the mines, the flags and the outcome. */
  class Game {
    const rows: nat
    const cols: nat
    const field: array2<int>
    const mask: array2<bool>
    const mines: set<Cell>
    var flags: set<Cell>
    var status: Status

    /**
     * The board is the one create_grid made for mines; the shown cells are
     * closed (every shown 0-cell has its non-mine neighbours shown) and hold
     * no mine; a won game has its flags on exactly the mines.
     */
    ghost predicate Valid()
      reads this, field, mask
    {
      && field.Length0 == rows && field.Length1 == cols
      && SameShape(mask, field)
      && (forall m :: m in mines ==> InBounds(rows, cols, m))
      && Matches(field, mines)
      && Closed(View(mask), field)
      && NoMineShown(View(mask), mines)
      && (status == Won ==> Wins(flags, mines))
    }

    /**
     * main.py:233-239: generate the board around the first click and flood
     * from it on an all-hidden mask. The click and its neighbours hold 0, so
     * all of them are shown.
     */
    constructor (rows: nat, cols: nat, numMines: nat, click: Cell)
      requires InBounds(rows, cols, click)
      requires numMines <= rows * cols - |SafeZone(rows, cols, click)|
      ensures Valid() && status == Playing && flags == {}
      ensures fresh(field) && fresh(mask)
      ensures this.rows == rows && this.cols == cols
      ensures |mines| == numMines && forall m :: m in mines ==> Dist(click, m) > 2
      ensures forall c :: c == click || IsNeighbor(rows, cols, click, c, 1) ==> c in View(mask)
      ensures exists entered :: Reveals(field, click, {}, View(mask), entered)
    {
      var grid, ms := CreateGrid(rows, cols, numMines, click);
      var m := new bool[rows, cols]((_, _) => false);
      assert View(m) == {} by {
        forall c | c in View(m) ensures false {
          ViewMember(m, c);
        }
      }
      ghost var entered := CreateMask(m, grid, click);
      FirstReveal(grid, ms, click, View(m), entered);
      this.rows, this.cols := rows, cols;
      field, mask, mines := grid, m, ms;
      flags, status := {}, Playing;
      new;
      assert Reveals(field, click, {}, View(mask), entered);
    }

    /**
     * A left click on pos (main.py:251-261): a mine loses, a 0-cell floods,
     * any other cell is shown alone. Flags do not stop a left click. The flood
     * shows exactly what flood paths from pos reach, so a click on a cell that
     * is already shown changes nothing.
     */
    method LeftClick(pos: Cell)
      requires Valid() && status == Playing && InBounds(rows, cols, pos)
      modifies this, mask
      ensures Valid() && flags == old(flags)
      ensures old(View(mask)) <= View(mask)
      ensures field[pos.0, pos.1] == -1 ==> status == Lost && unchanged(mask)
      ensures field[pos.0, pos.1] != -1 ==> status == Playing && pos in View(mask)
      ensures field[pos.0, pos.1] == 0 ==>
        && status == Playing
        && (exists entered :: Reveals(field, pos, old(View(mask)), View(mask), entered))
        && (forall p :: ZeroPath(field, p) && p[0] == pos ==> p[|p| - 1] in View(mask))
        && (forall c :: c in View(mask) - old(View(mask)) ==>
              exists p :: FloodPath(field, old(View(mask)), pos, p) && p[|p| - 1] == c)
      ensures field[pos.0, pos.1] > 0 ==>
        && status == Playing
        && View(mask) == old(View(mask)) + {pos}
        && forall i, j :: 0 <= i < rows && 0 <= j < cols && (i, j) != pos ==> mask[i, j] == old(mask[i, j])
      ensures pos in old(View(mask)) ==> status == Playing && View(mask) == old(View(mask))
    {
      var value := field[pos.0, pos.1];
      if value == -1 {
        status := Lost;
      } else if value == 0 {
        ghost var before := View(mask);
        ghost var entered := CreateMask(mask, field, pos);
        FloodConfined(field, pos, before, View(mask), entered);
        if pos in before {
          ShownZeroFloodChangesNothing(field, pos, before, View(mask), entered);
        }
        ClosedAfterReveals(field, pos, before, View(mask), entered);
        NoMineAfterReveals(field, mines, pos, before, View(mask), entered);
        forall p | ZeroPath(field, p) && p[0] == pos ensures p[|p| - 1] in View(mask) {
          ZeroPathShown(View(mask), field, p);
        }
      } else if value > 0 {
        ghost var before := View(mask);
        assert pos !in mines by {
          assert field[pos.0, pos.1] == CellValue(mines, pos);
        }
        Show(mask, pos);
        ClosedAfterShowing(before, field, pos);
      }
    }

    /** A right click on pos (main.py:262-267) toggles its flag, shown or not. */
    method RightClick(pos: Cell)
      requires Valid() && status == Playing && InBounds(rows, cols, pos)
      modifies this
      ensures Valid() && status == Playing
      ensures flags == Toggle(old(flags), pos)
    {
      flags := Toggle(flags, pos);
    }

    /** The test after each tick of the main loop (main.py:271-273): the game is won when the flags are the mines. */
    method CheckWin()
      requires Valid() && status == Playing
      modifies this
      ensures Valid() && flags == old(flags)
      ensures status == Won <==> Wins(flags, mines)
      ensures status == Won || status == Playing
    {
      if flags == mines {
        status := Won;
      }
    }

    /**
     * One mouse-button event of the main loop (main.py:249-267) at pixel
     * (x, y): button 1 takes precedence over button 3, and a click in the
     * title band changes nothing. A left click has the effect LeftClick
     * states for its cell.
     */
    method MouseDown(left: bool, right: bool, x: int, y: int)
      requires Valid() && status == Playing && rows == ROWS && cols == COLS
      requires 0 <= x < WIDTH && y < HEIGHT
      modifies this, mask
      ensures Valid()
      ensures PosFromMouse(x, y).None? || (!left && !right) ==>
        status == Playing && flags == old(flags) && unchanged(mask)
      ensures PosFromMouse(x, y).Some? && left ==>
        var pos := PosFromMouse(x, y).value;
        && InBounds(rows, cols, pos)
        && flags == old(flags) && old(View(mask)) <= View(mask)
        && (status == Lost <==> pos in mines)
        && (field[pos.0, pos.1] == -1 ==> unchanged(mask))
        && (field[pos.0, pos.1] != -1 ==> status == Playing && pos in View(mask))
        && (field[pos.0, pos.1] == 0 ==>
              && (exists entered :: Reveals(field, pos, old(View(mask)), View(mask), entered))
              && (forall p :: ZeroPath(field, p) && p[0] == pos ==> p[|p| - 1] in View(mask))
              && (forall c :: c in View(mask) - old(View(mask)) ==>
                    exists p :: FloodPath(field, old(View(mask)), pos, p) && p[|p| - 1] == c))
        && (field[pos.0, pos.1] > 0 ==>
              && View(mask) == old(View(mask)) + {pos}
              && forall i, j :: 0 <= i < rows && 0 <= j < cols && (i, j) != pos ==> mask[i, j] == old(mask[i, j]))
        && (pos in old(View(mask)) ==> View(mask) == old(View(mask)))
      ensures PosFromMouse(x, y).Some? && !left && right ==>
        status == Playing && flags == Toggle(old(flags), PosFromMouse(x, y).value) && unchanged(mask)
    {
      var pos := PosFromMouse(x, y);
      if pos.None? {
        return;
      }
      if 0 <= y {
        BoardPixelInBounds(x, y);
      }
      if left {
        assert field[pos.value.0, pos.value.1] == CellValue(mines, pos.value);
        LeftClick(pos.value);
      } else if right {
        RightClick(pos.value);
      }
    }

    /** The end-of-game snapshot written to last_game.txt; every cell's character reads back as its value. */
    method Snapshot() returns (s: string)
      requires Valid()
      ensures s == ReportText(Rows(field))
      ensures forall i, j :: 0 <= i < rows && 0 <= j < cols ==>
        CellPos(cols, i, j) < |s| && GlyphValue(s[CellPos(cols, i, j)]) == field[i, j]
    {
      s := WriteReport(field);
      BoardGlyphs(field, mines);
      forall i, j | 0 <= i < rows && 0 <= j < cols
        ensures CellPos(cols, i, j) < |s| && GlyphValue(s[CellPos(cols, i, j)]) == field[i, j]
      {
        ReportReadsBack(Rows(field), cols, i, j);
      }
    }
  }
}
