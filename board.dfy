/** Board generation: mine placement outside the safe zone and the neighbour counts. */
module Board {
  import opened Cells

  /** Every cell of a rows x cols grid. */
  function AllCells(rows: nat, cols: nat): set<Cell>
  {
    set i, j | 0 <= i < rows && 0 <= j < cols :: (i, j)
  }

  /** The h x w block of cells whose top-left corner is (r0, c0). */
  function Rect(r0: int, c0: int, h: nat, w: nat): set<Cell>
  {
    set i, j | r0 <= i < r0 + h && c0 <= j < c0 + w :: (i, j)
  }

  /** Row r of a block: the w cells from column c0 on. */
  function RowCells(r: int, c0: int, w: nat): set<Cell>
  {
    set j | c0 <= j < c0 + w :: (r, j)
  }

  /**
   * The "friendlies" of create_grid: the click cell and every in-bounds cell
   * within Chebyshev distance 2 of it.
   */
  function SafeZone(rows: nat, cols: nat, click: Cell): set<Cell>
  {
    set i, j | 0 <= i < rows && 0 <= j < cols && Dist(click, (i, j)) <= 2 :: (i, j)
  }

  lemma ZoneMember(rows: nat, cols: nat, click: Cell, c: Cell)
    ensures c in AllCells(rows, cols) <==> InBounds(rows, cols, c)
    ensures c in SafeZone(rows, cols, click) <==> InBounds(rows, cols, c) && Dist(click, c) <= 2
  {
  }

  /** The safe zone lies in the 5 x 5 square around the click, so it has at most 25 cells. */
  lemma SafeZoneAtMost25(rows: nat, cols: nat, click: Cell)
    ensures |SafeZone(rows, cols, click)| <= 25
  {
    var square := Rect(click.0 - 2, click.1 - 2, 5, 5);
    forall c | c in SafeZone(rows, cols, click) ensures c in square {
      ZoneMember(rows, cols, click, c);
    }
    SubsetCard(SafeZone(rows, cols, click), square);
    RectCard(click.0 - 2, click.1 - 2, 5, 5);
  }

  /**
   * On a 5 x 5 board a first click in the centre makes every cell safe, so
   * no mine can be placed: the drawing loop of create_grid would never end
   * for one mine or more.
   */
  lemma CentreClickLeavesNoRoom()
    ensures SafeZone(5, 5, (2, 2)) == AllCells(5, 5)
    ensures 5 * 5 - |SafeZone(5, 5, (2, 2))| == 0
  {
    forall c | c in AllCells(5, 5) ensures c in SafeZone(5, 5, (2, 2)) {
      ZoneMember(5, 5, (2, 2), c);
    }
    forall c | c in SafeZone(5, 5, (2, 2)) ensures c in AllCells(5, 5) {
      ZoneMember(5, 5, (2, 2), c);
    }
    AllCellsCard(5, 5);
  }

  /** The mines counted in cell c: those whose neighbour list contains c. */
  function AdjacentMines(mines: set<Cell>, c: Cell): set<Cell>
  {
    set m | m in mines && Dist(m, c) <= 1 && m != c
  }

  /** What create_grid leaves in cell c: -1 on a mine, the adjacent-mine count elsewhere. */
  function CellValue(mines: set<Cell>, c: Cell): int
  {
    if c in mines then -1 else |AdjacentMines(mines, c)|
  }

  /** The grid holds CellValue(mines, _) in every cell. */
  ghost predicate Matches(grid: array2<int>, mines: set<Cell>)
    reads grid
  {
    forall i, j :: 0 <= i < grid.Length0 && 0 <= j < grid.Length1 ==> grid[i, j] == CellValue(mines, (i, j))
  }

  lemma {:induction false} RowCellsCard(r: int, c0: int, w: nat)
    ensures |RowCells(r, c0, w)| == w
  {
    if w > 0 {
      RowCellsCard(r, c0, w - 1);
      var j := c0 + w - 1;
      var shorter := RowCells(r, c0, w - 1);
      forall c | c in RowCells(r, c0, w) ensures c in shorter + {(r, j)} {
        if c.1 < j { assert c in shorter; }
      }
      assert RowCells(r, c0, w) == shorter + {(r, j)};
    }
  }

  /** The last row split off: a block of h + 1 rows is a block of h rows plus one row. */
  lemma RectSplit(r0: int, c0: int, h: nat, w: nat)
    ensures Rect(r0, c0, h + 1, w) == Rect(r0, c0, h, w) + RowCells(r0 + h, c0, w)
    ensures Rect(r0, c0, h, w) !! RowCells(r0 + h, c0, w)
  {
    var last := RowCells(r0 + h, c0, w);
    forall c | c in Rect(r0, c0, h + 1, w) ensures c in Rect(r0, c0, h, w) + last {
      if c.0 < r0 + h { assert c in Rect(r0, c0, h, w); } else { assert c in last; }
    }
  }

  /** An h x w block has h * w cells. */
  lemma {:induction false} RectCard(r0: int, c0: int, h: nat, w: nat)
    ensures |Rect(r0, c0, h, w)| == h * w
  {
    if h > 0 {
      RectCard(r0, c0, h - 1, w);
      RowCellsCard(r0 + h - 1, c0, w);
      RectSplit(r0, c0, h - 1, w);
      var n := |Rect(r0, c0, h, w)|;
      assert n == (h - 1) * w + w;
    }
  }

  /** A rows x cols grid has rows * cols cells. */
  lemma AllCellsCard(rows: nat, cols: nat)
    ensures |AllCells(rows, cols)| == rows * cols
  {
    assert AllCells(rows, cols) == Rect(0, 0, rows, cols);
    RectCard(0, 0, rows, cols);
  }

  /** A cell has at most eight neighbours, so a count never exceeds 8. */
  lemma CountAtMostEight(mines: set<Cell>, c: Cell)
    ensures 0 <= |AdjacentMines(mines, c)| <= 8
  {
    var (x, y) := c;
    var ring := {(x - 1, y - 1), (x - 1, y), (x - 1, y + 1), (x, y - 1),
                 (x, y + 1), (x + 1, y - 1), (x + 1, y), (x + 1, y + 1)};
    forall m | m in AdjacentMines(mines, c) ensures m in ring {
      assert -1 <= m.0 - x <= 1 && -1 <= m.1 - y <= 1;
    }
    SubsetCard(AdjacentMines(mines, c), ring);
  }

  /**
   * No mine lies within distance 2 of the click, so the click and its eight
   * neighbours are mine-free cells with no adjacent mine.
   */
  lemma FirstClickOpens(mines: set<Cell>, click: Cell, c: Cell)
    requires forall m :: m in mines ==> Dist(click, m) > 2
    requires Dist(click, c) <= 1
    ensures CellValue(mines, c) == 0
  {
    assert c !in mines;
    forall m | m in mines ensures !(Dist(m, c) <= 1) {
      assert Dist(click, m) > 2;
    }
    assert AdjacentMines(mines, c) == {};
  }

  /** Adding mine pos raises the count of exactly the cells in pos's neighbour list. */
  lemma AddMine(rows: nat, cols: nat, done: set<Cell>, pos: Cell, c: Cell)
    requires pos !in done && c != pos && InBounds(rows, cols, c)
    ensures |AdjacentMines(done + {pos}, c)|
         == |AdjacentMines(done, c)| + (if IsNeighbor(rows, cols, pos, c, 1) then 1 else 0)
  {
    if IsNeighbor(rows, cols, pos, c, 1) {
      assert AdjacentMines(done + {pos}, c) == AdjacentMines(done, c) + {pos};
    } else {
      assert AdjacentMines(done + {pos}, c) == AdjacentMines(done, c);
    }
  }

  /** The cells a mine may be drawn on: off the friendlies list, rows * cols - |SafeZone| of them. */
  lemma FreeCells(rows: nat, cols: nat, click: Cell, friendlies: seq<Cell>)
    requires InBounds(rows, cols, click)
    requires forall c :: c in friendlies <==> c == click || IsNeighbor(rows, cols, click, c, 2)
    ensures forall c :: c in AllCells(rows, cols) - SafeZone(rows, cols, click) <==> InBounds(rows, cols, c) && c !in friendlies
    ensures forall c :: c in AllCells(rows, cols) - SafeZone(rows, cols, click) ==> Dist(click, c) > 2
    ensures |AllCells(rows, cols) - SafeZone(rows, cols, click)| == rows * cols - |SafeZone(rows, cols, click)|
  {
    forall c ensures c in AllCells(rows, cols) - SafeZone(rows, cols, click) <==> InBounds(rows, cols, c) && c !in friendlies {
      ZoneMember(rows, cols, click, c);
    }
    forall c | c in SafeZone(rows, cols, click) ensures c in AllCells(rows, cols) {
      ZoneMember(rows, cols, click, c);
    }
    AllCellsCard(rows, cols);
  }

  /**
   * The drawing loop of create_grid: collect numMines distinct cells outside
   * the safe zone. Each turn takes the next accepted draw; a draw in the safe
   * zone or on a cell already chosen leaves the state as it was.
   */
  method PlaceMines(rows: nat, cols: nat, numMines: nat, click: Cell) returns (mines: set<Cell>)
    requires InBounds(rows, cols, click)
    requires numMines <= rows * cols - |SafeZone(rows, cols, click)|
    ensures |mines| == numMines
    ensures forall m :: m in mines ==> InBounds(rows, cols, m) && Dist(click, m) > 2
  {
    mines := {};
    var friendlies := GetNeighbors(rows, cols, click.0, click.1, 2);
    friendlies := friendlies + [click];
    ghost var free := AllCells(rows, cols) - SafeZone(rows, cols, click);
    FreeCells(rows, cols, click, friendlies);
    while |mines| < numMines
      invariant mines <= free
      invariant |mines| <= numMines
      decreases numMines - |mines|
    {
      ghost var c: Cell :| c in free - mines by {
        SubsetCard(mines, free);
        assert |free - mines| > 0;
      }
      var x, y :| 0 <= x < rows && 0 <= y < cols && (x, y) !in friendlies && (x, y) !in mines;
      mines := mines + {(x, y)};
    }
  }

  /**
   * One turn of the counting loop of create_grid, after -1 is written on pos:
   * raise each neighbour of pos that does not hold -1. A neighbour that is a
   * mine still to come is raised too; its own turn overwrites it with -1.
   */
  method RaiseNeighbors(grid: array2<int>, pos: Cell, ghost done: set<Cell>)
    requires InBounds(grid.Length0, grid.Length1, pos) && pos !in done
    requires forall i, j :: 0 <= i < grid.Length0 && 0 <= j < grid.Length1 ==>
      grid[i, j] == if (i, j) in done + {pos} then -1 else |AdjacentMines(done, (i, j))|
    modifies grid
    ensures forall i, j :: 0 <= i < grid.Length0 && 0 <= j < grid.Length1 ==>
      grid[i, j] == CellValue(done + {pos}, (i, j))
  {
    var rows, cols := grid.Length0, grid.Length1;
    var ns := GetNeighbors(rows, cols, pos.0, pos.1, 1);
    for k := 0 to |ns|
      invariant forall i, j :: 0 <= i < rows && 0 <= j < cols ==>
        grid[i, j] == if (i, j) in done + {pos} then -1
                      else |AdjacentMines(done, (i, j))| + (if (i, j) in ns[..k] then 1 else 0)
    {
      var nb := ns[k];
      assert nb in ns;
      assert ns[..k + 1] == ns[..k] + [nb];
      assert nb !in ns[..k] by {
        forall p | 0 <= p < k ensures ns[p] != nb { assert Before(ns[p], ns[k]); }
      }
      if grid[nb.0, nb.1] != -1 {
        grid[nb.0, nb.1] := grid[nb.0, nb.1] + 1;
      }
    }
    assert ns[..|ns|] == ns;
    forall i, j | 0 <= i < rows && 0 <= j < cols && (i, j) !in done + {pos}
      ensures grid[i, j] == |AdjacentMines(done + {pos}, (i, j))|
    {
      AddMine(rows, cols, done, pos, (i, j));
    }
  }

  /**
   * The counting loop of create_grid: visit the mines in some order, writing
   * -1 on each and raising its neighbours.
   */
  method SetCounts(grid: array2<int>, mines: set<Cell>)
    requires forall m :: m in mines ==> InBounds(grid.Length0, grid.Length1, m)
    requires forall i, j :: 0 <= i < grid.Length0 && 0 <= j < grid.Length1 ==> grid[i, j] == 0
    modifies grid
    ensures Matches(grid, mines)
  {
    var remaining := mines;
    while remaining != {}
      invariant remaining <= mines
      invariant forall i, j :: 0 <= i < grid.Length0 && 0 <= j < grid.Length1 ==>
        grid[i, j] == CellValue(mines - remaining, (i, j))
      decreases |remaining|
    {
      var pos :| pos in remaining;
      ghost var done := mines - remaining;
      grid[pos.0, pos.1] := -1;
      RaiseNeighbors(grid, pos, done);
      remaining := remaining - {pos};
      assert mines - remaining == done + {pos};
    }
    assert mines - remaining == mines;
  }

  /** create_grid: mines outside the safe zone, -1 on each and counts elsewhere. */
  method CreateGrid(rows: nat, cols: nat, numMines: nat, click: Cell) returns (grid: array2<int>, mines: set<Cell>)
    requires InBounds(rows, cols, click)
    requires numMines <= rows * cols - |SafeZone(rows, cols, click)|
    ensures fresh(grid) && grid.Length0 == rows && grid.Length1 == cols
    ensures |mines| == numMines
    ensures forall m :: m in mines ==> InBounds(rows, cols, m) && Dist(click, m) > 2
    ensures Matches(grid, mines)
  {
    grid := new int[rows, cols]((_, _) => 0);
    mines := PlaceMines(rows, cols, numMines, click);
    SetCounts(grid, mines);
  }
}
