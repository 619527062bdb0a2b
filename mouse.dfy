/** The window layout and the mapping of a mouse position to a grid cell. */
module Mouse {
  import opened Cells

  const WIDTH: int := 700
  const HEIGHT: int := 800
  /** Height of the title band above the board. */
  const BUFFER: int := 100
  const ROWS: nat := 20
  const COLS: nat := 20
  const MINES: nat := 5

  datatype Option<T> = None | Some(value: T)

  /** Python's a // b for a positive divisor: the largest q with q * b <= a. */
  function FloorDiv(a: int, b: int): (q: int)
    requires b > 0
    ensures q * b <= a < q * b + b
  {
    a / b
  }

  /** Height of one cell row on screen: (HEIGHT - BUFFER) // ROWS. */
  function CellHeight(): (h: int)
    ensures h == 35
  {
    FloorDiv(HEIGHT - BUFFER, ROWS)
  }

  /** Width of one cell column on screen: WIDTH // COLS. */
  function CellWidth(): (w: int)
    ensures w == 35
  {
    FloorDiv(WIDTH, COLS)
  }

  /**
   * pos_from_mouse: the (row, column) under the pixel (x, y), or None when
   * the pixel lies in the title band. The returned cell's square on screen
   * contains the pixel.
   */
  function PosFromMouse(x: int, y: int): (r: Option<Cell>)
    ensures r.None? <==> y < BUFFER
    ensures r.Some? ==>
      && BUFFER + r.value.0 * CellHeight() <= y < BUFFER + r.value.0 * CellHeight() + CellHeight()
      && r.value.1 * CellWidth() <= x < r.value.1 * CellWidth() + CellWidth()
  {
    var gy := FloorDiv(y - BUFFER, CellHeight());
    var gx := FloorDiv(x, CellWidth());
    if gy < 0 then None else Some((gy, gx))
  }

  /** Every pixel of the board area maps to a cell of the 20 x 20 grid. */
  lemma BoardPixelInBounds(x: int, y: int)
    requires 0 <= x < WIDTH && BUFFER <= y < HEIGHT
    ensures PosFromMouse(x, y).Some?
    ensures InBounds(ROWS, COLS, PosFromMouse(x, y).value)
  {
    var c := PosFromMouse(x, y).value;
    assert 35 * c.0 <= y - 100 < 35 * c.0 + 35;
    assert 35 * c.1 <= x < 35 * c.1 + 35;
  }

  /**
   * draw_grid lays cell (i, j) out in the step x step cell square whose
   * top-left corner is (j * step, i * step + BUFFER), step = WIDTH // ROWS,
   * and paints inside it; every pixel of that cell square maps back to (i, j).
   */
  lemma DrawnSquareMapsBack(i: int, j: int, dx: int, dy: int)
    requires 0 <= dx < FloorDiv(WIDTH, ROWS) && 0 <= dy < FloorDiv(WIDTH, ROWS)
    requires 0 <= i
    ensures PosFromMouse(j * FloorDiv(WIDTH, ROWS) + dx, i * FloorDiv(WIDTH, ROWS) + BUFFER + dy) == Some((i, j))
  {
    var step := FloorDiv(WIDTH, ROWS);
    assert step == 35;
    var r := PosFromMouse(j * step + dx, i * step + BUFFER + dy);
    assert r.Some?;
    var (gy, gx) := r.value;
    assert 35 * gy <= 35 * i + dy < 35 * gy + 35;
    assert 35 * gx <= 35 * j + dx < 35 * gx + 35;
  }
}
