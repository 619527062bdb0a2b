/** Grid coordinates, the Chebyshev distance and the square neighbourhood of a cell. */
module Cells {

  /** A cell as the game passes it around: (row, column). */
  type Cell = (int, int)

  function Abs(n: int): nat
  {
    if n < 0 then -n else n
  }

  /** Chebyshev distance: the larger of the row and the column difference. */
  function Dist(a: Cell, b: Cell): nat
  {
    var dr, dc := Abs(a.0 - b.0), Abs(a.1 - b.1);
    if dr < dc then dc else dr
  }

  predicate InBounds(rows: int, cols: int, c: Cell)
  {
    0 <= c.0 < rows && 0 <= c.1 < cols
  }

  /** c is one of the cells that get_neighbors reports around center. */
  predicate IsNeighbor(rows: int, cols: int, center: Cell, c: Cell, offset: nat)
  {
    InBounds(rows, cols, c) && Dist(center, c) <= offset && c != center
  }

  /** Row-major order: the order in which the nested loops visit the square. */
  predicate Before(a: Cell, b: Cell)
  {
    a.0 < b.0 || (a.0 == b.0 && a.1 < b.1)
  }

  lemma SubsetCard<T>(a: set<T>, b: set<T>)
    requires a <= b
    ensures |a| <= |b|
  {
    assert b == a + (b - a);
  }

  /**
   * get_neighbors: scan the (2*offset+1)-square around (x, y) row by row,
   * skipping cells off the grid and the centre itself.
   */
  method GetNeighbors(rows: nat, cols: nat, x: int, y: int, offset: nat) returns (ns: seq<Cell>)
    ensures forall c :: c in ns <==> IsNeighbor(rows, cols, (x, y), c, offset)
    ensures forall p, q :: 0 <= p < q < |ns| ==> Before(ns[p], ns[q])
    ensures |ns| <= (2 * offset + 1) * (2 * offset + 1) - 1
  {
    ns := [];
    ghost var side := 2 * offset + 1;
    for i := x - offset to x + offset + 1
      invariant forall c :: c in ns <==> IsNeighbor(rows, cols, (x, y), c, offset) && c.0 < i
      invariant forall p, q :: 0 <= p < q < |ns| ==> Before(ns[p], ns[q])
      invariant forall p :: 0 <= p < |ns| ==> ns[p].0 < i
      invariant |ns| + (if x < i then 1 else 0) <= (i - (x - offset)) * side
    {
      for j := y - offset to y + offset + 1
        invariant forall c :: c in ns <==> IsNeighbor(rows, cols, (x, y), c, offset) && Before(c, (i, j))
        invariant forall p, q :: 0 <= p < q < |ns| ==> Before(ns[p], ns[q])
        invariant forall p :: 0 <= p < |ns| ==> Before(ns[p], (i, j))
        invariant |ns| + (if Before((x, y), (i, j)) then 1 else 0) <= (i - (x - offset)) * side + (j - (y - offset))
      {
        if i < 0 || j < 0 || i >= rows || j >= cols {
          continue;
        }
        if i == x && j == y {
          continue;
        }
        ns := ns + [(i, j)];
      }
      assert (i + 1 - (x - offset)) * side == (i - (x - offset)) * side + side;
    }
  }
}
