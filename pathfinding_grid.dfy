/**
 * The pure helpers of the grid path search: the flat index of a cell,
 * the distance cost between two cells and the bounds test.
 * All arithmetic is on unbounded integers; the grids in question are small
 * enough that the job's 32-bit arithmetic never wraps.
 */
module PathGrid {
  import opened Mathx

  /** A pair of integers, like `int2`. */
  datatype Int2 = Int2(x: int, y: int)

  function Abs(v: int): int { if v < 0 then -v else v }

  function Min(a: int, b: int): int { if a < b then a else b }

  function Max(a: int, b: int): int { if a < b then b else a }

  /** Row-major flat index of cell (x, y) in a grid `width` cells wide. */
  function CalculateNodeIndex(x: int, y: int, width: int): int
  {
    x + y * width
  }

  /**
   * The distance cost between two cells: min(dx, dy) + |dx - dy|, which is
   * the Chebyshev distance max(dx, dy). It is used both as the heuristic
   * and as the step cost of a move.
   */
  function CalculateDistanceCost(a: Int2, b: Int2): (r: int)
    ensures r == Max(Abs(a.x - b.x), Abs(a.y - b.y))
    ensures r >= 0
    ensures r == 0 <==> a == b
  {
    var dx := Abs(a.x - b.x);
    var dy := Abs(a.y - b.y);
    var d := Abs(dx - dy);
    Min(dx, dy) + d
  }

  /** The bounds test of the search, built from two `Between` tests. */
  predicate IsPositionInsideGrid(gridPosition: Int2, gridSize: Int2)
    ensures IsPositionInsideGrid(gridPosition, gridSize) <==>
      0 <= gridPosition.x < gridSize.x && 0 <= gridPosition.y < gridSize.y
  {
    Between(-1, gridSize.x, gridPosition.x) && Between(-1, gridSize.y, gridPosition.y)
  }

  /** The distance cost does not depend on the order of its arguments. */
  lemma DistanceCostSymmetric(a: Int2, b: Int2)
    ensures CalculateDistanceCost(a, b) == CalculateDistanceCost(b, a)
  {
  }

  /** The distance cost obeys the triangle inequality. */
  lemma DistanceCostTriangle(a: Int2, b: Int2, c: Int2)
    ensures CalculateDistanceCost(a, c) <= CalculateDistanceCost(a, b) + CalculateDistanceCost(b, c)
  {
  }

  /** Multiplying by a non-negative factor keeps the order (when it holds). */
  lemma MulMonotone(a: int, b: int, w: int)
    requires 0 <= w
    ensures a <= b ==> a * w <= b * w
    decreases if a < b then b - a else 0
  {
    if a < b {
      MulMonotone(a, b - 1, w);
      assert b * w == (b - 1) * w + w;
    }
  }

  /** Every in-grid cell has its index among the w*h slots of the grid. */
  lemma NodeIndexInRange(x: int, y: int, w: int, h: int)
    requires 0 <= x < w && 0 <= y < h
    ensures 0 <= CalculateNodeIndex(x, y, w) < w * h
  {
    MulMonotone(y + 1, h, w);
    assert (y + 1) * w == y * w + w;
  }

  /** The index determines the cell: x is its remainder and y its quotient by w. */
  lemma NodeIndexCoordinates(x: int, y: int, w: int)
    requires 0 <= x < w && 0 <= y
    ensures CalculateNodeIndex(x, y, w) % w == x
    ensures CalculateNodeIndex(x, y, w) / w == y
  {
    var i := x + y * w;
    var q, r := i / w, i % w;
    assert i == q * w + r;
    assert (y - q) * w == r - x;
    assert (q - y) * w == x - r;
    MulMonotone(1, y - q, w);
    MulMonotone(1, q - y, w);
  }

  /** Two in-grid cells with the same index are the same cell. */
  lemma NodeIndexInjective(x1: int, y1: int, x2: int, y2: int, w: int)
    requires 0 <= x1 < w && 0 <= y1 && 0 <= x2 < w && 0 <= y2
    requires CalculateNodeIndex(x1, y1, w) == CalculateNodeIndex(x2, y2, w)
    ensures x1 == x2 && y1 == y2
  {
    NodeIndexCoordinates(x1, y1, w);
    NodeIndexCoordinates(x2, y2, w);
  }

  /** Every slot index of a w-by-h grid is the index of the cell (i % w, i / w). */
  lemma SlotCoordinates(i: int, w: int, h: int)
    requires 0 < w && 0 <= i < w * h
    ensures 0 <= i % w < w && 0 <= i / w < h
    ensures CalculateNodeIndex(i % w, i / w, w) == i
  {
    var q := i / w;
    assert i == q * w + i % w;
    MulMonotone(h, q, w);
  }
}
