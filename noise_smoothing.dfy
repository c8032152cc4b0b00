/**
 * The cellular-automaton smoothing of the random 0/1 map: each pass
 * visits the cells row by row (y, then x) and, in place, sets a cell to 1
 * when more than 4 of its in-bounds neighbours are 1, to 0 when fewer
 * than 4 are, and leaves it alone at exactly 4. A cell's count sees the
 * values already written earlier in the same pass.
 *
 * The map is an `array2<int>` indexed `grid[x, y]`, with `Length0` and
 * `Length1` its extents in x and in y. Its abstract value is a sequence
 * of rows: `g[y][x]`.
 */
module NoiseSmoothing {
  import opened Mathx

  /** `g` has h rows of w cells each. */
  ghost predicate Shaped(g: seq<seq<int>>, w: int, h: int)
  {
    |g| == h && forall y :: 0 <= y < h ==> |g[y]| == w
  }

  /** Every cell of `g` is 0 or 1. */
  ghost predicate Binary(g: seq<seq<int>>)
  {
    forall y, x :: 0 <= y < |g| && 0 <= x < |g[y]| ==> g[y][x] == 0 || g[y][x] == 1
  }

  /** The abstract value of the map, as rows indexed by y. */
  ghost function Contents(grid: array2<int>): (g: seq<seq<int>>)
    reads grid
    ensures Shaped(g, grid.Length0, grid.Length1)
  {
    seq(grid.Length1, y requires 0 <= y < grid.Length1 reads grid =>
      seq(grid.Length0, x requires 0 <= x < grid.Length0 reads grid => grid[x, y]))
  }

  /** The value of cell (x, y), 0 outside the map. */
  ghost function Cell(g: seq<seq<int>>, w: int, h: int, x: int, y: int): int
    requires Shaped(g, w, h)
  {
    if 0 <= x < w && 0 <= y < h then g[y][x] else 0
  }

  /**
   * What the inner loop adds for position (dx, dy) around (x, y): nothing
   * for the cell itself or outside the map, else the value there.
   */
  ghost function Contribution(g: seq<seq<int>>, w: int, h: int, x: int, y: int, dx: int, dy: int): int
    requires Shaped(g, w, h)
  {
    if dx == x && dy == y then 0
    else if Between(-1, w, dx) && Between(-1, h, dy) then g[dy][dx]
    else 0
  }

  /** The sum of the contributions of row dy for dx from x - 1 up to, not including, dxEnd. */
  ghost function RowCount(g: seq<seq<int>>, w: int, h: int, x: int, y: int, dy: int, dxEnd: int): int
    requires Shaped(g, w, h) && x - 1 <= dxEnd
    decreases dxEnd - x
  {
    if dxEnd == x - 1 then 0
    else RowCount(g, w, h, x, y, dy, dxEnd - 1) + Contribution(g, w, h, x, y, dxEnd - 1, dy)
  }

  /** The sum of the three-cell rows dy from y - 1 up to, not including, dyEnd. */
  ghost function RowsCount(g: seq<seq<int>>, w: int, h: int, x: int, y: int, dyEnd: int): int
    requires Shaped(g, w, h) && y - 1 <= dyEnd
    decreases dyEnd - y
  {
    if dyEnd == y - 1 then 0
    else RowsCount(g, w, h, x, y, dyEnd - 1) + RowCount(g, w, h, x, y, dyEnd - 1, x + 2)
  }

  /** The counter the smoothing computes for cell (x, y). */
  ghost function NeighbourCount(g: seq<seq<int>>, w: int, h: int, x: int, y: int): int
    requires Shaped(g, w, h)
  {
    RowsCount(g, w, h, x, y, y + 2)
  }

  /** One row of three contributions, written out. */
  lemma RowCountExplicit(g: seq<seq<int>>, w: int, h: int, x: int, y: int, dy: int)
    requires Shaped(g, w, h)
    ensures RowCount(g, w, h, x, y, dy, x + 2) ==
      Contribution(g, w, h, x, y, x - 1, dy) + Contribution(g, w, h, x, y, x, dy)
      + Contribution(g, w, h, x, y, x + 1, dy)
  {
    assert RowCount(g, w, h, x, y, dy, x) == Contribution(g, w, h, x, y, x - 1, dy);
  }

  /**
   * The counter is the sum of the eight cells around (x, y), the cell
   * itself excluded, with cells outside the map counting 0.
   */
  lemma NeighbourCountExplicit(g: seq<seq<int>>, w: int, h: int, x: int, y: int)
    requires Shaped(g, w, h)
    ensures NeighbourCount(g, w, h, x, y) ==
      Cell(g, w, h, x - 1, y - 1) + Cell(g, w, h, x, y - 1) + Cell(g, w, h, x + 1, y - 1)
      + Cell(g, w, h, x - 1, y) + Cell(g, w, h, x + 1, y)
      + Cell(g, w, h, x - 1, y + 1) + Cell(g, w, h, x, y + 1) + Cell(g, w, h, x + 1, y + 1)
  {
    RowCountExplicit(g, w, h, x, y, y - 1);
    RowCountExplicit(g, w, h, x, y, y);
    RowCountExplicit(g, w, h, x, y, y + 1);
    assert RowsCount(g, w, h, x, y, y) == RowCount(g, w, h, x, y, y - 1, x + 2);
    assert RowsCount(g, w, h, x, y, y + 1) == RowsCount(g, w, h, x, y, y) + RowCount(g, w, h, x, y, y, x + 2);
  }

  /** On a 0/1 map the counter is between 0 and 8. */
  lemma NeighbourCountBounds(g: seq<seq<int>>, w: int, h: int, x: int, y: int)
    requires Shaped(g, w, h) && Binary(g)
    ensures 0 <= NeighbourCount(g, w, h, x, y) <= 8
  {
    NeighbourCountExplicit(g, w, h, x, y);
  }

  /** The rule: more than 4 gives 1, fewer than 4 gives 0, exactly 4 keeps the old value. */
  function Rule(counter: int, current: int): (r: int)
    ensures counter != 4 ==> (r == 1 <==> counter > 4) && (r == 0 <==> counter < 4)
    ensures r != current ==> counter != 4
    ensures (current == 0 || current == 1) ==> (r == 0 || r == 1)
  {
    if counter > 4 then 1 else if counter < 4 then 0 else current
  }

  /** The map after cell (x, y) is updated by the rule; no other cell changes. */
  ghost function UpdateCell(g: seq<seq<int>>, w: int, h: int, x: int, y: int): (r: seq<seq<int>>)
    requires Shaped(g, w, h) && 0 <= x < w && 0 <= y < h
    ensures Shaped(r, w, h)
    ensures r[y][x] == Rule(NeighbourCount(g, w, h, x, y), g[y][x])
    ensures forall y', x' :: 0 <= y' < h && 0 <= x' < w && (y', x') != (y, x) ==> r[y'][x'] == g[y'][x']
  {
    g[y := g[y][x := Rule(NeighbourCount(g, w, h, x, y), g[y][x])]]
  }

  /** The map after the first x cells of row y have been updated, left to right. */
  ghost function FoldRow(g: seq<seq<int>>, w: int, h: int, y: int, x: int): (r: seq<seq<int>>)
    requires Shaped(g, w, h) && 0 <= y < h && 0 <= x <= w
    ensures Shaped(r, w, h)
  {
    if x == 0 then g else UpdateCell(FoldRow(g, w, h, y, x - 1), w, h, x - 1, y)
  }

  /** The map after the first y rows have been updated, top to bottom. */
  ghost function FoldRows(g: seq<seq<int>>, w: int, h: int, y: int): (r: seq<seq<int>>)
    requires Shaped(g, w, h) && 0 <= w && 0 <= y <= h
    ensures Shaped(r, w, h)
  {
    if y == 0 then g else FoldRow(FoldRows(g, w, h, y - 1), w, h, y - 1, w)
  }

  /** One smoothing pass: every cell updated, in y-then-x order, in place. */
  ghost function Pass(g: seq<seq<int>>, w: int, h: int): (r: seq<seq<int>>)
    requires Shaped(g, w, h) && 0 <= w && 0 <= h
    ensures Shaped(r, w, h)
  {
    FoldRows(g, w, h, h)
  }

  /** The map after `passes` smoothing passes. */
  ghost function Smoothed(g: seq<seq<int>>, w: int, h: int, passes: nat): (r: seq<seq<int>>)
    requires Shaped(g, w, h) && 0 <= w && 0 <= h
    ensures Shaped(r, w, h)
  {
    if passes == 0 then g else Pass(Smoothed(g, w, h, passes - 1), w, h)
  }

  /** The rule keeps a 0/1 map 0/1. */
  lemma UpdateCellBinary(g: seq<seq<int>>, w: int, h: int, x: int, y: int)
    requires Shaped(g, w, h) && 0 <= x < w && 0 <= y < h && Binary(g)
    ensures Binary(UpdateCell(g, w, h, x, y))
  {
  }

  lemma {:induction false} FoldRowBinary(g: seq<seq<int>>, w: int, h: int, y: int, x: int)
    requires Shaped(g, w, h) && 0 <= y < h && 0 <= x <= w && Binary(g)
    ensures Binary(FoldRow(g, w, h, y, x))
  {
    if x > 0 {
      FoldRowBinary(g, w, h, y, x - 1);
      UpdateCellBinary(FoldRow(g, w, h, y, x - 1), w, h, x - 1, y);
    }
  }

  lemma {:induction false} FoldRowsBinary(g: seq<seq<int>>, w: int, h: int, y: int)
    requires Shaped(g, w, h) && 0 <= y <= h && 0 <= w && Binary(g)
    ensures Binary(FoldRows(g, w, h, y))
  {
    if y > 0 {
      FoldRowsBinary(g, w, h, y - 1);
      FoldRowBinary(FoldRows(g, w, h, y - 1), w, h, y - 1, w);
    }
  }

  /** A map of 0s and 1s holds only 0s and 1s after any number of passes. */
  lemma {:induction false} SmoothedBinary(g: seq<seq<int>>, w: int, h: int, passes: nat)
    requires Shaped(g, w, h) && 0 <= w && 0 <= h && Binary(g)
    ensures Binary(Smoothed(g, w, h, passes))
  {
    if passes > 0 {
      SmoothedBinary(g, w, h, passes - 1);
      FoldRowsBinary(Smoothed(g, w, h, passes - 1), w, h, h);
    }
  }

  /** Every cell of `g` is 0. */
  ghost predicate AllZero(g: seq<seq<int>>)
  {
    forall y, x :: 0 <= y < |g| && 0 <= x < |g[y]| ==> g[y][x] == 0
  }

  /** On an all-zero map every counter is 0, so a cell update changes nothing. */
  lemma UpdateCellZero(g: seq<seq<int>>, w: int, h: int, x: int, y: int)
    requires Shaped(g, w, h) && 0 <= x < w && 0 <= y < h && AllZero(g)
    ensures UpdateCell(g, w, h, x, y) == g
  {
    NeighbourCountExplicit(g, w, h, x, y);
    assert g[y][x := 0] == g[y];
  }

  lemma {:induction false} FoldRowZero(g: seq<seq<int>>, w: int, h: int, y: int, x: int)
    requires Shaped(g, w, h) && 0 <= y < h && 0 <= x <= w && AllZero(g)
    ensures FoldRow(g, w, h, y, x) == g
  {
    if x > 0 {
      FoldRowZero(g, w, h, y, x - 1);
      UpdateCellZero(g, w, h, x - 1, y);
    }
  }

  lemma {:induction false} FoldRowsZero(g: seq<seq<int>>, w: int, h: int, y: int)
    requires Shaped(g, w, h) && 0 <= w && 0 <= y <= h && AllZero(g)
    ensures FoldRows(g, w, h, y) == g
  {
    if y > 0 {
      FoldRowsZero(g, w, h, y - 1);
      FoldRowZero(g, w, h, y - 1, w);
    }
  }

  /** An all-zero map is left as it is by any number of passes. */
  lemma {:induction false} SmoothedZero(g: seq<seq<int>>, w: int, h: int, passes: nat)
    requires Shaped(g, w, h) && 0 <= w && 0 <= h && AllZero(g)
    ensures Smoothed(g, w, h, passes) == g
  {
    if passes > 0 {
      SmoothedZero(g, w, h, passes - 1);
      FoldRowsZero(g, w, h, h);
    }
  }

  /** a passes followed by b passes are a + b passes. */
  lemma {:induction false} SmoothedAdditive(g: seq<seq<int>>, w: int, h: int, a: nat, b: nat)
    requires Shaped(g, w, h) && 0 <= w && 0 <= h
    ensures Smoothed(Smoothed(g, w, h, a), w, h, b) == Smoothed(g, w, h, a + b)
  {
    if b > 0 {
      SmoothedAdditive(g, w, h, a, b - 1);
    }
  }

  /**
   * The two counting loops around (x, y): every position of the 3-by-3
   * block but the cell itself, read only when inside the map.
   */
  method CountNeighbours(grid: array2<int>, x: int, y: int) returns (counter: int)
    requires 0 <= x < grid.Length0 && 0 <= y < grid.Length1
    ensures counter == NeighbourCount(Contents(grid), grid.Length0, grid.Length1, x, y)
  {
    ghost var g := Contents(grid);
    var w, h := grid.Length0, grid.Length1;
    counter := 0;
    for dy := y - 1 to y + 2
      invariant counter == RowsCount(g, w, h, x, y, dy)
    {
      ghost var rowsBefore := counter;
      for dx := x - 1 to x + 2
        invariant counter == rowsBefore + RowCount(g, w, h, x, y, dy, dx)
      {
        if dx == x && dy == y {
          continue;
        }
        if Between(-1, w, dx) && Between(-1, h, dy) {
          counter := counter + grid[dx, dy];
        }
      }
    }
  }

  /** The update of one cell, in place, from its counter. */
  method SmoothCell(grid: array2<int>, x: int, y: int)
    requires 0 <= x < grid.Length0 && 0 <= y < grid.Length1
    modifies grid
    ensures Contents(grid) == UpdateCell(old(Contents(grid)), grid.Length0, grid.Length1, x, y)
  {
    ghost var g := Contents(grid);
    var counter := CountNeighbours(grid, x, y);
    if counter > 4 {
      grid[x, y] := 1;
    } else if counter < 4 {
      grid[x, y] := 0;
    }
    ghost var r := UpdateCell(g, grid.Length0, grid.Length1, x, y);
    forall y' | 0 <= y' < grid.Length1
      ensures Contents(grid)[y'] == r[y']
    {
      assert forall x' :: 0 <= x' < grid.Length0 ==> Contents(grid)[y'][x'] == r[y'][x'];
    }
  }

  /** One row of a pass: cells in x order, each updated in place. */
  method SmoothRow(grid: array2<int>, y: int)
    requires 0 <= y < grid.Length1
    modifies grid
    ensures Contents(grid) == FoldRow(old(Contents(grid)), grid.Length0, grid.Length1, y, grid.Length0)
  {
    ghost var start := Contents(grid);
    for x := 0 to grid.Length0
      invariant Contents(grid) == FoldRow(start, grid.Length0, grid.Length1, y, x)
    {
      SmoothCell(grid, x, y);
    }
  }

  /** One pass: rows in y order. */
  method SmoothPass(grid: array2<int>)
    modifies grid
    ensures Contents(grid) == Pass(old(Contents(grid)), grid.Length0, grid.Length1)
  {
    ghost var start := Contents(grid);
    for y := 0 to grid.Length1
      invariant Contents(grid) == FoldRows(start, grid.Length0, grid.Length1, y)
    {
      SmoothRow(grid, y);
    }
  }

  /**
   * The smoothing passes of the random map generator, applied to the map
   * as filled: `smooths` passes (none when `smooths` is not positive), each
   * visiting rows in y order and cells in x order, updating in place.
   */
  method RandomMapSmoothing(grid: array2<int>, smooths: int)
    modifies grid
    ensures Contents(grid) == Smoothed(old(Contents(grid)), grid.Length0, grid.Length1, if smooths < 0 then 0 else smooths)
    ensures smooths <= 0 ==> Contents(grid) == old(Contents(grid))
  {
    ghost var g0 := Contents(grid);
    var i := 0;
    while i < smooths
      invariant 0 <= i && (0 <= smooths ==> i <= smooths) && (smooths < 0 ==> i == 0)
      invariant Contents(grid) == Smoothed(g0, grid.Length0, grid.Length1, i)
    {
      SmoothPass(grid);
      i := i + 1;
    }
  }
}
