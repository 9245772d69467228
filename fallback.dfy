/**
  The per-frame path selection of the dashcam bird's-eye-view planner: the
  grid size and ego cell derived from the configuration, and the fallback that
  probes straight ahead in the ego lane when the grid search returned no usable
  path.

  The occupancy grid is a two-dimensional integer array; row 0 is farthest
  ahead of the ego vehicle, row `rows - 1` is the ego vehicle's own row, and a
  cell holding 0 is free. The grid search itself is external: its output
  reaches this module as an arbitrary sequence of cells.
 */
module FallbackPlanner {

  /** A grid cell as (row, column). */
  type Cell = (int, int)

  /** The occupancy value of a free cell; every other value is an obstacle. */
  const Free: int := 0

  /** The column of the ego vehicle, and so of the start cell. */
  const EgoColumn: int := 2

  /** Number of grid rows: the bird's-eye-view height divided by the cell
      size, rounded down. */
  function GridRows(gridHeight: int, cellSize: int): (rows: int)
    requires cellSize > 0
    ensures rows * cellSize <= gridHeight < (rows + 1) * cellSize
  {
    gridHeight / cellSize
  }

  /** The ego vehicle's cell: the nearest row, in the ego column. */
  function EgoStart(rows: int): Cell
  {
    (rows - 1, EgoColumn)
  }

  /** The fallback may read the rows it accepts (those below `rows`) and the
      start column, which it never checks itself. */
  predicate Readable(grid: array2<int>, rows: int, start: Cell)
  {
    rows <= grid.Length0 && 0 <= start.1 < grid.Length1
  }

  /** The probe `dy` rows ahead of `start` passes the fallback's test: its row
      lies in `0 .. rows - 1` and its cell is free. */
  predicate ProbeFree(grid: array2<int>, rows: int, start: Cell, dy: int)
    requires Readable(grid, rows, start)
    reads grid
  {
    0 <= start.0 - dy < rows && grid[start.0 - dy, start.1] == Free
  }

  /** Number of consecutive probes, from offset `dy` on, that pass the test
      before the first one that fails or the offset reaches `rows`; the run
      never goes past offset `rows - 1`. */
  function FreeRun(grid: array2<int>, rows: int, start: Cell, dy: int): (n: nat)
    requires Readable(grid, rows, start)
    reads grid
    ensures n == 0 || dy + n <= rows
    decreases rows - dy
  {
    if dy < rows && ProbeFree(grid, rows, start, dy) then 1 + FreeRun(grid, rows, start, dy + 1) else 0
  }

  /** The path the frame ends up with: the planned path when it has at least
      two cells or when the first probe fails, and otherwise the two-cell path
      from `start` to the furthest free cell of the contiguous run ahead. */
  function FallbackPath(grid: array2<int>, rows: int, start: Cell, planned: seq<Cell>): (path: seq<Cell>)
    requires Readable(grid, rows, start)
    reads grid
    ensures path == planned ||
      (|planned| < 2 && |path| == 2 && path[0] == start && path[1].1 == start.1 && path[1].0 < start.0)
  {
    if |planned| >= 2 then planned
    else
      var n := FreeRun(grid, rows, start, 1);
      if n == 0 then planned else [start, (start.0 - n, start.1)]
  }

  /** Every probe counted by `FreeRun` lies inside the row range and is free. */
  lemma {:induction false} FreeRunFree(grid: array2<int>, rows: int, start: Cell, dy: int, k: int)
    requires Readable(grid, rows, start)
    requires dy <= k < dy + FreeRun(grid, rows, start, dy)
    ensures k < rows && ProbeFree(grid, rows, start, k)
    decreases k - dy
  {
    if k > dy {
      FreeRunFree(grid, rows, start, dy + 1, k);
    }
  }

  /** The run stops only at a probe that fails or at the end of the offset
      range. */
  lemma {:induction false} FreeRunStops(grid: array2<int>, rows: int, start: Cell, dy: int)
    requires Readable(grid, rows, start)
    ensures var n := FreeRun(grid, rows, start, dy);
      dy + n >= rows || !ProbeFree(grid, rows, start, dy + n)
    decreases rows - dy
  {
    if dy < rows && ProbeFree(grid, rows, start, dy) {
      FreeRunStops(grid, rows, start, dy + 1);
    }
  }

  /** The fallback replaces the planned path exactly when that path has fewer
      than two cells and the cell right ahead of `start` passes the test; a
      blocked first step leaves the planned path as it was, so no one-cell
      `[start]` path is ever made. */
  lemma FallbackOutcome(grid: array2<int>, rows: int, start: Cell, planned: seq<Cell>)
    requires Readable(grid, rows, start)
    ensures var path := FallbackPath(grid, rows, start, planned);
      (path != planned <==> |planned| < 2 && 1 < rows && ProbeFree(grid, rows, start, 1)) &&
      (path == planned || |path| == 2)
  {
  }

  /** A path made by the fallback has two cells: `start`, then a free cell in
      the start column, strictly ahead, inside the row range, and at most
      `rows - 1` rows ahead. */
  lemma ProbeInBounds(grid: array2<int>, rows: int, start: Cell, planned: seq<Cell>)
    requires Readable(grid, rows, start)
    requires |planned| < 2 && 1 < rows && ProbeFree(grid, rows, start, 1)
    ensures var path := FallbackPath(grid, rows, start, planned);
      |path| == 2 && path[0] == start && path[1].1 == start.1 &&
      0 <= path[1].0 < rows && start.0 - rows < path[1].0 < start.0 &&
      grid[path[1].0, start.1] == Free
  {
    var n := FreeRun(grid, rows, start, 1);
    FreeRunFree(grid, rows, start, 1, n);
    FreeRunStops(grid, rows, start, 1);
  }

  /** The probe the fallback keeps is the furthest of a contiguous free run:
      every cell from the one right ahead of `start` up to the probe is inside
      the row range and free, and the cell one further ahead is out of range,
      occupied, or beyond the `rows - 1` probes the walk makes. */
  lemma ProbeMaximal(grid: array2<int>, rows: int, start: Cell, planned: seq<Cell>)
    requires Readable(grid, rows, start)
    requires |planned| < 2 && 1 < rows && ProbeFree(grid, rows, start, 1)
    ensures var path := FallbackPath(grid, rows, start, planned);
      |path| == 2 && 0 <= path[1].0 < rows &&
      (forall r :: path[1].0 <= r < start.0 ==> 0 <= r < rows && grid[r, start.1] == Free) &&
      (path[1].0 - 1 < 0 || start.0 - (path[1].0 - 1) >= rows || grid[path[1].0 - 1, start.1] != Free)
  {
    var n := FreeRun(grid, rows, start, 1);
    ProbeInBounds(grid, rows, start, planned);
    forall r | start.0 - n <= r < start.0
      ensures 0 <= r < rows && grid[r, start.1] == Free
    {
      FreeRunFree(grid, rows, start, 1, start.0 - r);
    }
    FreeRunStops(grid, rows, start, 1);
  }

  /** With the ego start `(rows - 1, EgoColumn)` every probe row lies in
      `0 .. rows - 2`, so the row test never fails there: the first step is
      blocked exactly when the cell right ahead is occupied, and a walk that
      made a path stops at row 0 or right below an occupied cell. */
  lemma EgoStartStopsOnlyAtObstacle(grid: array2<int>, rows: int, planned: seq<Cell>)
    requires Readable(grid, rows, EgoStart(rows))
    requires |planned| < 2
    ensures forall dy :: 1 <= dy < rows ==>
      (ProbeFree(grid, rows, EgoStart(rows), dy) <==> grid[rows - 1 - dy, EgoColumn] == Free)
    ensures var path := FallbackPath(grid, rows, EgoStart(rows), planned);
      (path == planned <==> rows < 2 || grid[rows - 2, EgoColumn] != Free) &&
      (path != planned ==>
         |path| == 2 && 0 <= path[1].0 < rows &&
         (path[1].0 == 0 || grid[path[1].0 - 1, EgoColumn] != Free))
  {
    var start := EgoStart(rows);
    FallbackOutcome(grid, rows, start, planned);
    if 1 < rows && ProbeFree(grid, rows, start, 1) {
      ProbeMaximal(grid, rows, start, planned);
    }
  }

  /** The fallback as the frame loop runs it: walk straight ahead from `start`,
      one row per step, keep `[start, probe]` for every probe that passes the
      test and stop at the first that fails. The grid is only read. */
  method FallbackProbe(grid: array2<int>, rows: int, start: Cell, planned: seq<Cell>) returns (path: seq<Cell>)
    requires Readable(grid, rows, start)
    ensures path == FallbackPath(grid, rows, start, planned)
  {
    path := planned;
    if |planned| < 2 {
      var dy := 1;
      while dy < rows
        invariant 1 <= dy
        invariant FreeRun(grid, rows, start, 1) == (dy - 1) + FreeRun(grid, rows, start, dy)
        invariant path == if dy == 1 then planned else [start, (start.0 - (dy - 1), start.1)]
      {
        var probe := (start.0 - dy, start.1);
        if 0 <= probe.0 < rows && grid[probe.0, probe.1] == Free {
          path := [start, probe];
        } else {
          break;
        }
        dy := dy + 1;
      }
    }
  }

  /** One frame's planning step after the grid search: derive the row count
      and the ego start from the configuration and apply the fallback to the
      planned path. The result is the planned path, or a two-cell path from the
      ego cell straight ahead in the ego column to a free row in
      `0 .. rows - 2`. */
  method PlanFrame(grid: array2<int>, gridHeight: int, cellSize: int, planned: seq<Cell>) returns (path: seq<Cell>)
    requires cellSize > 0
    requires Readable(grid, GridRows(gridHeight, cellSize), EgoStart(GridRows(gridHeight, cellSize)))
    ensures var rows := GridRows(gridHeight, cellSize);
      path == FallbackPath(grid, rows, EgoStart(rows), planned)
    ensures var rows := GridRows(gridHeight, cellSize);
      path == planned ||
      (|planned| < 2 && |path| == 2 && path[0] == (rows - 1, EgoColumn) &&
       path[1].1 == EgoColumn && 0 <= path[1].0 <= rows - 2 && grid[path[1].0, EgoColumn] == Free)
  {
    var rows := GridRows(gridHeight, cellSize);
    var start := EgoStart(rows);
    path := FallbackProbe(grid, rows, start, planned);
    FallbackOutcome(grid, rows, start, planned);
    if path != planned {
      ProbeInBounds(grid, rows, start, planned);
    }
  }
}
