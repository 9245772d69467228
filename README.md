# Dashcam bird's-eye-view planner: the fallback forward probe

This project models the part of the frame loop in `main.py` that decides
the path drawn for a frame once the grid search has run.

- The number of grid rows is the bird's-eye-view height divided by the cell
  size, rounded down.
- The ego vehicle starts in the nearest row (`rows - 1`), column 2
  (`FallbackPlanner.EgoStart`, main.py:76). The goal is the fixed cell
  (10, 2); only the grid search (main.py:77) and the drawing call at
  main.py:96 read it; the fallback never does, so the model does not carry it.
- If the grid search returned an empty path or a path of one cell, the loop
  walks straight ahead from the start, one row at a time in the same column.
  It keeps `[start, probe]` for every probe whose row lies in `0 .. rows - 1`
  and whose cell is free (0); that test is `FallbackPlanner.ProbeFree`
  (main.py:87). It stops at the first probe that fails that
  test, or after `rows - 1` probes.

The occupancy grid is an `array2<int>` that the model only reads. The grid
search's output is an arbitrary `seq<(int, int)>` parameter.

`FallbackPlanner.FallbackPath` and `FallbackPlanner.FreeRun` are the
reference definitions. `FreeRun` is the length of the contiguous run of
passing probes. `FallbackPlanner.FallbackProbe` is the loop itself, proved
equal to `FallbackPath`. The lemmas state what that path means.

Three details of the code shape the model:

- When the very first step is blocked, the code leaves the planner's empty
  or one-cell path untouched. It never builds a one-cell `[start]` path, so
  the frame may end with an empty path.
- The fallback result is always the two cells `[start, probe]`, not every
  cell walked. Its two cells are not adjacent when the probe is more than one
  row ahead.
- Only the row of a probe is bounds-checked. The column is read unchecked.

## Model

| member | source | states |
|---|---|---|
| `FallbackPlanner.GridRows` | main.py:73 | the row count is the floor of height / cell size: `rows * cellSize <= gridHeight < (rows + 1) * cellSize` for a positive cell size |
| `FallbackPlanner.FreeRun` | main.py:85-90 | the run of passing probes ends at offset `rows - 1` or earlier |
| `FallbackPlanner.FallbackPath` | main.py:84-90 | the frame's path is either the planned path, or a two-cell path made only when the planned path has fewer than two cells, starting at `start` and ending strictly ahead in the same column |
| `FallbackPlanner.FreeRunFree` | main.py:85-88 | every probe counted in the run lies inside the row range and its cell is free |
| `FallbackPlanner.FreeRunStops` | main.py:85-90 | the run ends only at a probe that fails the test or at the end of `range(1, rows)` |
| `FallbackPlanner.FallbackOutcome` | main.py:84-90 | the planned path is replaced if and only if it has fewer than two cells and the cell right ahead passes the test; otherwise it is returned unchanged (a usable path is kept, and a blocked first step makes no `[start]` path); a replaced path has exactly two cells |
| `FallbackPlanner.ProbeInBounds` | main.py:85-88 | a fallback path is `[start, probe]` with the probe in the start column, in row range `0 .. rows - 1`, strictly ahead of start, at most `rows - 1` rows ahead, and free |
| `FallbackPlanner.ProbeMaximal` | main.py:85-90 | the probe is maximal: every cell from right ahead of start up to the probe is in range and free, and the next cell ahead is out of range, occupied, or beyond the `rows - 1` probes |
| `FallbackPlanner.EgoStartStopsOnlyAtObstacle` | main.py:76-87 | with start `(rows - 1, 2)` the row test reduces to the occupancy test for every probe; the planned path is kept exactly when `rows < 2` or cell `(rows - 2, 2)` is occupied; a fallback walk stops at row 0 or right below an occupied cell |
| `FallbackPlanner.FallbackProbe` | main.py:84-90 | the loop with its early break returns exactly `FallbackPath`; it has no `modifies` clause, so the grid is only read |
| `FallbackPlanner.PlanFrame` | main.py:73-90 | with the configured rows and ego start, the frame's path is the planned path, or `[(rows - 1, 2), probe]` with the probe free, in column 2 and in rows `0 .. rows - 2` |

## Left out

- The grid search (`a_star`) and the occupancy-grid builder (`build_occupancy_grid`) are defined in `astar.py` and `utils/occupancy.py` (imported at main.py:8, 10) and are outside this model; the planned path and the grid are arbitrary inputs.
- Video capture, frame reading and writing, window display: I/O.
- Object detection, model loading and the detection cache kept across frames: external inference calls.
- The perspective transform: an opaque OpenCV computation.
- Lane lines, icons, path drawing, canvas compositing, and the pulse colour computed with `math.sin`: rendering and floating point.
- FallbackProbe: requires the start column to lie inside the grid's columns. A column in `-cols .. -1` would wrap around in numpy, and any other column outside the grid would raise; neither case is modelled.
- FallbackProbe: a grid shorter than `rows` can raise an index error when a probe lands past its last row; the model requires `rows <= grid.Length0`, which the real grid of exactly `rows` rows meets.
- PlanFrame: requires `rows <= grid.Length0` as FallbackProbe does; a grid of `rows - 1` rows, which the ego start never reads past, is excluded.
