# ASCII spinning cube: the integer rasteriser

This project models the integer core of a terminal program that draws a rotating
cube with `#` characters. The 8 vertices of the cube reach this core already
rotated and projected to integer screen points. The frame is then drawn in one
of two modes:

- **Edges only** (`draw_cube_edges`). Each of the 12 edges of the cube is drawn
  as a Bresenham line (`get_line_points`).
- **Filled** (`draw_cube`). Each of the 6 faces is filled by a scanline fill
  (`fill_area`). The fill builds the face's boundary from four Bresenham lines,
  removes duplicate points, and fills each row from its leftmost to its
  rightmost boundary column. A row is filled only if it holds at least two
  distinct boundary columns.

The program writes each glyph with `addstr(row, col, '#')` inside a handler that
swallows `curses.error`. So a write outside the screen does nothing.

The project has four modules:

- `Bresenham` (`line.dfy`)
  - `GetLinePoints` is the source's `while` loop.
  - It is proved equal to the function `LinePoints`. `LinePoints` is defined
    by `Trace`, which recurses on the loop state of `(x, y, err)`.
  - The loop invariant `Reachable` ties the error term to the number of steps
    taken along each axis.
- `Screen` (`canvas.dfy`)
  - Holds the class `Canvas`: a `rows x cols` array of characters and the
    guarded write `Put`.
- `Fill` (`fill.dfy`)
  - `FillArea` is the source's loop over rows. Its inner loop over columns
    is the method `FillRow`.
  - It is proved to write the glyph exactly at the in-bounds cells where
    `Covers` holds. `Covers` is the scanline rule stated on the boundary of
    the quadrilateral.
- `Cube` (`cube.dfy`)
  - Holds the edge and face tables, with lemmas about their topology.
  - `DrawCubeEdges` and `DrawCube` are proved to write exactly the union of
    their lines and of their fills.

Deduplication does decide some rows. In a row where the boundary touches only at
one vertex shared by two edges, that point occurs twice in the raw list of edge
points and once after deduplication. Without deduplication the `len >= 2` test
would fill that cell; with it, the row is left alone.

- `Fill.DedupKeepsExtent` proves that deduplication never changes a row's
  minimum or maximum column.
- `Fill.DedupDecidesSinglePointRow` gives a concrete diamond where it changes
  whether the row is filled.

`fill_area` fills a row only when that row holds at least two distinct boundary columns (`Fill.CoversExactly`).

## Model

| member | source | states |
|---|---|---|
| Bresenham.GetLinePoints | cube.py:60-80 | the source's loop terminates, since the distance left to the end point strictly decreases, and returns exactly `LinePoints(x0, y0, x1, y1)` |
| Bresenham.LinePoints | cube.py:60-80 | the line has `max(|dx|, |dy|) + 1` points, starts at `(x0, y0)` and ends at `(x1, y1)`; when start equals end it is the single point `[(x0, y0)]` |
| Bresenham.Step | cube.py:71-77 | one loop iteration: `e2 = 2 * err`; if `e2 > -dy` then `err -= dy` and x moves by `sx`; if `e2 < dx` then `err += dx` and y moves by `sy`, both tests on the same `e2` |
| Bresenham.StepReachable | cube.py:69-77 | while the end point is not reached, one loop iteration keeps the error invariant, strictly shrinks the distance left, moves to an 8-neighbour in the direction of `sx`/`sy`, and always advances the major axis |
| Bresenham.ErrorStep | cube.py:71-77 | arithmetic of one iteration: the two tests on `e2` never step past the end on an axis, at least one of them fires, and the updated error satisfies the invariant again |
| Bresenham.Start | cube.py:63-67 | the loop state before the first iteration: the cursor at `(x0, y0)` with `err = dx - dy` |
| Bresenham.StartReachable | cube.py:63-67 | the initial state `err = dx - dy` satisfies the loop invariant |
| Bresenham.Trace | cube.py:69-78 | the loop unrolled: from a reachable state, the current point followed by the points from the next state, or just `(x1, y1)` once the end point is reached |
| Bresenham.TraceEnds | cube.py:69-78 | the points from any reachable state start at that state's point and end with `(x1, y1)` |
| Bresenham.TraceLength | cube.py:69-78 | from a reachable state, the number of points left is the distance left along the major axis plus one |
| Bresenham.TraceAdvance | cube.py:69-77 | one loop iteration appends the current point and continues from the next state, which is again reachable and strictly closer to the end |
| Bresenham.TraceMoves | cube.py:69-77 | every pair of consecutive points is one move toward the end point |
| Bresenham.TraceInBox | cube.py:69-78 | every point from a reachable state lies between that state's point and the end point on both axes |
| Bresenham.LineConnected | cube.py:69-77 | consecutive points are distinct 8-neighbours; x moves only by `sx`, y only by `sy`, and the major axis moves at every step |
| Bresenham.LineInBox | cube.py:60-80 | every point lies in the bounding box of the two endpoints |
| Bresenham.PathCrossesRow | cube.py:69-77 | a path whose row changes by at most 1 per step visits every row between its first and last rows |
| Bresenham.LineCrossesRow | cube.py:60-80 | the line has a point on every row between its endpoints' rows |
| Bresenham.LineExamples | cube.py:60-80 | the horizontal line from (0,0) to (5,0) is the six points (0,0)…(5,0); the line from (0,0) to (3,4) has 5 points |
| Screen.Canvas.constructor | cube.py:207 | a fresh screen of the given size with every cell blank |
| Screen.Canvas.Put | cube.py:53-57 | an in-bounds write stores `#` in exactly that cell; an out-of-bounds write (the swallowed `curses.error`) changes nothing |
| Fill.Boundary | cube.py:36-42 | the four edge lines, p0 to p1, p1 to p2, p2 to p3 and p3 back to p0, concatenated in that order |
| Fill.Dedup | cube.py:43 | the result has no repeated point and holds exactly the points of its input |
| Fill.RowColumns | cube.py:51 | the columns listed are exactly those of the points on row `y`, and they are distinct when the points are |
| Fill.Intersections | cube.py:51 | the columns of row `y` among the deduplicated boundary points |
| Fill.Covers | cube.py:46-53 | the fill rule for one cell: its row lies in `y_min..y_max`, the row has at least two intersections, and the column lies between the least and the greatest of them |
| Fill.MinOf | cube.py:51-53 | `sorted(...)[0]`: an element of the list that is at most every element |
| Fill.MaxOf | cube.py:51-53 | `sorted(...)[-1]`: an element of the list that is at least every element |
| Fill.FillArea | cube.py:33-57 | in-bounds cell (r, c) becomes `#` exactly when `Covers` holds for the quadrilateral; every other cell keeps its content |
| Fill.FillRow | cube.py:53-57 | `for x in range(lo, hi + 1)`: in-bounds cells of row y in columns lo..hi become `#`, every other cell is unchanged; the range is empty when lo > hi |
| Fill.ScanRow | cube.py:49-53 | scanning row y extends the covered rows below y by the row's own test: at least two distinct columns, and the cell between the least and the greatest |
| Fill.FillAreaTwice | cube.py:33-57 | filling the same quadrilateral twice gives the same screen as filling it once |
| Fill.CoversExactly | cube.py:42-53 | a cell is covered iff its row has two different boundary columns, one at or left of the cell and one at or right of it |
| Fill.OneColumnRowUntouched | cube.py:52 | a row whose boundary points all share one column is never filled |
| Fill.CoversInBox | cube.py:46-53 | a covered cell lies within rows `y_min..y_max` and within the vertices' column range |
| Fill.BoundaryInBox | cube.py:36-42 | every boundary point lies in the bounding box of the four vertices |
| Fill.TwoDistinct | cube.py:52 | on a list without repeats, length at least 2 means two different elements |
| Fill.DedupKeepsExtent | cube.py:42-53 | on a row with a boundary point, deduplication keeps the same leftmost and rightmost column |
| Fill.DedupDecidesSinglePointRow | cube.py:42-52 | for the diamond (0,0),(2,2),(0,4),(-2,2), row 0 holds column 0 twice before deduplication and once after, so the cell is not filled |
| Fill.RectangleFill | cube.py:33-57 | an axis-aligned rectangle of nonzero width, its corners listed around the boundary from any corner and first along a horizontal side, covers exactly the rows between its two rows and the columns between its two columns, boundary included |
| Fill.SquareFill | cube.py:33-57 | the square (2,2),(6,2),(6,6),(2,6) covers exactly the 5×5 block of rows and columns 2..6 |
| Cube.TablesInRange | cube.py:105-139 | 12 edges and 6 faces, every index a vertex 0..7, no edge from a vertex to itself |
| Cube.EdgesDistinct | cube.py:135-139 | no edge is listed twice in either direction, so the edge mode draws 12 different segments |
| Cube.EveryVertexHasThreeEdges | cube.py:135-139 | every vertex is the end of exactly 3 edges |
| Cube.FacesFollowEdges | cube.py:105-112 | every side of every face, the closing side from the fourth corner back to the first included, is an edge of the edge table |
| Cube.EveryEdgeOnTwoFaces | cube.py:105-139 | every edge is a side of exactly two faces, so the faces close up into a cube |
| Cube.EdgeLine | cube.py:143-151 | the Bresenham line between the projected endpoints of edge k of the table |
| Cube.FaceQuad | cube.py:116-124 | the quadrilateral of the projected corners of face k of the table, in the face's order |
| Cube.DrawCubeEdges | cube.py:132-156 | in-bounds cell (r, c) becomes `#` exactly when it lies on one of the 12 edge lines; every other cell keeps its content |
| Cube.DrawCubeEdgesTwice | cube.py:132-156 | drawing the edges twice gives the same screen as drawing them once |
| Cube.DrawCube | cube.py:102-128 | in-bounds cell (r, c) becomes `#` exactly when one of the 6 face fills covers it; every other cell keeps its content |
| Cube.DrawCubeTwice | cube.py:102-128 | filling the faces twice gives the same screen as filling them once |

## Left out

- `rotate` and `complexHarmonizedSpin` (cube.py:5-31) are floating-point trigonometry, which Dafny cannot reason about exactly. The model starts from projected integer points.
- `project` (cube.py:82-100) is left out for the same reason. It divides floats and truncates toward zero with `int()`. `DrawCube` and `DrawCubeEdges` take the 8 projected points as their input.
- `main` (cube.py:158-227) is left out: the menu, keyboard input, `refresh`, the frame loop and `time.sleep` are all I/O or timing.
- Only the screen-bounds behaviour of curses is modelled. An in-bounds `addstr` writes one cell and an out-of-bounds one changes nothing. Other curses quirks are not modelled, such as the error raised after writing the bottom-right cell.
- The `try/except curses.error` around `fill_area` (cube.py:125-128) has no counterpart. Every write inside the model is guarded by `Put`, so nothing reaches that handler.
- `Fill.Dedup`: the iteration order of Python's `set` is unspecified. `Dedup` fixes one order: it keeps the last occurrence of each point. The fill uses only the membership, count, minimum and maximum of each row, so the order does not affect the result.
