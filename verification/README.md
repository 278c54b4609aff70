# Game of Life, modelled in Dafny

A model of `script.js`, a browser Conway's Game of Life, and proofs about it.
The model covers four parts of the script.

- **The life engine** is class `GameOfLife`. It holds an N×N grid of 0/1 values,
  indexed `array[y][x]`.
  - The next generation comes from a GPU kernel. Each cell sums its eight
    neighbours, with indices wrapped modulo N on both axes, and applies B3/S23.
  - `iterate` replaces the grid with the kernel output and repaints only the
    cells that changed.
  - `toggleCell` sets one cell to the draw mode (1 for draw, 0 for erase) and
    paints it.
- **The line rasterizer** is `drawLine`, an error-accumulator walk that calls
  `toggleCell` for every cell it visits. The octant variants
  `drawLineHorizontal` and `drawLineVertical` are modelled too, although nothing
  calls them.
- **The stroke handlers** are `cellChangeClick`, `cellChangeMove` and
  `cellChangeStop`. They use the globals `isDrawing`, `changedCells`,
  `lastX`/`lastY` and `stoppedCauseClicked`.
- **The scheduler and controls**:
  - the scheduler: `start`, `stop`, `loop` and `pausePlay`;
  - the step, clear, reset and draw buttons;
  - the size and speed controls with their clamp.

Files:

- `Grid.dfy` holds the cells and grids, writing a cell, painting a sequence of
  cells, and the redraw `Shade`.
- `Rule.dfy` holds the kernel rule and the sequential kernel dispatch.
- `Engine.dfy` holds class `GameOfLife`, the diff repaint and the canvas-mirror
  invariant.
- `Raster.dfy` holds what the three line functions visit, stated as values, and
  the overshoot finding.
- `Page.dfy` holds the three line functions as methods on the game, and class
  `App` with the page's globals, handlers and scheduler.

The model has two central invariants.

- **The canvas mirrors the grid.** The canvas is abstracted to one colour per
  cell. `Mirrors()` says the canvas equals `Shade(grid)`, the full redraw.
  Construction and `Draw` establish it. `Iterate` keeps it, because a diff
  repaint of a mirroring canvas is a full redraw. Writing cells keeps it by
  `ShadeWrite` and `ShadePaint`.
  `App.Valid()` includes it, so every handler preserves it.
- **A throw ends the handler.** `toggleCell` on a row outside the grid throws a
  TypeError, because `array[y]` is undefined. The model reports this as
  `ok == false`, and the rest of the handler is skipped. The walk functions
  (`Attempt`, `Trace`, `Passes`) return a `Walk`: the cells toggled, and whether
  the walk completed.

## Model

| member | source | states |
|---|---|---|
| Grid.Zeros | script.js:284 | The clear button's grid is N×N, binary and every cell 0 |
| Grid.Write | script.js:86 | Writing `array[y][x]` keeps the number of rows |
| Grid.WriteAt | script.js:86 | Writing `array[y][x]` changes that cell (when inside the grid) and no other, so a cell outside the grid changes nothing; the shape is kept |
| Grid.Paint | script.js:183-194 | Toggling cells one after another, first to last, keeps the number of rows |
| Grid.PaintAt | script.js:183-194 | Toggling a sequence of cells sets exactly the grid cells that occur in it to the value, all others unchanged |
| Grid.PaintCons | script.js:183-194 | Toggling a first cell and then the rest is toggling the whole sequence |
| Grid.PaintTwice | script.js:85-88 | Toggling the same cells again with the same mode changes nothing |
| Grid.Shade | script.js:64-70 | The full redraw has the grid's shape |
| Grid.ShadeAt | script.js:64-70 | The full redraw colours each cell alive exactly when its value is non-zero |
| Grid.ShadePaint | script.js:85-88 | Setting cells in the grid to `Bit(b)` and painting them `b` on a mirroring canvas leaves a full redraw of the new grid |
| Grid.ShadeWrite | script.js:85-88 | The single-cell case: `toggleCell` on a mirroring canvas keeps it mirroring |
| Rule.Shift | script.js:48 | One step around the torus stays an index of the grid |
| Rule.LiveNeighbours | script.js:45-51 | The reference count of the eight toroidal neighbours lies in 0..8 on a binary grid |
| Rule.NextState | script.js:52 | The kernel's returned value for a cell is 0 or 1 |
| Rule.Successor | script.js:52-53 | The next generation is N×N and binary, each cell being NextState of the previous grid (B3/S23) |
| Rule.WrapAgrees | script.js:48 | `(i + d + size) % size` is the index one step around the torus |
| Rule.Term | script.js:46-50 | The kernel adds nothing for the cell itself, and 0 or 1 for a neighbour of a 0/1 grid |
| Rule.SumBefore | script.js:43-51 | The kernel's running sum, in its loops' order, is non-negative and at most one per term already added on a 0/1 grid |
| Rule.SumBeforeAll | script.js:45-51 | The kernel's nine-iteration loop sum equals the reference neighbour count |
| Rule.NeighbourSum | script.js:43-51 | The kernel's nested loops compute exactly LiveNeighbours |
| Rule.Kernel | script.js:42-52 | The kernel returns 0 or 1, and 1 iff the cell has 3 live neighbours, or is 1 and has 2 |
| Rule.RunKernel | script.js:42-53 | Dispatching the kernel over every cell yields Successor of the input, read only from the old grid |
| Rule.DeadStaysDead | script.js:284 | An all-dead grid, as after clear, stays all dead |
| Rule.NextStateIsLocal | script.js:45-52 | A cell's next value depends only on its 3×3 toroidal neighbourhood in the previous grid |
| Engine.DiffRepaint | script.js:71-79 | Cells whose value changed get the new value's colour; unchanged cells keep their colour |
| Engine.DiffRepaintIsFullRedraw | script.js:64-83 | If the canvas showed the old grid, the diff repaint equals a full redraw of the new grid |
| Engine.GameOfLife.constructor | script.js:39-55 | The game keeps the given grid, its size is the array length, and the canvas mirrors the grid |
| Engine.GameOfLife.Draw | script.js:64-70 | `draw` leaves the grid as it is and the canvas equal to its full redraw |
| Engine.GameOfLife.DrawChanged | script.js:71-79 | `drawChanged(oldArray)` leaves the canvas equal to DiffRepaint of the old canvas |
| Engine.GameOfLife.Iterate | script.js:80-84 | The grid becomes Successor of the old grid, the canvas is diff-repainted, and mirroring is preserved |
| Engine.GameOfLife.ToggleCell | script.js:85-88 | Throws (ok false, nothing changed) iff row y is outside the grid; otherwise sets `array[y][x]` to the mode's value (not a flip) and paints that cell only |
| Engine.ToggleTwice | script.js:85-88 | Toggling a cell twice in the same mode equals toggling it once |
| Raster.Attempt | script.js:184 | Toggling cells in order until a row throws toggles no more cells than given |
| Raster.AttemptShape | script.js:184 | An attempt toggles an in-grid prefix, completes iff that prefix is everything, and otherwise stops at an out-of-grid row |
| Raster.AttemptOne | script.js:208 | A single toggle completes iff its row is in the grid |
| Raster.Step | script.js:186-193 | One pass of the two error tests, as written, moves x by 0 or xi and y by 0 or yi |
| Raster.StepMoves | script.js:185-193 | Away from the endpoint, one pass moves to a different cell by unit steps in xi/yi only |
| Raster.Trace | script.js:183-194 | The loop's walk from a cursor starts at the cursor's cell |
| Raster.TraceShape | script.js:183-194 | The walk's rows are all in the grid; it starts at the cursor; successive cells are unit steps apart and distinct; it completes iff it reaches the endpoint, which is then last and occurs nowhere before (the break) |
| Raster.PaintOn | script.js:184-193 | Painting the walk is painting the current cell, then the walk from the next cursor |
| Raster.PaintLast | script.js:184-185 | At the endpoint the walk completes after toggling that one cell |
| Raster.LineWalk | script.js:177-195 | What `drawLine` toggles starts at (x0,y0) |
| Raster.LineWalkShape | script.js:177-195 | `drawLine` toggles (x0,y0) first, each later cell is a unit step on, and it completes iff it reaches (x1,y1), which is then its last cell and met nowhere before: it stops the first time it gets there |
| Raster.StraightLineIsExact | script.js:177-195 | Horizontal, vertical and 45° lines with end rows in the grid toggle exactly the straight segment, in order, and complete |
| Raster.VerticalExample | script.js:177-195 | (2,2)→(2,5) toggles (2,2),(2,3),(2,4),(2,5) |
| Raster.DiagonalExample | script.js:177-195 | (0,0)→(3,3) toggles (0,0),(1,1),(2,2),(3,3) |
| Raster.StraightLineReverses | script.js:177-195 | For straight lines, drawing end→start toggles the same cells in reverse order |
| Raster.AsymmetryExample | script.js:186-193 | In general the walk is not symmetric: (0,0)→(2,1) passes (1,1), the way back passes (1,0) |
| Raster.PastTheEnd | script.js:186-193 | Once a downward walk is below the endpoint's row, it never completes |
| Raster.OvershootExample | script.js:186-193 | (0,0)→(3,2) visits (0,0),(1,1),(2,2),(3,3) and never completes on any grid |
| Raster.FixedStep | script.js:186-193 | The corrected pass, with `2*error` taken once, also moves x by 0 or xi and y by 0 or yi |
| Raster.FixedTrace | script.js:186-193 | With `2*error` taken once, the walk starts at the cursor, moves by unit steps, and ends at the endpoint, reached only there |
| Raster.FixedLine | script.js:177-195 | The corrected line is non-empty and starts at (x0,y0) |
| Raster.FixedLineReachesEnd | script.js:186-193 | The corrected walk from (x0,y0) always ends at (x1,y1), visited only at the end |
| Raster.FixedOvershootExample | script.js:186-193 | The corrected walk from (0,0) to (3,2) is (0,0),(1,1),(2,1),(3,2) |
| Raster.MidpointTracks | script.js:143-150 | In the octant, 2·run·offset stays within run of 2·rise·i, and D is the distance to the next midpoint |
| Raster.MidpointBounded | script.js:143-150 | Within the octant the minor-axis offset never exceeds rise |
| Raster.MidpointEnds | script.js:143-150 | After run passes the offset is exactly rise |
| Raster.MidpointNext | script.js:146-150 | One pass of the loop updates minor coordinate and D to their values at the next pass |
| Raster.RunPrefixAt | script.js:144-145 | Cell j of the walk is the cell of pass j |
| Raster.HorizontalCells | script.js:130-151 | `drawLineHorizontal` would visit (if no row threw) \|x1−x0\|+1 cells |
| Raster.HorizontalCellsRun | script.js:131-143 | After the endpoint swap and sign fix, the walk is the run from the left endpoint |
| Raster.HorizontalSteps | script.js:131-151 | The horizontal walk starts at the left endpoint, moves one column right per cell, its row moving 0 or one unit towards the other end |
| Raster.HorizontalReachesEnd | script.js:130-151 | In its octant the horizontal walk ends at the right endpoint and stays between the endpoints' rows |
| Raster.HorizontalSteepExample | script.js:130-151 | Outside its octant it stops short: (0,0)→(1,3) toggles (0,0),(1,1) only |
| Raster.Transpose | script.js:168 | Exchanging axes keeps the length |
| Raster.TransposeAt | script.js:168 | Cell i of the transposed walk is cell i with x and y exchanged |
| Raster.VerticalCells | script.js:153-174 | `drawLineVertical` would visit (if no row threw) \|y1−y0\|+1 cells |
| Raster.VerticalReachesEnd | script.js:153-174 | In its octant the vertical walk goes from the top endpoint to the other, one row down per cell, within the endpoints' columns |
| Raster.Passes | script.js:144-151 | The passes of either octant loop from pass i on: when none throws, exactly one cell per remaining pass |
| Raster.PaintPass | script.js:145-150 | One pass of the octant loops: after toggling its cell, the passes that remain paint the same final grid |
| Raster.PassesUnfold | script.js:144-150 | A pass with passes left toggles its cell unless the row throws, then continues with the updated y/x and D |
| Raster.PassCellsAt | script.js:144-150 | The cell of pass i is at major coordinate a0+i and the walk's minor offset |
| Raster.AttemptFrom | script.js:145 | An attempt at a suffix toggles its first cell unless that row throws |
| Raster.PassesFollowWalk | script.js:144-151 | From pass i on, the loop toggles what an attempt at the remaining walk toggles |
| Raster.HorizontalPassesWalk | script.js:130-151 | The loop of `drawLineHorizontal` toggles what an attempt at HorizontalCells toggles |
| Raster.VerticalPassesWalk | script.js:153-175 | The loop of `drawLineVertical` toggles what an attempt at VerticalCells toggles |
| Page.Clamp | script.js:301-324 | NaN gives the initial value; a number is clamped into [min, max], kept when inside, min or max when outside |
| Page.ClampIdempotent | script.js:304-305 | Re-entering a clamped value leaves it unchanged |
| Page.Truthy | script.js:205 | `if (lastX)` holds only when a last cell exists, and never for column 0 |
| Page.Stroke | script.js:204-209 | Without a truthy `lastX` a move toggles at most its own cell |
| Page.StrokeShape | script.js:204-209 | A move's stroke completes iff it reaches the move's cell, which is then last and met nowhere before; with a line it starts at the last cell; without one it is at most one cell |
| Page.ColumnZeroDrawsNoLine | script.js:205 | `if (lastX)` treats column 0 as no last cell: only the move's own cell is toggled |
| Page.DrawLine | script.js:177-195 | Toggles exactly LineWalk's cells in order, grid and canvas; ok iff the walk reached (x1,y1) without a throw |
| Page.LineLoop | script.js:183-194 | The `while (true)` loop from a cursor toggles exactly Trace's cells, grid and canvas; ok iff it broke at the endpoint rather than throwing |
| Page.DrawLineHorizontal | script.js:130-152 | Toggles exactly an attempt at HorizontalCells, grid and canvas; ok iff no row threw |
| Page.HorizontalLoop | script.js:142-151 | The `for` loop toggles the passes from the left endpoint until a row throws |
| Page.DrawLineVertical | script.js:153-175 | Toggles exactly an attempt at VerticalCells, grid and canvas; ok iff no row threw |
| Page.VerticalLoop | script.js:165-174 | The `for` loop toggles the passes from the top endpoint until a row throws |
| Page.ToggleStroke | script.js:205-209 | A line from the last cell or the single cell is toggled, per Stroke; the canvas keeps mirroring |
| Page.App.constructor | script.js:25-35 | The game is a new object; the slider bounds and initial values are the given constants; the sliders start at the initial values; initial globals (not running, not drawing, draw mode, no last cell, empty key set, no frame requested yet) and the first render from `seed` |
| Page.App.Render | script.js:91-109 | A new game of the slider's size from the seed grid; the scheduler is untouched |
| Page.App.Start | script.js:243-247 | Running, with a fresh frame requested and remembered in `handle` |
| Page.App.Stop | script.js:249-253 | Not running; the frame in `handle` is cancelled if one was ever requested |
| Page.App.Loop | script.js:255-262 | When not running nothing happens; otherwise one iterate iff `currentTime - lastTime >= speed` (then lastTime updates) and a next frame is requested |
| Page.App.PausePlay | script.js:263-269 | Start when stopped (a new frame into handle), stop when running (handle's frame cancelled); every other field unchanged |
| Page.App.StepClicked | script.js:279-282 | Exactly one generation, and the animation left stopped; every other field unchanged |
| Page.App.ClearClicked | script.js:283-287 | Every cell 0 and redrawn; animation stopped; every other field unchanged |
| Page.App.ResetClicked | script.js:288-291 | A new game from the seed at the slider size; animation stopped; every other field unchanged |
| Page.App.DrawModeClicked | script.js:292-295 | The draw mode flips; every other field unchanged |
| Page.App.SizeSliderMoved | script.js:297-300 | The slider value becomes the size and a game of that size is rendered; every other field unchanged |
| Page.App.SizeInputChanged | script.js:301-311 | A number is clamped onto the slider and rendered; NaN restores the initial size and renders nothing; every other field unchanged |
| Page.App.SpeedInputChanged | script.js:315-324 | The speed slider becomes the clamp of the input, or the initial speed on NaN; every other field unchanged |
| Page.App.Click | script.js:115-129 | A stroke begins, the key is added, the cell set; when it did not throw and the game ran, it stops and is marked to restart; every other field unchanged |
| Page.App.Move | script.js:197-214 | Acts only while drawing and for an unseen key; toggles the Stroke; on success last becomes (x,y) and only its key is added; every other field unchanged |
| Page.App.StrokeEnd | script.js:216-225 | Drawing ends, keys and last cell cleared; restarts (and clears the flag) iff the click had stopped the animation; every other field unchanged |

## Left out

- Pixel geometry is not modelled. This covers `fillRect`, the float `cellSize`, canvas sizing and the portrait class (script.js:56-63, 97-108). `drawCell` is a write to a cell-level canvas of colours, true for ALIVE_COLOR.
- GPU.js kernel construction is a foreign library. The kernel is modelled as a sequential per-cell computation over the previous grid (`RunKernel`), so GPU parallelism is not modelled.
- `Math.random` and the float threshold `p < INITIAL_PERCENT/100` are not modelled. Every initial grid is an arbitrary binary `seed` parameter.
- Pointer-to-cell conversion (`getBoundingClientRect`, float division, `Math.floor`) is not modelled. The handlers receive integer cell coordinates.
- `requestAnimationFrame`/`cancelAnimationFrame` and real time are abstracted. Frames are ids in the `pending` set, and `loop` receives an integer `currentTime`.
- DOM wiring is not modelled: event listeners, button labels, the keydown filter, touch `overscrollBehavior`, and the text boxes mirroring the sliders (script.js:1-18, 227-241, 271-278, 312-314). `parseInt` is an `Option<int>` input, with `None` for NaN.
- The slider values are strings in the page, coerced where used. The model holds them as integers.
- The `resize` handler (script.js:325-338) only recomputes pixel geometry and rebuilds the game from its own grid. The grid is unchanged and the canvas is redrawn, which the constructor already models.
- `Engine.GameOfLife.constructor`: the canvas before the first `draw` is modelled as all dead-coloured (a cleared canvas).
- `Engine.GameOfLife.ToggleCell`: a column outside the grid on an existing row is modelled as changing nothing, and `Grid.WriteAt` proves that no cell inside the grid changes. The walk as written does reach such columns, on both sides:
  - a column ≥ N grows that plain JS row past N: `drawLine(0,0,3,2)` on a 4×4 grid writes `array[3][4]` at (4,3) before it throws at row 4. `draw` then visits the extra entry through `row.forEach` and paints it outside the visible canvas, and how GPU.js reads the longer row is not part of this model;
  - a negative column adds a non-index property that nothing reads: `drawLine(3,0,0,2)` on a 4×4 grid writes `array[3][-1]`. The row's `length` is unchanged, `forEach` never visits it, and a typed row from the kernel ignores it, so for these columns "changes nothing" is exact.
- `Page.DrawLineHorizontal` and `Page.DrawLineVertical` are modelled although nothing in the script calls them. Their loops are separate methods (`Page.HorizontalLoop`, `Page.VerticalLoop`), specified by the pass-by-pass walk `Passes`.
- Mirroring is not part of the line methods' contracts. `Page.DrawLine`, `Page.LineLoop`, `Page.DrawLineHorizontal`, `Page.DrawLineVertical` and `Engine.GameOfLife.ToggleCell` state the exact new grid and canvas. Callers obtain mirroring from `Grid.ShadePaint`/`Grid.ShadeWrite`, as `Page.ToggleStroke` and `Page.App.Click` do.
- Symmetry does not hold for `drawLine` in general. A Bresenham line is usually expected to be symmetric (end→start visits the same cells, reversed) and to contain both endpoints. This code does neither in general. The model follows the code: symmetry is proved only for straight lines (`Raster.StraightLineReverses`), and its failure is shown by `Raster.AsymmetryExample`. The endpoint failure is under Findings.

## Findings

| source | as written | input that shows it | evidently intended | confidence | as-written member | corrected member |
|---|---|---|---|---|---|---|
| script.js:186-193 | The y-test `2*error<dx` reads `error` after the x-branch may already have reduced it by `dy` | `drawLine(0,0,3,2)` visits (0,0),(1,1),(2,2),(3,3),(4,3),… and never meets the break at script.js:185; on the page it runs until `array[y]` is undefined and throws | Standard Bresenham: compute `e2 = 2*error` once and test both branches on it, reaching (x1,y1) and stopping there: (0,0),(1,1),(2,1),(3,2) | not executed | Raster.OvershootExample | Raster.FixedLineReachesEnd |

The page itself runs the code as written. The handlers therefore use the as-written walk (`Raster.LineWalk`), and `Raster.PastTheEnd` shows that such a walk ends only by throwing. The corrected walk is `Raster.FixedLine`. `Raster.FixedTrace` proves that it ends at the endpoint and visits it only there.
