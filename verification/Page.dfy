/**
 * The page around the engine in script.js: its module-level globals, the
 * stroke handlers (`cellChangeClick`, `cellChangeMove`, `cellChangeStop`), the
 * three line functions, the play/pause scheduler (`start`, `stop`, `loop`,
 * `pausePlay`), the buttons and the size and speed controls.
 *
 * Pointer events arrive as integer cell coordinates, the random initial grid
 * as a 0/1 `seed` parameter, and a parsed text input as an `Option<int>`
 * (`None` for NaN). Animation frames are modelled by their ids: `pending`
 * holds the frames requested and neither run nor cancelled.
 */
module Page {
  import opened Grid
  import opened Rule
  import opened Engine
  import opened Raster

  datatype Option<T> = None | Some(value: T)

  /**
   * The value a size or speed text box gives its slider on `change`:
   * `Math.min(max, Math.max(min, value))`, or the initial value when
   * `parseInt` gives NaN.
   */
  function Clamp(input: Option<int>, lo: int, hi: int, initial: int): (r: int)
    ensures input.None? ==> r == initial
    ensures input.Some? && lo <= hi ==> lo <= r <= hi
    ensures input.Some? && lo <= input.value <= hi ==> r == input.value
    ensures input.Some? && input.value < lo ==> r == Min(hi, lo)
    ensures input.Some? && input.value > hi ==> r == hi
  {
    match input
    case None => initial
    case Some(v) => Min(hi, Max(lo, v))
  }

  /** Typing back the value a clamp produced leaves it as it is. */
  lemma ClampIdempotent(v: int, lo: int, hi: int, initial: int)
    requires lo <= hi
    ensures Clamp(Some(Clamp(Some(v), lo, hi, initial)), lo, hi, initial) == Clamp(Some(v), lo, hi, initial)
  {
  }

  /** Whether `if (lastX)` holds: a last cell was recorded and its column is not 0. */
  predicate Truthy(last: Option<Cell>): (r: bool)
    ensures r ==> last.Some?
    ensures last.Some? && last.value.x == 0 ==> !r
  {
    last.Some? && last.value.x != 0
  }

  /**
   * What a qualifying move toggles: a line from the last cell when `lastX` is
   * truthy, otherwise the move's own cell alone.
   */
  function Stroke(last: Option<Cell>, x: int, y: int, n: int): (w: Walk)
    ensures !Truthy(last) ==> |w.cells| <= 1
  {
    if Truthy(last) then LineWalk(last.value.x, last.value.y, x, y, n) else Attempt([Cell(x, y)], n)
  }

  /**
   * A stroke reaches the move's cell exactly when it completes, and then ends
   * there, having met it nowhere before; it starts at the last cell when there is a line; without one it is
   * at most the move's cell; every cell it toggles has a row in the grid.
   */
  lemma StrokeShape(last: Option<Cell>, x: int, y: int, n: int)
    ensures var w := Stroke(last, x, y, n);
      && (w.completed <==> Cell(x, y) in w.cells)
      && (w.completed ==> w.cells[|w.cells| - 1] == Cell(x, y))
      && (w.completed ==> Cell(x, y) !in w.cells[..|w.cells| - 1])
      && (!Truthy(last) ==> |w.cells| <= 1)
      && (Truthy(last) && 0 <= last.value.y < n ==> |w.cells| > 0 && w.cells[0] == last.value)
      && (forall i :: 0 <= i < |w.cells| ==> 0 <= w.cells[i].y < n)
  {
    if Truthy(last) {
      LineWalkShape(last.value.x, last.value.y, x, y, n);
    } else {
      AttemptShape([Cell(x, y)], n);
      assert Stroke(last, x, y, n).cells[..0] == [];
    }
  }

  /** Column 0 counts as no last cell: the move toggles its own cell only, with no line. */
  lemma ColumnZeroDrawsNoLine(y0: int, x: int, y: int, n: int)
    requires 0 <= y < n
    ensures Stroke(Some(Cell(0, y0)), x, y, n) == Walk([Cell(x, y)], true)
  {
    AttemptOne(Cell(x, y), n);
  }

  /**
   * `drawLine(x0, y0, x1, y1)`: toggles the cells of `LineWalk` in order; a
   * row outside the grid throws, which `ok == false` reports, and the cells
   * before it stay toggled.
   */
  method DrawLine(game: GameOfLife, drawOrErase: bool, x0: int, y0: int, x1: int, y1: int) returns (ok: bool)
    requires game.Valid()
    modifies game
    ensures game.Valid()
    ensures ok == LineWalk(x0, y0, x1, y1, game.arraySize).completed
    ensures game.grid == Paint(old(game.grid), LineWalk(x0, y0, x1, y1, game.arraySize).cells, Bit(drawOrErase))
    ensures game.canvas == Paint(old(game.canvas), LineWalk(x0, y0, x1, y1, game.arraySize).cells, drawOrErase)
  {
    var dx: int := Abs(x1 - x0);
    var dy: int := Abs(y1 - y0);
    var xi := if x0 < x1 then 1 else -1;
    var yi := if y0 < y1 then 1 else -1;
    var error := dx - dy;
    OriginTracking(x0, y0, x1, y1);
    ok := LineLoop(game, drawOrErase, Line(x1, y1, dx, dy, xi, yi), x0, y0, error);
  }

  /**
   * The `while (true)` loop of `drawLine` from cell (x, y) with `error`:
   * toggle, break at the endpoint, then the two error tests.
   */
  method LineLoop(game: GameOfLife, drawOrErase: bool, l: Line, x0: int, y0: int, error0: int) returns (ok: bool)
    requires game.Valid() && Tracking(l, Cursor(x0, y0, error0))
    modifies game
    ensures game.Valid()
    ensures ok == Trace(l, Cursor(x0, y0, error0), game.arraySize).completed
    ensures game.grid == Paint(old(game.grid), Trace(l, Cursor(x0, y0, error0), game.arraySize).cells, Bit(drawOrErase))
    ensures game.canvas == Paint(old(game.canvas), Trace(l, Cursor(x0, y0, error0), game.arraySize).cells, drawOrErase)
  {
    var x1, y1, dx, dy, xi, yi := l.x1, l.y1, l.dx as int, l.dy as int, l.xi, l.yi;
    var x, y, error := x0, y0, error0;
    ghost var n, v := game.arraySize, Bit(drawOrErase);
    ghost var whole := Trace(l, Cursor(x0, y0, error0), n);
    ghost var rest := whole;
    ghost var gT, kT := Paint(game.grid, whole.cells, v), Paint(game.canvas, whole.cells, drawOrErase);
    while true
      invariant game.Valid() && Tracking(l, Cursor(x, y, error))
      invariant rest == Trace(l, Cursor(x, y, error), n)
      invariant Paint(game.grid, rest.cells, v) == gT
      invariant Paint(game.canvas, rest.cells, drawOrErase) == kT
      invariant rest.completed == whole.completed
      decreases RowsLeft(l, Cursor(x, y, error), n), Slack(l, Cursor(x, y, error))
    {
      ghost var c, g, k := Cursor(x, y, error), game.grid, game.canvas;
      ok := game.ToggleCell(x, y, drawOrErase);
      if !ok {
        assert Trace(l, c, n) == Walk([], false);
        break;
      }
      if x == x1 && y == y1 {
        PaintLast(g, l, c, n, v);
        PaintLast(k, l, c, n, drawOrErase);
        break;
      }
      PaintOn(g, l, c, n, v);
      PaintOn(k, l, c, n, drawOrErase);
      if 2 * error > -dy {
        error := error - dy;
        x := x + xi;
      }
      if 2 * error < dx {
        error := error + dx;
        y := y + yi;
      }
      assert Cursor(x, y, error) == Step(l, c);
      rest := Trace(l, Cursor(x, y, error), n);
    }
  }

  /** `drawLineHorizontal(x0, y0, x1, y1)`: toggles the cells of `HorizontalCells` in order until a row throws. */
  method DrawLineHorizontal(game: GameOfLife, drawOrErase: bool, x0: int, y0: int, x1: int, y1: int) returns (ok: bool)
    requires game.Valid()
    modifies game
    ensures game.Valid()
    ensures ok == Attempt(HorizontalCells(x0, y0, x1, y1), game.arraySize).completed
    ensures game.grid == Paint(old(game.grid), Attempt(HorizontalCells(x0, y0, x1, y1), game.arraySize).cells, Bit(drawOrErase))
    ensures game.canvas == Paint(old(game.canvas), Attempt(HorizontalCells(x0, y0, x1, y1), game.arraySize).cells, drawOrErase)
  {
    var xa, ya, xb, yb := x0, y0, x1, y1;
    if xa > xb {
      xa, xb := xb, xa;
      ya, yb := yb, ya;
    }
    var dx := xb - xa;
    var dy := yb - ya;
    var yi := 1;
    if dy < 0 {
      yi := -1;
      dy := -dy;
    }
    ok := HorizontalLoop(game, drawOrErase, xa, ya, dx, dy, yi);
    HorizontalPassesWalk(x0, y0, x1, y1, xa, ya, dx, dy, yi, game.arraySize);
  }

  /**
   * The `for` loop of `drawLineHorizontal`, from the endpoint (xa, ya) with
   * the smaller x: in pass `i` it toggles column `xa + i` in row `y`, then
   * moves `y` by `yi` when the decision variable `D` is not negative.
   */
  method HorizontalLoop(game: GameOfLife, drawOrErase: bool, xa: int, ya: int, dx: int, dy: int, yi: int) returns (ok: bool)
    requires game.Valid() && 0 <= dx && 0 <= dy
    modifies game
    ensures game.Valid()
    ensures ok == Passes(false, xa, dx, dy, yi, 0, ya, 2 * dy - dx, game.arraySize).completed
    ensures game.grid == Paint(old(game.grid), Passes(false, xa, dx, dy, yi, 0, ya, 2 * dy - dx, game.arraySize).cells, Bit(drawOrErase))
    ensures game.canvas == Paint(old(game.canvas), Passes(false, xa, dx, dy, yi, 0, ya, 2 * dy - dx, game.arraySize).cells, drawOrErase)
  {
    var y := ya;
    var D := 2 * dy - dx;
    ghost var n, v, g0, k0 := game.arraySize, Bit(drawOrErase), game.grid, game.canvas;
    ghost var whole := Passes(false, xa, dx, dy, yi, 0, y, D, n);
    ghost var rest := whole;
    ghost var gT, kT := Paint(g0, whole.cells, v), Paint(k0, whole.cells, drawOrErase);
    ok := true;
    for i := 0 to dx + 1
      invariant game.Valid()
      invariant rest == Passes(false, xa, dx, dy, yi, i, y, D, n)
      invariant Paint(game.grid, rest.cells, v) == gT
      invariant Paint(game.canvas, rest.cells, drawOrErase) == kT
      invariant rest.completed == whole.completed
    {
      ghost var g, k := game.grid, game.canvas;
      var toggled := game.ToggleCell(xa + i, y, drawOrErase);
      if !toggled {
        assert rest == Walk([], false);
        ok := false;
        break;
      }
      ghost var b, E := y, D;
      if D >= 0 {
        y := y + yi;
        D := D - 2 * dx;
      }
      D := D + 2 * dy;
      PaintPass(g, game.grid, gT, false, xa, dx, dy, yi, i, b, E, y, D, n, v);
      PaintPass(k, game.canvas, kT, false, xa, dx, dy, yi, i, b, E, y, D, n, drawOrErase);
      rest := Passes(false, xa, dx, dy, yi, i + 1, y, D, n);
    }
    assert rest.cells == [] && rest.completed == ok;
  }

  /** `drawLineVertical(x0, y0, x1, y1)`: toggles the cells of `VerticalCells` in order until a row throws. */
  method DrawLineVertical(game: GameOfLife, drawOrErase: bool, x0: int, y0: int, x1: int, y1: int) returns (ok: bool)
    requires game.Valid()
    modifies game
    ensures game.Valid()
    ensures ok == Attempt(VerticalCells(x0, y0, x1, y1), game.arraySize).completed
    ensures game.grid == Paint(old(game.grid), Attempt(VerticalCells(x0, y0, x1, y1), game.arraySize).cells, Bit(drawOrErase))
    ensures game.canvas == Paint(old(game.canvas), Attempt(VerticalCells(x0, y0, x1, y1), game.arraySize).cells, drawOrErase)
  {
    var xa, ya, xb, yb := x0, y0, x1, y1;
    if ya > yb {
      xa, xb := xb, xa;
      ya, yb := yb, ya;
    }
    var dx := xb - xa;
    var dy := yb - ya;
    var xi := 1;
    if dx < 0 {
      xi := -1;
      dx := -dx;
    }
    ok := VerticalLoop(game, drawOrErase, xa, ya, dx, dy, xi);
    VerticalPassesWalk(x0, y0, x1, y1, xa, ya, dy, dx, xi, game.arraySize);
  }

  /**
   * The `for` loop of `drawLineVertical`, from the endpoint (xa, ya) with
   * the smaller y: in pass `i` it toggles row `ya + i` in column `x`, then
   * moves `x` by `xi` when the decision variable `D` is not negative.
   */
  method VerticalLoop(game: GameOfLife, drawOrErase: bool, xa: int, ya: int, dx: int, dy: int, xi: int) returns (ok: bool)
    requires game.Valid() && 0 <= dx && 0 <= dy
    modifies game
    ensures game.Valid()
    ensures ok == Passes(true, ya, dy, dx, xi, 0, xa, 2 * dx - dy, game.arraySize).completed
    ensures game.grid == Paint(old(game.grid), Passes(true, ya, dy, dx, xi, 0, xa, 2 * dx - dy, game.arraySize).cells, Bit(drawOrErase))
    ensures game.canvas == Paint(old(game.canvas), Passes(true, ya, dy, dx, xi, 0, xa, 2 * dx - dy, game.arraySize).cells, drawOrErase)
  {
    var x := xa;
    var D := 2 * dx - dy;
    ghost var n, v, g0, k0 := game.arraySize, Bit(drawOrErase), game.grid, game.canvas;
    ghost var whole := Passes(true, ya, dy, dx, xi, 0, x, D, n);
    ghost var rest := whole;
    ghost var gT, kT := Paint(g0, whole.cells, v), Paint(k0, whole.cells, drawOrErase);
    ok := true;
    for i := 0 to dy + 1
      invariant game.Valid()
      invariant rest == Passes(true, ya, dy, dx, xi, i, x, D, n)
      invariant Paint(game.grid, rest.cells, v) == gT
      invariant Paint(game.canvas, rest.cells, drawOrErase) == kT
      invariant rest.completed == whole.completed
    {
      ghost var g, k := game.grid, game.canvas;
      var toggled := game.ToggleCell(x, ya + i, drawOrErase);
      if !toggled {
        assert rest == Walk([], false);
        ok := false;
        break;
      }
      ghost var b, E := x, D;
      if D >= 0 {
        x := x + xi;
        D := D - 2 * dy;
      }
      D := D + 2 * dx;
      PaintPass(g, game.grid, gT, true, ya, dy, dx, xi, i, b, E, x, D, n, v);
      PaintPass(k, game.canvas, kT, true, ya, dy, dx, xi, i, b, E, x, D, n, drawOrErase);
      rest := Passes(true, ya, dy, dx, xi, i + 1, x, D, n);
    }
    assert rest.cells == [] && rest.completed == ok;
  }

  /**
   * The branch of `cellChangeMove` that toggles: `drawLine` from the last
   * cell when `lastX` is truthy, otherwise `toggleCell` on the move's cell.
   * The canvas keeps showing the grid.
   */
  method ToggleStroke(game: GameOfLife, drawOrErase: bool, last: Option<Cell>, x: int, y: int) returns (ok: bool)
    requires game.Valid() && game.Mirrors()
    modifies game
    ensures game.Valid() && game.Mirrors()
    ensures ok == Stroke(last, x, y, game.arraySize).completed
    ensures game.grid == Paint(old(game.grid), Stroke(last, x, y, game.arraySize).cells, Bit(drawOrErase))
  {
    if Truthy(last) {
      ok := DrawLine(game, drawOrErase, last.value.x, last.value.y, x, y);
      ShadePaint(old(game.grid), LineWalk(last.value.x, last.value.y, x, y, game.arraySize).cells, drawOrErase);
    } else {
      ok := game.ToggleCell(x, y, drawOrErase);
      ShadeWrite(old(game.grid), Cell(x, y), drawOrErase);
      AttemptOne(Cell(x, y), game.arraySize);
      assert Paint(old(game.grid), [Cell(x, y)], Bit(drawOrErase)) == game.grid;
    }
  }

  /** The page: the controls' state, the stroke in progress and the scheduler. */
  class App {
    const sizeMin: int
    const sizeMax: int
    /** The size slider's value when the page loaded. */
    const initialSize: int
    const speedMin: int
    const speedMax: int
    /** The speed slider's value when the page loaded. */
    const initialSpeed: int

    /** `sizeSlider.value`; the size text box shows the same value after every handler. */
    var sizeSlider: int
    /** `speedSlider.value`, the least number of milliseconds between generations. */
    var speedSlider: int
    /** The global `arraySize`, set from the size slider by `render`. */
    var arraySize: nat
    /** The global `gameOfLife`. */
    var game: GameOfLife
    /** `lastX` and `lastY`, both null (`None`) or both a cell. */
    var last: Option<Cell>
    var isDrawing: bool
    var stoppedCauseClicked: bool
    var running: bool
    /** true: strokes set cells alive ("Draw"); false: they set them dead ("Erase"). */
    var drawOrErase: bool
    /** The last animation frame id requested; 0 while none has been (`undefined`). */
    var handle: nat
    var lastTime: int
    /** The `changedCells` set of `"x,y"` keys, one key per cell. */
    var changedCells: set<Cell>
    /** Frames requested with `requestAnimationFrame` and neither run nor cancelled yet. */
    var pending: set<nat>
    /** The id the next `requestAnimationFrame` returns (ids start at 1). */
    var nextFrame: nat

    ghost predicate Valid()
      reads this, game
    {
      && game.Valid() && game.Mirrors() && game.arraySize == arraySize
      && 0 <= sizeMin <= initialSize <= sizeMax && speedMin <= initialSpeed <= speedMax
      && sizeMin <= sizeSlider <= sizeMax && speedMin <= speedSlider <= speedMax
      && 0 < nextFrame && handle < nextFrame
      && (forall f :: f in pending ==> 0 < f < nextFrame)
      && (running ==> handle in pending)
    }

    /**
     * Page load: the sliders at their initial values, nothing running, draw
     * mode on, and the closing `render()` building the first game from `seed`.
     */
    constructor (sizeMin: int, sizeMax: int, initialSize: int, speedMin: int, speedMax: int, initialSpeed: int,
                 seed: seq<seq<int>>)
      requires 0 <= sizeMin <= initialSize <= sizeMax && speedMin <= initialSpeed <= speedMax
      requires IsGrid(seed, initialSize) && Binary(seed)
      ensures Valid() && fresh(game)
      ensures this.sizeMin == sizeMin && this.sizeMax == sizeMax && this.initialSize == initialSize
      ensures this.speedMin == speedMin && this.speedMax == speedMax && this.initialSpeed == initialSpeed
      ensures game.grid == seed && arraySize == initialSize
      ensures sizeSlider == initialSize && speedSlider == initialSpeed
      ensures !running && !isDrawing && !stoppedCauseClicked && drawOrErase
      ensures last == None && changedCells == {} && pending == {} && handle == 0 && lastTime == 0 && nextFrame == 1
    {
      this.sizeMin, this.sizeMax, this.initialSize := sizeMin, sizeMax, initialSize;
      this.speedMin, this.speedMax, this.initialSpeed := speedMin, speedMax, initialSpeed;
      sizeSlider, speedSlider := initialSize, initialSpeed;
      arraySize := initialSize;
      game := new GameOfLife(seed);
      last := None;
      isDrawing, stoppedCauseClicked, running, drawOrErase := false, false, false, true;
      handle, lastTime, nextFrame := 0, 0, 1;
      changedCells, pending := {}, {};
    }

    /** `render`: a new game of the slider's size, built from `seed`; the animation is not touched. */
    method Render(seed: seq<seq<int>>)
      requires Valid() && IsGrid(seed, sizeSlider) && Binary(seed)
      modifies this
      ensures Valid() && fresh(game)
      ensures game.grid == seed && arraySize == sizeSlider
      ensures sizeSlider == old(sizeSlider) && speedSlider == old(speedSlider)
      ensures running == old(running) && handle == old(handle) && pending == old(pending) && nextFrame == old(nextFrame)
      ensures lastTime == old(lastTime) && drawOrErase == old(drawOrErase)
      ensures last == old(last) && isDrawing == old(isDrawing) && changedCells == old(changedCells)
      ensures stoppedCauseClicked == old(stoppedCauseClicked)
    {
      arraySize := sizeSlider;
      game := new GameOfLife(seed);
    }

    /** `start`: running, with one more frame requested. */
    method Start()
      requires Valid()
      modifies this
      ensures Valid() && running
      ensures handle == old(nextFrame) && nextFrame == old(nextFrame) + 1
      ensures pending == old(pending) + {old(nextFrame)}
      ensures game == old(game) && lastTime == old(lastTime) && drawOrErase == old(drawOrErase)
      ensures last == old(last) && isDrawing == old(isDrawing) && changedCells == old(changedCells)
      ensures stoppedCauseClicked == old(stoppedCauseClicked)
      ensures sizeSlider == old(sizeSlider) && speedSlider == old(speedSlider) && arraySize == old(arraySize)
    {
      running := true;
      handle := nextFrame;
      pending := pending + {nextFrame};
      nextFrame := nextFrame + 1;
    }

    /** `stop`: not running, and the last requested frame cancelled if there is one. */
    method Stop()
      requires Valid()
      modifies this
      ensures Valid() && !running
      ensures pending == if old(handle) != 0 then old(pending) - {old(handle)} else old(pending)
      ensures handle == old(handle) && nextFrame == old(nextFrame)
      ensures game == old(game) && lastTime == old(lastTime) && drawOrErase == old(drawOrErase)
      ensures last == old(last) && isDrawing == old(isDrawing) && changedCells == old(changedCells)
      ensures stoppedCauseClicked == old(stoppedCauseClicked)
      ensures sizeSlider == old(sizeSlider) && speedSlider == old(speedSlider) && arraySize == old(arraySize)
    {
      running := false;
      if handle != 0 {
        pending := pending - {handle};
      }
    }

    /**
     * `loop(currentTime)`, run by the browser for the pending frame `frame`:
     * nothing more when not running; otherwise one generation when at least
     * `speedSlider` milliseconds have passed since the last one, and the next
     * frame requested.
     */
    method Loop(frame: nat, currentTime: int)
      requires Valid() && frame in pending
      modifies this, game
      ensures Valid() && running == old(running) && game == old(game)
      ensures !old(running) ==>
        pending == old(pending) - {frame} && game.grid == old(game.grid) &&
        lastTime == old(lastTime) && handle == old(handle) && nextFrame == old(nextFrame)
      ensures old(running) ==>
        var due := currentTime - old(lastTime) >= speedSlider;
        && game.grid == (if due then Successor(old(game.grid)) else old(game.grid))
        && lastTime == (if due then currentTime else old(lastTime))
        && handle == old(nextFrame) && nextFrame == old(nextFrame) + 1
        && pending == old(pending) - {frame} + {old(nextFrame)}
      ensures drawOrErase == old(drawOrErase) && stoppedCauseClicked == old(stoppedCauseClicked)
      ensures last == old(last) && isDrawing == old(isDrawing) && changedCells == old(changedCells)
      ensures sizeSlider == old(sizeSlider) && speedSlider == old(speedSlider) && arraySize == old(arraySize)
    {
      pending := pending - {frame};
      if !running {
        return;
      }
      if currentTime - lastTime >= speedSlider {
        game.Iterate();
        lastTime := currentTime;
      }
      handle := nextFrame;
      pending := pending + {nextFrame};
      nextFrame := nextFrame + 1;
    }

    /** `pausePlay` (the play button and the space key): start when stopped, stop when running. */
    method PausePlay()
      requires Valid()
      modifies this
      ensures Valid() && running == !old(running)
      ensures old(running) ==> pending == old(pending) - {old(handle)} && handle == old(handle) && nextFrame == old(nextFrame)
      ensures !old(running) ==>
        pending == old(pending) + {old(nextFrame)} && handle == old(nextFrame) && nextFrame == old(nextFrame) + 1
      ensures game == old(game) && lastTime == old(lastTime) && drawOrErase == old(drawOrErase)
      ensures last == old(last) && isDrawing == old(isDrawing) && changedCells == old(changedCells)
      ensures stoppedCauseClicked == old(stoppedCauseClicked)
      ensures sizeSlider == old(sizeSlider) && speedSlider == old(speedSlider) && arraySize == old(arraySize)
    {
      if !running {
        Start();
      } else {
        Stop();
      }
    }

    /** The step button: exactly one generation, and the animation left stopped. */
    method StepClicked()
      requires Valid()
      modifies this, game
      ensures Valid() && !running && game == old(game)
      ensures game.grid == Successor(old(game.grid))
      ensures pending == if old(handle) != 0 then old(pending) - {old(handle)} else old(pending)
      ensures handle == old(handle) && nextFrame == old(nextFrame)
      ensures lastTime == old(lastTime) && drawOrErase == old(drawOrErase) && stoppedCauseClicked == old(stoppedCauseClicked)
      ensures last == old(last) && isDrawing == old(isDrawing) && changedCells == old(changedCells)
      ensures sizeSlider == old(sizeSlider) && speedSlider == old(speedSlider) && arraySize == old(arraySize)
    {
      game.Iterate();
      Stop();
    }

    /** The clear button: every cell dead and redrawn, and the animation stopped. */
    method ClearClicked()
      requires Valid()
      modifies this, game
      ensures Valid() && !running && game == old(game)
      ensures game.grid == Zeros(arraySize)
      ensures pending == if old(handle) != 0 then old(pending) - {old(handle)} else old(pending)
      ensures handle == old(handle) && nextFrame == old(nextFrame)
      ensures lastTime == old(lastTime) && drawOrErase == old(drawOrErase) && stoppedCauseClicked == old(stoppedCauseClicked)
      ensures last == old(last) && isDrawing == old(isDrawing) && changedCells == old(changedCells)
      ensures sizeSlider == old(sizeSlider) && speedSlider == old(speedSlider) && arraySize == old(arraySize)
    {
      game.grid := Zeros(arraySize);
      game.Draw();
      Stop();
    }

    /** The reset button: a new game from `seed` at the slider's size, and the animation stopped. */
    method ResetClicked(seed: seq<seq<int>>)
      requires Valid() && IsGrid(seed, sizeSlider) && Binary(seed)
      modifies this
      ensures Valid() && !running && fresh(game)
      ensures game.grid == seed && arraySize == sizeSlider && sizeSlider == old(sizeSlider)
      ensures pending == if old(handle) != 0 then old(pending) - {old(handle)} else old(pending)
      ensures handle == old(handle) && nextFrame == old(nextFrame)
      ensures lastTime == old(lastTime) && drawOrErase == old(drawOrErase) && stoppedCauseClicked == old(stoppedCauseClicked)
      ensures last == old(last) && isDrawing == old(isDrawing) && changedCells == old(changedCells)
      ensures speedSlider == old(speedSlider)
    {
      Render(seed);
      Stop();
    }

    /** The draw/erase button flips the mode. */
    method DrawModeClicked()
      requires Valid()
      modifies this
      ensures Valid() && drawOrErase == !old(drawOrErase)
      ensures game == old(game) && running == old(running) && pending == old(pending)
      ensures handle == old(handle) && nextFrame == old(nextFrame) && lastTime == old(lastTime)
      ensures last == old(last) && isDrawing == old(isDrawing) && changedCells == old(changedCells)
      ensures stoppedCauseClicked == old(stoppedCauseClicked)
      ensures sizeSlider == old(sizeSlider) && speedSlider == old(speedSlider) && arraySize == old(arraySize)
    {
      drawOrErase := !drawOrErase;
    }

    /** Moving the size slider to `value` renders a new game of that size from `seed` at once. */
    method SizeSliderMoved(value: int, seed: seq<seq<int>>)
      requires Valid() && sizeMin <= value <= sizeMax
      requires IsGrid(seed, value) && Binary(seed)
      modifies this
      ensures Valid() && fresh(game)
      ensures sizeSlider == value && arraySize == value && game.grid == seed
      ensures running == old(running) && pending == old(pending) && lastTime == old(lastTime)
      ensures handle == old(handle) && nextFrame == old(nextFrame)
      ensures drawOrErase == old(drawOrErase) && stoppedCauseClicked == old(stoppedCauseClicked)
      ensures last == old(last) && isDrawing == old(isDrawing) && changedCells == old(changedCells)
      ensures speedSlider == old(speedSlider)
    {
      sizeSlider := value;
      Render(seed);
    }

    /**
     * A `change` of the size text box, `input` being `parseInt` of its text:
     * a number is clamped into the slider's range and a new game of that size
     * rendered from `seed`; NaN puts the slider back to its initial value and
     * renders nothing.
     */
    method SizeInputChanged(input: Option<int>, seed: seq<seq<int>>)
      requires Valid()
      requires input.Some? ==> IsGrid(seed, Clamp(input, sizeMin, sizeMax, initialSize)) && Binary(seed)
      modifies this
      ensures Valid() && sizeSlider == Clamp(input, sizeMin, sizeMax, initialSize)
      ensures input.Some? ==> fresh(game) && game.grid == seed && arraySize == sizeSlider
      ensures input.None? ==> game == old(game) && arraySize == old(arraySize) && game.grid == old(game.grid)
      ensures running == old(running) && pending == old(pending) && lastTime == old(lastTime)
      ensures handle == old(handle) && nextFrame == old(nextFrame)
      ensures drawOrErase == old(drawOrErase) && stoppedCauseClicked == old(stoppedCauseClicked)
      ensures last == old(last) && isDrawing == old(isDrawing) && changedCells == old(changedCells)
      ensures speedSlider == old(speedSlider)
    {
      match input
      case Some(_) =>
        sizeSlider := Clamp(input, sizeMin, sizeMax, initialSize);
        Render(seed);
      case None =>
        sizeSlider := initialSize;
    }

    /** A `change` of the speed text box: the same clamp onto the speed slider. */
    method SpeedInputChanged(input: Option<int>)
      requires Valid()
      modifies this
      ensures Valid() && speedSlider == Clamp(input, speedMin, speedMax, initialSpeed)
      ensures game == old(game) && running == old(running) && pending == old(pending) && lastTime == old(lastTime)
      ensures sizeSlider == old(sizeSlider) && arraySize == old(arraySize)
      ensures handle == old(handle) && nextFrame == old(nextFrame)
      ensures drawOrErase == old(drawOrErase) && stoppedCauseClicked == old(stoppedCauseClicked)
      ensures last == old(last) && isDrawing == old(isDrawing) && changedCells == old(changedCells)
    {
      speedSlider := Clamp(input, speedMin, speedMax, initialSpeed);
    }

    /**
     * `cellChangeClick` on cell (x, y): a stroke begins, the cell's key is
     * recorded and the cell set; when the set did not throw and the game was
     * running, the animation stops and is marked to restart at stroke end.
     * `lastX`/`lastY` are not touched.
     */
    method Click(x: int, y: int)
      requires Valid()
      modifies this, game
      ensures Valid() && isDrawing && game == old(game)
      ensures changedCells == old(changedCells) + {Cell(x, y)}
      ensures game.grid == Write(old(game.grid), Cell(x, y), Bit(drawOrErase))
      ensures var stops := 0 <= y < arraySize && old(running);
        && running == (old(running) && !stops)
        && stoppedCauseClicked == (old(stoppedCauseClicked) || stops)
        && pending == (if stops then old(pending) - {old(handle)} else old(pending))
      ensures last == old(last) && lastTime == old(lastTime) && drawOrErase == old(drawOrErase)
      ensures handle == old(handle) && nextFrame == old(nextFrame)
      ensures sizeSlider == old(sizeSlider) && speedSlider == old(speedSlider) && arraySize == old(arraySize)
    {
      isDrawing := true;
      changedCells := changedCells + {Cell(x, y)};
      var ok := game.ToggleCell(x, y, drawOrErase);
      ShadeWrite(old(game.grid), Cell(x, y), drawOrErase);
      if !ok {
        return;
      }
      if running {
        Stop();
        stoppedCauseClicked := true;
      }
    }

    /**
     * `cellChangeMove` on cell (x, y): only during a stroke and for a cell
     * whose key is not yet recorded, it toggles `Stroke(last, x, y)`; when that
     * did not throw, (x, y) becomes the last cell and its key (only its key,
     * not those of the line's other cells) is recorded.
     */
    method Move(x: int, y: int)
      requires Valid()
      modifies this, game
      ensures Valid() && game == old(game)
      ensures !old(isDrawing) || Cell(x, y) in old(changedCells) ==>
        game.grid == old(game.grid) && last == old(last) && changedCells == old(changedCells)
      ensures old(isDrawing) && Cell(x, y) !in old(changedCells) ==>
        var w := Stroke(old(last), x, y, arraySize);
        && game.grid == Paint(old(game.grid), w.cells, Bit(drawOrErase))
        && last == (if w.completed then Some(Cell(x, y)) else old(last))
        && changedCells == (if w.completed then old(changedCells) + {Cell(x, y)} else old(changedCells))
      ensures isDrawing == old(isDrawing) && running == old(running) && pending == old(pending)
      ensures stoppedCauseClicked == old(stoppedCauseClicked) && drawOrErase == old(drawOrErase)
      ensures handle == old(handle) && nextFrame == old(nextFrame) && lastTime == old(lastTime)
      ensures sizeSlider == old(sizeSlider) && speedSlider == old(speedSlider) && arraySize == old(arraySize)
    {
      if isDrawing && Cell(x, y) !in changedCells {
        var ok := ToggleStroke(game, drawOrErase, last, x, y);
        if !ok {
          return;
        }
        last := Some(Cell(x, y));
        changedCells := changedCells + {Cell(x, y)};
      }
    }

    /**
     * `cellChangeStop` (mouse up or leave, touch end): the stroke ends, the
     * recorded keys and the last cell are forgotten, and an animation stopped
     * by the stroke's click restarts.
     */
    method StrokeEnd()
      requires Valid()
      modifies this
      ensures Valid() && !isDrawing && changedCells == {} && last == None && !stoppedCauseClicked
      ensures running == (old(running) || old(stoppedCauseClicked))
      ensures old(stoppedCauseClicked) ==>
        pending == old(pending) + {old(nextFrame)} && handle == old(nextFrame) && nextFrame == old(nextFrame) + 1
      ensures !old(stoppedCauseClicked) ==> pending == old(pending) && handle == old(handle) && nextFrame == old(nextFrame)
      ensures game == old(game) && lastTime == old(lastTime) && drawOrErase == old(drawOrErase)
      ensures sizeSlider == old(sizeSlider) && speedSlider == old(speedSlider) && arraySize == old(arraySize)
    {
      isDrawing := false;
      changedCells := {};
      if stoppedCauseClicked {
        Start();
        stoppedCauseClicked := false;
      }
      last := None;
    }
  }
}
