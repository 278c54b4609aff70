/**
 * The cells the line functions of script.js visit: `drawLine`, the
 * error-accumulator walk the stroke handler uses, and the octant variants
 * `drawLineHorizontal` and `drawLineVertical`.
 *
 * Each visited cell is handed to `toggleCell`, which throws when the cell's
 * row is outside the grid; the throw ends the walk. A walk is therefore
 * described together with the grid size `n`.
 */
module Raster {
  import opened Grid

  function Abs(n: int): nat {
    if n < 0 then -n else n
  }

  function Max(a: int, b: int): (m: int) {
    if a < b then b else a
  }

  function Min(a: int, b: int): (m: int) {
    if a < b then a else b
  }

  function Sign(n: int): int {
    if n > 0 then 1 else if n < 0 then -1 else 0
  }

  /** `k` steps of the unit step `s` (-1, 0 or 1). */
  function Offset(k: int, s: int): int {
    if s == 1 then k else if s == -1 then -k else 0
  }

  /**
   * What a walk did: the cells toggled, in order, and whether it ended
   * normally (`completed`) or was cut short by a throw.
   */
  datatype Walk = Walk(cells: seq<Cell>, completed: bool)

  /**
   * Toggling `cells` in order on a grid of `n` rows: the first cell whose row
   * is outside [0, n) throws, and neither it nor any later cell is toggled.
   */
  function Attempt(cells: seq<Cell>, n: int): (w: Walk)
    ensures |w.cells| <= |cells|
  {
    if cells == [] then Walk([], true)
    else if !(0 <= cells[0].y < n) then Walk([], false)
    else
      var rest := Attempt(cells[1..], n);
      Walk([cells[0]] + rest.cells, rest.completed)
  }

  /**
   * An attempt toggles a prefix of `cells`, all in the grid; it completes
   * exactly when that prefix is all of `cells`, and otherwise stops at a cell
   * outside the grid.
   */
  lemma {:induction false} AttemptShape(cells: seq<Cell>, n: int)
    ensures var w := Attempt(cells, n);
      && w.cells <= cells
      && (forall i :: 0 <= i < |w.cells| ==> 0 <= w.cells[i].y < n)
      && (w.completed <==> w.cells == cells)
      && (!w.completed ==> !(0 <= cells[|w.cells|].y < n))
  {
    if cells != [] && 0 <= cells[0].y < n {
      AttemptShape(cells[1..], n);
      var rest := Attempt(cells[1..], n);
      assert Attempt(cells, n).cells == [cells[0]] + rest.cells;
      forall i | 0 <= i < |rest.cells| + 1
        ensures 0 <= Attempt(cells, n).cells[i].y < n
      {
        if i > 0 {
          assert Attempt(cells, n).cells[i] == rest.cells[i - 1];
        }
      }
      assert cells == [cells[0]] + cells[1..];
    }
  }

  /** A single cell is toggled exactly when its row is in the grid. */
  lemma AttemptOne(c: Cell, n: int)
    ensures Attempt([c], n) == if 0 <= c.y < n then Walk([c], true) else Walk([], false)
  {
    assert [c][1..] == [];
  }

  // ---------------------------------------------------------------------
  // drawLine (script.js:177-195)
  // ---------------------------------------------------------------------

  /** The values `drawLine` fixes before its loop: endpoint, distances, unit steps. */
  datatype Line = Line(x1: int, y1: int, dx: nat, dy: nat, xi: int, yi: int)

  /** The variables `drawLine` updates: the current cell and `error`. */
  datatype Cursor = Cursor(x: int, y: int, error: int)

  function LineOf(x0: int, y0: int, x1: int, y1: int): Line {
    Line(x1, y1, Abs(x1 - x0), Abs(y1 - y0), if x0 < x1 then 1 else -1, if y0 < y1 then 1 else -1)
  }

  function Origin(x0: int, y0: int, x1: int, y1: int): Cursor {
    Cursor(x0, y0, Abs(x1 - x0) - Abs(y1 - y0))
  }

  function At(c: Cursor): Cell {
    Cell(c.x, c.y)
  }

  /**
   * One pass of the loop after the break test, as written: the y-test reads
   * `error` after the x-branch may already have reduced it.
   */
  function Step(l: Line, c: Cursor): (r: Cursor)
    ensures (r.x == c.x || r.x == c.x + l.xi) && (r.y == c.y || r.y == c.y + l.yi)
  {
    var c1 := if 2 * c.error > -(l.dy as int) then Cursor(c.x + l.xi, c.y, c.error - l.dy) else c;
    if 2 * c1.error < l.dx then Cursor(c1.x, c1.y + l.yi, c1.error + l.dx) else c1
  }

  /**
   * What holds of `drawLine`'s variables from its first pass on: unit steps,
   * a horizontal line keeps its row and its error and has not passed its
   * endpoint, and a line of one cell stands on its endpoint.
   */
  predicate Tracking(l: Line, c: Cursor) {
    && (l.xi == 1 || l.xi == -1) && (l.yi == 1 || l.yi == -1)
    && (l.dy == 0 ==> c.y == l.y1 && c.error == l.dx && if l.xi == 1 then c.x <= l.x1 else l.x1 <= c.x)
    && (l.dx == 0 && l.dy == 0 ==> c.x == l.x1 && c.y == l.y1)
  }

  /** Rows left before the walk leaves a grid of `n` rows in its y direction. */
  function RowsLeft(l: Line, c: Cursor, n: int): int {
    if l.dy == 0 then 0 else if l.yi == 1 then n - c.y else c.y + 1
  }

  /** Steps left within a row: x-only steps before the next y-step. */
  function Slack(l: Line, c: Cursor): int {
    if l.dy == 0 then Abs(l.x1 - c.x) else if c.error > 0 then c.error else 0
  }

  /** `b` follows `a` by one step of the line: each axis moves by 0 or its unit step, and not both by 0. */
  predicate Advance(l: Line, a: Cell, b: Cell) {
    (b.x == a.x || b.x == a.x + l.xi) && (b.y == a.y || b.y == a.y + l.yi) && a != b
  }

  /** Away from the endpoint, a pass of the loop keeps `Tracking` and moves to a different cell. */
  lemma StepMoves(l: Line, c: Cursor)
    requires Tracking(l, c) && At(c) != Cell(l.x1, l.y1)
    ensures Tracking(l, Step(l, c)) && Advance(l, At(c), At(Step(l, c)))
  {
  }

  /**
   * The walk of `drawLine` from cursor `c` on a grid of `n` rows. It ends at
   * the endpoint, or when the current row is outside the grid (the throw).
   * Without the throw the loop need not end (see `OvershootExample`); with
   * it, it always does, because the row moves in one direction only.
   */
  function Trace(l: Line, c: Cursor, n: int): (w: Walk)
    requires Tracking(l, c)
    ensures |w.cells| > 0 ==> w.cells[0] == At(c)
    decreases RowsLeft(l, c, n), Slack(l, c)
  {
    if !(0 <= c.y < n) then Walk([], false)
    else if At(c) == Cell(l.x1, l.y1) then Walk([At(c)], true)
    else
      StepMoves(l, c);
      var rest := Trace(l, Step(l, c), n);
      Walk([At(c)] + rest.cells, rest.completed)
  }

  /**
   * The walk from `c`: every row inside the grid, `c` first, a unit step
   * between neighbours, and completed exactly when it reaches the endpoint,
   * which is then last and met nowhere before.
   */
  lemma {:induction false} TraceShape(l: Line, c: Cursor, n: int)
    requires Tracking(l, c)
    ensures var w := Trace(l, c, n);
      && (forall i :: 0 <= i < |w.cells| ==> 0 <= w.cells[i].y < n)
      && (|w.cells| > 0 <==> 0 <= c.y < n)
      && (|w.cells| > 0 ==> w.cells[0] == At(c))
      && (w.completed <==> Cell(l.x1, l.y1) in w.cells)
      && (w.completed ==> w.cells[|w.cells| - 1] == Cell(l.x1, l.y1))
      && (w.completed ==> Cell(l.x1, l.y1) !in w.cells[..|w.cells| - 1])
      && (forall i :: 0 < i < |w.cells| ==> Advance(l, w.cells[i - 1], w.cells[i]))
    decreases RowsLeft(l, c, n), Slack(l, c)
  {
    if 0 <= c.y < n && At(c) == Cell(l.x1, l.y1) {
      assert Trace(l, c, n).cells[..0] == [];
    } else if 0 <= c.y < n {
      StepMoves(l, c);
      TraceShape(l, Step(l, c), n);
      var rest := Trace(l, Step(l, c), n);
      var w := Trace(l, c, n);
      assert w.cells == [At(c)] + rest.cells;
      if w.completed {
        assert w.cells[..|w.cells| - 1] == [At(c)] + rest.cells[..|rest.cells| - 1];
      }
      forall i | 0 < i < |w.cells|
        ensures Advance(l, w.cells[i - 1], w.cells[i])
      {
        if i > 1 {
          assert w.cells[i - 1] == rest.cells[i - 2] && w.cells[i] == rest.cells[i - 1];
        }
      }
    }
  }

  /** One pass of the loop: the current cell, then the walk from the next cursor. */
  lemma TraceUnfold(l: Line, c: Cursor, n: int)
    requires Tracking(l, c) && 0 <= c.y < n && At(c) != Cell(l.x1, l.y1)
    ensures Tracking(l, Step(l, c))
    ensures Trace(l, c, n) == Walk([At(c)] + Trace(l, Step(l, c), n).cells, Trace(l, Step(l, c), n).completed)
    ensures 0 <= RowsLeft(l, c, n) && 0 <= Slack(l, Step(l, c))
    ensures RowsLeft(l, Step(l, c), n) < RowsLeft(l, c, n) ||
            (RowsLeft(l, Step(l, c), n) == RowsLeft(l, c, n) && Slack(l, Step(l, c)) < Slack(l, c))
  {
    StepMoves(l, c);
  }

  /**
   * The bookkeeping of a loop that runs the walk: painting the walk from `c`
   * onto `g` is painting `c` first and then the walk from the next cursor.
   */
  lemma PaintOn<T>(g: seq<seq<T>>, l: Line, c: Cursor, n: int, v: T)
    requires Tracking(l, c) && 0 <= c.y < n && At(c) != Cell(l.x1, l.y1)
    ensures Tracking(l, Step(l, c))
    ensures Paint(g, Trace(l, c, n).cells, v) == Paint(Write(g, At(c), v), Trace(l, Step(l, c), n).cells, v)
    ensures Trace(l, c, n).completed == Trace(l, Step(l, c), n).completed
    ensures 0 <= RowsLeft(l, c, n) && 0 <= Slack(l, Step(l, c))
    ensures RowsLeft(l, Step(l, c), n) < RowsLeft(l, c, n) ||
            (RowsLeft(l, Step(l, c), n) == RowsLeft(l, c, n) && Slack(l, Step(l, c)) < Slack(l, c))
  {
    TraceUnfold(l, c, n);
    PaintCons(g, At(c), Trace(l, Step(l, c), n).cells, v);
  }

  /** At the endpoint the walk ends: painting the rest of it is writing that one cell. */
  lemma PaintLast<T>(g: seq<seq<T>>, l: Line, c: Cursor, n: int, v: T)
    requires Tracking(l, c) && 0 <= c.y < n && At(c) == Cell(l.x1, l.y1)
    ensures Trace(l, c, n).completed
    ensures Paint(g, Trace(l, c, n).cells, v) == Write(g, At(c), v)
  {
    assert Trace(l, c, n) == Walk([At(c)], true);
    assert Paint(g, [At(c)], v) == Write(Paint(g, [], v), At(c), v);
  }

  lemma OriginTracking(x0: int, y0: int, x1: int, y1: int)
    ensures Tracking(LineOf(x0, y0, x1, y1), Origin(x0, y0, x1, y1))
  {
  }

  /** What `drawLine(x0, y0, x1, y1)` toggles on a grid of `n` rows. */
  function LineWalk(x0: int, y0: int, x1: int, y1: int, n: int): (w: Walk)
    ensures |w.cells| > 0 ==> w.cells[0] == Cell(x0, y0)
  {
    OriginTracking(x0, y0, x1, y1);
    Trace(LineOf(x0, y0, x1, y1), Origin(x0, y0, x1, y1), n)
  }

  /**
   * `drawLine` toggles (x0, y0) first (unless its row is outside the grid),
   * each later cell is one unit step on from the one before, and the walk
   * completes exactly when it reaches (x1, y1), which is then its last cell
   * and its only visit there: the loop breaks the first time it stands on it.
   */
  lemma LineWalkShape(x0: int, y0: int, x1: int, y1: int, n: int)
    ensures var w := LineWalk(x0, y0, x1, y1, n);
      && (0 <= y0 < n <==> |w.cells| > 0)
      && (0 <= y0 < n ==> w.cells[0] == Cell(x0, y0))
      && (forall i :: 0 <= i < |w.cells| ==> 0 <= w.cells[i].y < n)
      && (forall i :: 0 < i < |w.cells| ==> Advance(LineOf(x0, y0, x1, y1), w.cells[i - 1], w.cells[i]))
      && (w.completed <==> Cell(x1, y1) in w.cells)
      && (w.completed ==> w.cells[|w.cells| - 1] == Cell(x1, y1))
      && (w.completed ==> Cell(x1, y1) !in w.cells[..|w.cells| - 1])
  {
    TraceShape(LineOf(x0, y0, x1, y1), Origin(x0, y0, x1, y1), n);
  }

  // Straight lines: horizontal, vertical and 45 degrees.

  predicate Straight(x0: int, y0: int, x1: int, y1: int) {
    x0 == x1 || y0 == y1 || Abs(x1 - x0) == Abs(y1 - y0)
  }

  /** `len + 1` cells from (x, y) on, each one unit step (sx, sy) from the one before. */
  function Path(x: int, y: int, sx: int, sy: int, len: nat): (p: seq<Cell>)
    ensures |p| == len + 1
  {
    seq(len + 1, k requires 0 <= k <= len => Cell(x + Offset(k, sx), y + Offset(k, sy)))
  }

  /** The straight segment from (x0, y0) to (x1, y1). */
  function StraightCells(x0: int, y0: int, x1: int, y1: int): seq<Cell> {
    Path(x0, y0, Sign(x1 - x0), Sign(y1 - y0), Max(Abs(x1 - x0), Abs(y1 - y0)))
  }

  lemma PathUnfold(x: int, y: int, sx: int, sy: int, len: nat)
    requires len > 0 && -1 <= sx <= 1 && -1 <= sy <= 1
    ensures Path(x, y, sx, sy, len) == [Cell(x, y)] + Path(x + sx, y + sy, sx, sy, len - 1)
  {
    var p, q := Path(x, y, sx, sy, len), [Cell(x, y)] + Path(x + sx, y + sy, sx, sy, len - 1);
    forall k | 0 <= k <= len
      ensures p[k] == q[k]
    {
      if k > 0 {
        assert q[k] == Path(x + sx, y + sy, sx, sy, len - 1)[k - 1];
      }
    }
  }

  /** On a straight line the walk keeps its error at dx - dy and heads straight for the endpoint. */
  predicate OnStraight(l: Line, c: Cursor) {
    && c.error == l.dx - l.dy
    && (l.dx == 0 || l.dy == 0 || l.dx == l.dy)
    && (l.dx == 0 ==> c.x == l.x1)
    && (l.dy == 0 ==> c.y == l.y1)
    && (l.dx == l.dy ==> Abs(l.x1 - c.x) == Abs(l.y1 - c.y))
    && (if l.xi == 1 then c.x <= l.x1 else l.x1 <= c.x)
    && (if l.yi == 1 then c.y <= l.y1 else l.y1 <= c.y)
  }

  /** On a straight line a pass of the loop moves one unit step straight towards the endpoint. */
  lemma StraightStep(l: Line, c: Cursor)
    requires Tracking(l, c) && OnStraight(l, c) && At(c) != Cell(l.x1, l.y1)
    ensures Step(l, c) == Cursor(c.x + Sign(l.x1 - c.x), c.y + Sign(l.y1 - c.y), c.error)
    ensures OnStraight(l, Step(l, c))
    ensures Max(Abs(l.x1 - Step(l, c).x), Abs(l.y1 - Step(l, c).y)) < Max(Abs(l.x1 - c.x), Abs(l.y1 - c.y))
  {
  }

  lemma StraightUnfold(x: int, y: int, x1: int, y1: int)
    requires Straight(x, y, x1, y1) && Cell(x, y) != Cell(x1, y1)
    ensures Straight(x + Sign(x1 - x), y + Sign(y1 - y), x1, y1)
    ensures StraightCells(x, y, x1, y1) == [Cell(x, y)] + StraightCells(x + Sign(x1 - x), y + Sign(y1 - y), x1, y1)
  {
    var sx, sy := Sign(x1 - x), Sign(y1 - y);
    var len := Max(Abs(x1 - x), Abs(y1 - y));
    PathUnfold(x, y, sx, sy, len);
    if len > 1 {
      assert Sign(x1 - (x + sx)) == sx && Sign(y1 - (y + sy)) == sy;
    }
  }

  lemma StraightEnd(l: Line, c: Cursor, n: int)
    requires Tracking(l, c) && 0 <= c.y < n && At(c) == Cell(l.x1, l.y1)
    ensures Trace(l, c, n) == Walk(StraightCells(c.x, c.y, l.x1, l.y1), true)
  {
    assert StraightCells(c.x, c.y, l.x1, l.y1) == [At(c)];
  }

  lemma StraightOn(l: Line, c: Cursor)
    requires OnStraight(l, c)
    ensures Straight(c.x, c.y, l.x1, l.y1)
  {
  }

  lemma {:induction false} StraightTrace(l: Line, c: Cursor, n: int)
    requires Tracking(l, c) && OnStraight(l, c)
    requires 0 <= c.y < n && 0 <= l.y1 < n
    ensures Trace(l, c, n) == Walk(StraightCells(c.x, c.y, l.x1, l.y1), true)
    decreases Max(Abs(l.x1 - c.x), Abs(l.y1 - c.y))
  {
    if At(c) == Cell(l.x1, l.y1) {
      StraightEnd(l, c, n);
    } else {
      var c' := Step(l, c);
      TraceUnfold(l, c, n);
      assert StraightCells(c.x, c.y, l.x1, l.y1) == [At(c)] + StraightCells(c'.x, c'.y, l.x1, l.y1) by {
        StraightStep(l, c);
        StraightOn(l, c);
        StraightUnfold(c.x, c.y, l.x1, l.y1);
      }
      assert OnStraight(l, c') && 0 <= c'.y < n && Max(Abs(l.x1 - c'.x), Abs(l.y1 - c'.y)) < Max(Abs(l.x1 - c.x), Abs(l.y1 - c.y)) by {
        StraightStep(l, c);
      }
      StraightTrace(l, c', n);
    }
  }

  /**
   * For horizontal, vertical and 45-degree lines whose end rows lie inside
   * the grid, `drawLine` toggles exactly the straight segment, in order, and
   * completes.
   */
  lemma StraightLineIsExact(x0: int, y0: int, x1: int, y1: int, n: int)
    requires Straight(x0, y0, x1, y1) && 0 <= y0 < n && 0 <= y1 < n
    ensures LineWalk(x0, y0, x1, y1, n) == Walk(StraightCells(x0, y0, x1, y1), true)
  {
    StraightTrace(LineOf(x0, y0, x1, y1), Origin(x0, y0, x1, y1), n);
  }

  /** (2,2) to (2,5): the four cells of the column, in order. */
  lemma VerticalExample(n: int)
    requires n >= 6
    ensures LineWalk(2, 2, 2, 5, n) == Walk([Cell(2, 2), Cell(2, 3), Cell(2, 4), Cell(2, 5)], true)
  {
    StraightLineIsExact(2, 2, 2, 5, n);
  }

  /** (0,0) to (3,3): the four cells of the diagonal, in order. */
  lemma DiagonalExample(n: int)
    requires n >= 4
    ensures LineWalk(0, 0, 3, 3, n) == Walk([Cell(0, 0), Cell(1, 1), Cell(2, 2), Cell(3, 3)], true)
  {
    StraightLineIsExact(0, 0, 3, 3, n);
  }

  function Reverse<T>(s: seq<T>): (r: seq<T>)
    ensures |r| == |s| && forall i :: 0 <= i < |s| ==> r[i] == s[|s| - 1 - i]
  {
    seq(|s|, i requires 0 <= i < |s| => s[|s| - 1 - i])
  }

  lemma PathReverse(x: int, y: int, sx: int, sy: int, len: nat)
    requires -1 <= sx <= 1 && -1 <= sy <= 1
    ensures Path(x + Offset(len, sx), y + Offset(len, sy), -sx, -sy, len) == Reverse(Path(x, y, sx, sy, len))
  {
  }

  lemma StraightCellsReverse(x0: int, y0: int, x1: int, y1: int)
    requires Straight(x0, y0, x1, y1)
    ensures StraightCells(x1, y1, x0, y0) == Reverse(StraightCells(x0, y0, x1, y1))
  {
    var sx, sy := Sign(x1 - x0), Sign(y1 - y0);
    var len := Max(Abs(x1 - x0), Abs(y1 - y0));
    assert x0 + Offset(len, sx) == x1 && y0 + Offset(len, sy) == y1;
    assert Sign(x0 - x1) == -sx && Sign(y0 - y1) == -sy;
    PathReverse(x0, y0, sx, sy, len);
  }

  /**
   * For straight lines the walk is symmetric: drawing from (x1, y1) to
   * (x0, y0) toggles the same cells in the reverse order.
   */
  lemma StraightLineReverses(x0: int, y0: int, x1: int, y1: int, n: int)
    requires Straight(x0, y0, x1, y1) && 0 <= y0 < n && 0 <= y1 < n
    ensures LineWalk(x1, y1, x0, y0, n).cells == Reverse(LineWalk(x0, y0, x1, y1, n).cells)
  {
    StraightLineIsExact(x0, y0, x1, y1, n);
    StraightLineIsExact(x1, y1, x0, y0, n);
    StraightCellsReverse(x0, y0, x1, y1);
  }

  /**
   * The walk is not symmetric in general: (0,0) to (2,1) passes through
   * (1,1), the way back through (1,0).
   */
  lemma AsymmetryExample(n: int)
    requires n >= 2
    ensures LineWalk(0, 0, 2, 1, n) == Walk([Cell(0, 0), Cell(1, 1), Cell(2, 1)], true)
    ensures LineWalk(2, 1, 0, 0, n) == Walk([Cell(2, 1), Cell(1, 0), Cell(0, 0)], true)
  {
    var l := LineOf(0, 0, 2, 1);
    assert Step(l, Cursor(0, 0, 1)) == Cursor(1, 1, 2);
    assert Step(l, Cursor(1, 1, 2)) == Cursor(2, 1, 1);
    assert Trace(l, Cursor(2, 1, 1), n) == Walk([Cell(2, 1)], true);
    assert Trace(l, Cursor(1, 1, 2), n) == Walk([Cell(1, 1), Cell(2, 1)], true);
    var m := LineOf(2, 1, 0, 0);
    assert Step(m, Cursor(2, 1, 1)) == Cursor(1, 0, 2);
    assert Step(m, Cursor(1, 0, 2)) == Cursor(0, 0, 1);
    assert Trace(m, Cursor(0, 0, 1), n) == Walk([Cell(0, 0)], true);
    assert Trace(m, Cursor(1, 0, 2), n) == Walk([Cell(1, 0), Cell(0, 0)], true);
  }

  // The overshoot of the as-written loop.

  /** Once the row has passed the endpoint's row (going down), the walk can never complete. */
  lemma {:induction false} PastTheEnd(l: Line, c: Cursor, n: int)
    requires Tracking(l, c) && l.yi == 1 && c.y > l.y1
    ensures !Trace(l, c, n).completed
    decreases RowsLeft(l, c, n), Slack(l, c)
  {
    if 0 <= c.y < n && At(c) != Cell(l.x1, l.y1) {
      StepMoves(l, c);
      PastTheEnd(l, Step(l, c), n);
    }
  }

  /**
   * (0,0) to (3,2): the walk steps from (2,2) to (3,3), past the endpoint,
   * and never comes back; on every grid the loop ends only by throwing.
   */
  lemma OvershootExample(n: int)
    ensures !LineWalk(0, 0, 3, 2, n).completed
    ensures n >= 4 ==>
      |LineWalk(0, 0, 3, 2, n).cells| >= 4 &&
      LineWalk(0, 0, 3, 2, n).cells[..4] == [Cell(0, 0), Cell(1, 1), Cell(2, 2), Cell(3, 3)]
  {
    var l := LineOf(0, 0, 3, 2);
    var c0, c1, c2, c3 := Cursor(0, 0, 1), Cursor(1, 1, 2), Cursor(2, 2, 3), Cursor(3, 3, 4);
    assert Step(l, c0) == c1 && Step(l, c1) == c2 && Step(l, c2) == c3;
    PastTheEnd(l, c3, n);
    if n >= 4 {
      var w3 := Trace(l, c3, n);
      assert w3.cells[0] == Cell(3, 3);
      assert Trace(l, c2, n).cells == [At(c2)] + w3.cells;
      assert Trace(l, c1, n).cells == [At(c1), At(c2)] + w3.cells;
      assert Trace(l, c0, n).cells == [At(c0), At(c1), At(c2)] + w3.cells;
    }
  }

  // The evidently intended loop: standard Bresenham, with 2 * error taken once.

  function FixedStep(l: Line, c: Cursor): (r: Cursor)
    ensures (r.x == c.x || r.x == c.x + l.xi) && (r.y == c.y || r.y == c.y + l.yi)
  {
    var e2 := 2 * c.error;
    var c1 := if e2 > -(l.dy as int) then Cursor(c.x + l.xi, c.y, c.error - l.dy) else c;
    if e2 < l.dx then Cursor(c1.x, c1.y + l.yi, c1.error + l.dx) else c1
  }

  /** Distance still to go along unit step `s`. */
  function Ahead(d: int, s: int): int {
    if s == 1 then d else -d
  }

  /**
   * The standard invariant: with rx, ry the distances still to go,
   * error == dx - dy + dy * rx - dx * ry, and neither has been overshot.
   */
  predicate OnCourse(l: Line, c: Cursor) {
    var rx, ry := Ahead(l.x1 - c.x, l.xi), Ahead(l.y1 - c.y, l.yi);
    && (l.xi == 1 || l.xi == -1) && (l.yi == 1 || l.yi == -1)
    && 0 <= rx <= l.dx && 0 <= ry <= l.dy
    && c.error == l.dx - l.dy + l.dy * rx - l.dx * ry
  }

  lemma MulMono(a: int, b: int, c: int)
    ensures a >= 0 && b <= c ==> a * b <= a * c
  {
    assert a * c - a * b == a * (c - b);
  }

  /** A step along an axis with distance still to go `r` needs `r` at least one. */
  lemma CourseBounds(l: Line, c: Cursor)
    requires OnCourse(l, c)
    ensures Ahead(l.x1 - c.x, l.xi) == 0 ==> Ahead(l.y1 - c.y, l.yi) == 0 || 2 * c.error <= -(l.dy as int)
    ensures Ahead(l.y1 - c.y, l.yi) == 0 ==> Ahead(l.x1 - c.x, l.xi) == 0 || 2 * c.error >= l.dx
  {
    var rx, ry := Ahead(l.x1 - c.x, l.xi), Ahead(l.y1 - c.y, l.yi);
    MulMono(l.dx, 1, ry);
    MulMono(l.dy, 1, rx);
  }

  lemma MulPred(a: int, b: int)
    ensures a * (b - 1) == a * b - a
  {
  }

  lemma FixedStepKeepsCourse(l: Line, c: Cursor)
    requires OnCourse(l, c) && At(c) != Cell(l.x1, l.y1)
    ensures OnCourse(l, FixedStep(l, c)) && Advance(l, At(c), At(FixedStep(l, c)))
    ensures var c' := FixedStep(l, c);
      Ahead(l.x1 - c'.x, l.xi) + Ahead(l.y1 - c'.y, l.yi) < Ahead(l.x1 - c.x, l.xi) + Ahead(l.y1 - c.y, l.yi)
  {
    var rx, ry := Ahead(l.x1 - c.x, l.xi), Ahead(l.y1 - c.y, l.yi);
    CourseBounds(l, c);
    var e2 := 2 * c.error;
    var stepX, stepY := e2 > -(l.dy as int), e2 < l.dx;
    MulPred(l.dy, rx);
    MulPred(l.dx, ry);
    if stepX && stepY {
      assert FixedStep(l, c) == Cursor(c.x + l.xi, c.y + l.yi, c.error - l.dy + l.dx);
    } else if stepX {
      assert FixedStep(l, c) == Cursor(c.x + l.xi, c.y, c.error - l.dy);
    } else {
      assert stepY;
      assert FixedStep(l, c) == Cursor(c.x, c.y + l.yi, c.error + l.dx);
    }
  }

  /** The corrected walk from `c`: it reaches the endpoint and stops there. */
  function FixedTrace(l: Line, c: Cursor): (cells: seq<Cell>)
    requires OnCourse(l, c)
    ensures |cells| > 0 && cells[0] == At(c) && cells[|cells| - 1] == Cell(l.x1, l.y1)
    ensures forall i :: 0 < i < |cells| ==> Advance(l, cells[i - 1], cells[i])
    ensures Cell(l.x1, l.y1) !in cells[..|cells| - 1]
    decreases Ahead(l.x1 - c.x, l.xi) + Ahead(l.y1 - c.y, l.yi)
  {
    if At(c) == Cell(l.x1, l.y1) then [At(c)]
    else
      FixedStepKeepsCourse(l, c);
      var rest := FixedTrace(l, FixedStep(l, c));
      assert ([At(c)] + rest)[..|rest|] == [At(c)] + rest[..|rest| - 1];
      [At(c)] + rest
  }

  lemma OriginOnCourse(x0: int, y0: int, x1: int, y1: int)
    ensures OnCourse(LineOf(x0, y0, x1, y1), Origin(x0, y0, x1, y1))
  {
    var l := LineOf(x0, y0, x1, y1);
    assert l.dy * l.dx == l.dx * l.dy;
  }

  /** Standard Bresenham from (x0, y0) to (x1, y1). */
  function FixedLine(x0: int, y0: int, x1: int, y1: int): (cells: seq<Cell>)
    ensures |cells| > 0 && cells[0] == Cell(x0, y0)
  {
    OriginOnCourse(x0, y0, x1, y1);
    FixedTrace(LineOf(x0, y0, x1, y1), Origin(x0, y0, x1, y1))
  }

  /**
   * With `2 * error` taken once before both tests, every line starts at
   * (x0, y0), moves one unit step at a time and ends at (x1, y1), which it
   * visits only there.
   */
  lemma FixedLineReachesEnd(x0: int, y0: int, x1: int, y1: int)
    ensures var cells := FixedLine(x0, y0, x1, y1);
      && |cells| > 0 && cells[0] == Cell(x0, y0) && cells[|cells| - 1] == Cell(x1, y1)
      && Cell(x1, y1) !in cells[..|cells| - 1]
      && forall i :: 0 < i < |cells| ==> Advance(LineOf(x0, y0, x1, y1), cells[i - 1], cells[i])
  {
  }

  /** The corrected walk from (0,0) to (3,2). */
  lemma FixedOvershootExample()
    ensures FixedLine(0, 0, 3, 2) == [Cell(0, 0), Cell(1, 1), Cell(2, 1), Cell(3, 2)]
  {
    var l := LineOf(0, 0, 3, 2);
    assert FixedStep(l, Cursor(0, 0, 1)) == Cursor(1, 1, 2);
    assert FixedStep(l, Cursor(1, 1, 2)) == Cursor(2, 1, 0);
    assert FixedStep(l, Cursor(2, 1, 0)) == Cursor(3, 2, 1);
  }

  // ---------------------------------------------------------------------
  // drawLineHorizontal (script.js:130-152) and drawLineVertical (153-175)
  // ---------------------------------------------------------------------

  /** The minor-axis offset reached and the decision variable `D`. */
  datatype Midpoint = Midpoint(offset: nat, decision: int)

  /**
   * The midpoint walk's state at the start of pass `i`, for a major-axis
   * distance `run` and a minor-axis distance `rise`.
   */
  function MidpointAt(run: int, rise: int, i: nat): Midpoint {
    if i == 0 then Midpoint(0, 2 * rise - run)
    else
      var m := MidpointAt(run, rise, i - 1);
      if m.decision >= 0 then Midpoint(m.offset + 1, m.decision - 2 * run + 2 * rise)
      else Midpoint(m.offset, m.decision + 2 * rise)
  }

  /** `a` added up `n` times. */
  function Times(a: int, n: nat): int {
    if n == 0 then 0 else Times(a, n - 1) + a
  }

  lemma {:induction false} TimesIsProduct(a: int, n: nat)
    ensures Times(a, n) == a * n
  {
    if n > 0 {
      TimesIsProduct(a, n - 1);
    }
  }

  lemma {:induction false} TimesMono(a: int, m: nat, n: nat)
    ensures a >= 0 && m <= n ==> Times(a, m) <= Times(a, n)
    decreases n
  {
    if n > m {
      TimesMono(a, m, n - 1);
    }
  }

  lemma TimesSwap(a: nat, b: nat)
    ensures Times(2 * a, b) == Times(2 * b, a)
  {
    TimesIsProduct(2 * a, b);
    TimesIsProduct(2 * b, a);
    assert (2 * a) * b == (2 * b) * a;
  }

  /**
   * In the octant it is made for (0 <= rise <= run), the walk keeps the
   * offset at the rounding of rise * i / run: 2 * run * offset is within
   * `run` of 2 * rise * i, and `D` measures the distance to the next midpoint.
   */
  lemma {:induction false} MidpointTracks(run: int, rise: int, i: nat)
    requires 0 <= rise <= run && run > 0
    ensures var m := MidpointAt(run, rise, i);
      && Times(2 * run, m.offset) <= Times(2 * rise, i) + run < Times(2 * run, m.offset) + 2 * run
      && m.decision == Times(2 * rise, i) + 2 * rise - run - Times(2 * run, m.offset)
  {
    if i > 0 {
      MidpointTracks(run, rise, i - 1);
    }
  }

  /** Within the octant the offset never passes `rise`. */
  lemma MidpointBounded(run: int, rise: int, i: nat)
    requires 0 <= rise <= run && run > 0 && i <= run
    ensures MidpointAt(run, rise, i).offset <= rise
  {
    var k := MidpointAt(run, rise, i).offset;
    MidpointTracks(run, rise, i);
    TimesMono(2 * run, rise + 1, k);
    TimesMono(2 * rise, i, run);
    TimesSwap(rise, run);
  }

  /** After `run` passes the offset is exactly `rise`. */
  lemma MidpointEnds(run: int, rise: int)
    requires 0 <= rise <= run && run > 0
    ensures MidpointAt(run, rise, run).offset == rise
  {
    var k := MidpointAt(run, rise, run).offset;
    MidpointTracks(run, rise, run);
    MidpointBounded(run, rise, run);
    TimesMono(2 * run, k + 1, rise);
    TimesSwap(rise, run);
  }

  /** Each pass raises the offset by 0 or 1. */
  lemma MidpointSteps(run: int, rise: int, i: nat)
    requires i > 0
    ensures MidpointAt(run, rise, i).offset - MidpointAt(run, rise, i - 1).offset in {0, 1}
  {
  }

  /**
   * One pass of the octant loops on their variables: with the offset `off`
   * (signed by `si`) and decision `D` of pass `i`, the updates give those of
   * pass `i + 1`.
   */
  lemma MidpointNext(run: int, rise: int, i: nat, off: int, si: int, D: int)
    requires si == 1 || si == -1
    requires off == Offset(MidpointAt(run, rise, i).offset, si) && D == MidpointAt(run, rise, i).decision
    ensures off + (if D >= 0 then si else 0) == Offset(MidpointAt(run, rise, i + 1).offset, si)
    ensures (if D >= 0 then D - 2 * run else D) + 2 * rise == MidpointAt(run, rise, i + 1).decision
  {
  }

  /** The cell of pass `i` of the midpoint walk from (xa, ya): column `xa + i`, row offset signed by `yi`. */
  function RunCell(xa: int, ya: int, run: int, rise: int, yi: int, i: nat): Cell {
    Cell(xa + i, ya + Offset(MidpointAt(run, rise, i).offset, yi))
  }

  /** The cells of the first `k` passes of the midpoint walk, in order. */
  function RunPrefix(xa: int, ya: int, run: int, rise: int, yi: int, k: nat): (cells: seq<Cell>)
    ensures |cells| == k
  {
    if k == 0 then [] else RunPrefix(xa, ya, run, rise, yi, k - 1) + [RunCell(xa, ya, run, rise, yi, k - 1)]
  }

  /** Cell `j` of a prefix is the cell of pass `j`. */
  lemma {:induction false} RunPrefixAt(xa: int, ya: int, run: int, rise: int, yi: int, k: nat, j: nat)
    requires j < k
    ensures RunPrefix(xa, ya, run, rise, yi, k)[j] == RunCell(xa, ya, run, rise, yi, j)
  {
    if j < k - 1 {
      RunPrefixAt(xa, ya, run, rise, yi, k - 1, j);
    }
  }

  /** The midpoint walk from (xa, ya) to (xb, yb) with xa <= xb: one cell per column. */
  function HorizontalRun(xa: int, ya: int, xb: int, yb: int): (cells: seq<Cell>)
    requires xa <= xb
    ensures |cells| == xb - xa + 1
  {
    RunPrefix(xa, ya, xb - xa, Abs(yb - ya), if yb - ya < 0 then -1 else 1, xb - xa + 1)
  }

  /** Cell `i` of the run from (xa, ya) to (xb, yb). */
  lemma HorizontalRunAt(xa: int, ya: int, xb: int, yb: int, i: nat)
    requires xa <= xb && i <= xb - xa
    ensures HorizontalRun(xa, ya, xb, yb)[i] == RunCell(xa, ya, xb - xa, Abs(yb - ya), if yb - ya < 0 then -1 else 1, i)
  {
    RunPrefixAt(xa, ya, xb - xa, Abs(yb - ya), if yb - ya < 0 then -1 else 1, xb - xa + 1, i);
  }

  /**
   * The cells `drawLineHorizontal(x0, y0, x1, y1)` toggles, in order, were
   * none to throw: the endpoints are first put in x order, then one cell per
   * column, the row moving towards the other end by the midpoint walk.
   */
  function HorizontalCells(x0: int, y0: int, x1: int, y1: int): (cells: seq<Cell>)
    ensures |cells| == Abs(x1 - x0) + 1
  {
    if x0 > x1 then HorizontalRun(x1, y1, x0, y0) else HorizontalRun(x0, y0, x1, y1)
  }

  /**
   * The horizontal walk as the loop of `drawLineHorizontal` runs it: from the
   * endpoint `(xa, ya)` with the smaller x, over `run + 1` columns.
   */
  lemma HorizontalCellsRun(x0: int, y0: int, x1: int, y1: int, xa: int, ya: int, run: int, rise: int, yi: int)
    requires if x0 > x1 then xa == x1 && ya == y1 else xa == x0 && ya == y0
    requires run == Abs(x1 - x0) && rise == Abs(y1 - y0)
    requires yi == if (if x0 > x1 then y0 - y1 else y1 - y0) < 0 then -1 else 1
    ensures HorizontalCells(x0, y0, x1, y1) == RunPrefix(xa, ya, run, rise, yi, run + 1)
  {
  }

  lemma HorizontalRunSteps(xa: int, ya: int, xb: int, yb: int)
    requires xa <= xb
    ensures var cells := HorizontalRun(xa, ya, xb, yb);
      && cells[0] == Cell(xa, ya)
      && forall i :: 0 < i < |cells| ==>
           cells[i].x == cells[i - 1].x + 1 && cells[i].y - cells[i - 1].y in {0, if yb < ya then -1 else 1}
  {
    HorizontalRunAt(xa, ya, xb, yb, 0);
    var cells := HorizontalRun(xa, ya, xb, yb);
    forall i | 0 < i < |cells|
      ensures cells[i].x == cells[i - 1].x + 1 && cells[i].y - cells[i - 1].y in {0, if yb < ya then -1 else 1}
    {
      HorizontalRunAt(xa, ya, xb, yb, i);
      HorizontalRunAt(xa, ya, xb, yb, i - 1);
      MidpointSteps(xb - xa, Abs(yb - ya), i);
    }
  }

  /**
   * The horizontal walk starts at the endpoint with the smaller x and moves
   * one column right per cell, its row staying or moving one unit towards
   * the other endpoint's row (y + 1 when the rows are equal).
   */
  lemma HorizontalSteps(x0: int, y0: int, x1: int, y1: int)
    ensures var cells := HorizontalCells(x0, y0, x1, y1);
      var start := if x0 > x1 then Cell(x1, y1) else Cell(x0, y0);
      var target := if x0 > x1 then Cell(x0, y0) else Cell(x1, y1);
      && cells[0] == start
      && forall i :: 0 < i < |cells| ==>
           cells[i].x == cells[i - 1].x + 1 &&
           cells[i].y - cells[i - 1].y in {0, if target.y < start.y then -1 else 1}
  {
    if x0 > x1 {
      HorizontalRunSteps(x1, y1, x0, y0);
    } else {
      HorizontalRunSteps(x0, y0, x1, y1);
    }
  }

  lemma {:induction false} HorizontalReachesEndOrdered(x0: int, y0: int, x1: int, y1: int)
    requires x0 <= x1 && Abs(y1 - y0) <= x1 - x0
    ensures var cells := HorizontalRun(x0, y0, x1, y1);
      && cells[|cells| - 1] == Cell(x1, y1)
      && forall i :: 0 <= i < |cells| ==> Min(y0, y1) <= cells[i].y <= Max(y0, y1)
  {
    var run, rise := x1 - x0, Abs(y1 - y0);
    var cells := HorizontalRun(x0, y0, x1, y1);
    HorizontalRunAt(x0, y0, x1, y1, run);
    if run > 0 {
      MidpointEnds(run, rise);
    }
    forall i | 0 <= i < |cells|
      ensures Min(y0, y1) <= cells[i].y <= Max(y0, y1)
    {
      HorizontalRunAt(x0, y0, x1, y1, i);
      if run > 0 {
        MidpointBounded(run, rise, i);
      }
    }
  }

  /**
   * In its octant (|y1 - y0| <= |x1 - x0|) the horizontal walk ends at the
   * other endpoint and never leaves the rows between the two endpoints.
   */
  lemma HorizontalReachesEnd(x0: int, y0: int, x1: int, y1: int)
    requires Abs(y1 - y0) <= Abs(x1 - x0)
    ensures var cells := HorizontalCells(x0, y0, x1, y1);
      && cells[|cells| - 1] == (if x0 > x1 then Cell(x0, y0) else Cell(x1, y1))
      && forall i :: 0 <= i < |cells| ==> Min(y0, y1) <= cells[i].y <= Max(y0, y1)
  {
    if x0 > x1 {
      HorizontalReachesEndOrdered(x1, y1, x0, y0);
    } else {
      HorizontalReachesEndOrdered(x0, y0, x1, y1);
    }
  }

  /**
   * Outside its octant the horizontal walk stops short: from (0,0) to (1,3)
   * it toggles (0,0) and (1,1) only.
   */
  lemma HorizontalSteepExample()
    ensures HorizontalCells(0, 0, 1, 3) == [Cell(0, 0), Cell(1, 1)]
  {
    assert MidpointAt(1, 3, 0) == Midpoint(0, 5);
    assert MidpointAt(1, 3, 1) == Midpoint(1, 9);
    assert RunPrefix(0, 0, 1, 3, 1, 2) == [Cell(0, 0), Cell(1, 1)];
  }

  /** Each cell with its coordinates exchanged. */
  function Transpose(cells: seq<Cell>): (r: seq<Cell>)
    ensures |r| == |cells|
  {
    if cells == [] then []
    else Transpose(cells[..|cells| - 1]) + [Cell(cells[|cells| - 1].y, cells[|cells| - 1].x)]
  }

  lemma {:induction false} TransposeAt(cells: seq<Cell>)
    ensures forall i :: 0 <= i < |cells| ==> Transpose(cells)[i] == Cell(cells[i].y, cells[i].x)
  {
    if cells != [] {
      TransposeAt(cells[..|cells| - 1]);
    }
  }

  /**
   * The cells `drawLineVertical(x0, y0, x1, y1)` toggles, in order, were
   * none to throw: the horizontal walk with the axes exchanged.
   */
  function VerticalCells(x0: int, y0: int, x1: int, y1: int): (cells: seq<Cell>)
    ensures |cells| == Abs(y1 - y0) + 1
  {
    Transpose(HorizontalCells(y0, x0, y1, x1))
  }

  /**
   * In its octant (|x1 - x0| <= |y1 - y0|) the vertical walk goes from the
   * endpoint with the smaller y to the other one, one row down per cell, and
   * never leaves the columns between the two endpoints.
   */
  lemma VerticalReachesEnd(x0: int, y0: int, x1: int, y1: int)
    requires Abs(x1 - x0) <= Abs(y1 - y0)
    ensures var cells := VerticalCells(x0, y0, x1, y1);
      && cells[0] == (if y0 > y1 then Cell(x1, y1) else Cell(x0, y0))
      && cells[|cells| - 1] == (if y0 > y1 then Cell(x0, y0) else Cell(x1, y1))
      && (forall i :: 0 < i < |cells| ==> cells[i].y == cells[i - 1].y + 1)
      && forall i :: 0 <= i < |cells| ==> Min(x0, x1) <= cells[i].x <= Max(x0, x1)
  {
    HorizontalSteps(y0, x0, y1, x1);
    HorizontalReachesEnd(y0, x0, y1, x1);
    TransposeAt(HorizontalCells(y0, x0, y1, x1));
  }

  // ---------------------------------------------------------------------
  // The loops of drawLineHorizontal and drawLineVertical, pass by pass
  // ---------------------------------------------------------------------

  /** The cell of a pass at major-axis coordinate `a` and minor-axis coordinate `b`. */
  function PassCell(vertical: bool, a: int, b: int): Cell {
    if vertical then Cell(b, a) else Cell(a, b)
  }

  /**
   * What the loop of `drawLineHorizontal` (`vertical` false) or of
   * `drawLineVertical` (`vertical` true) toggles from pass `i` on, the minor
   * coordinate having reached `b` and the decision variable `D`: one cell per
   * pass up to pass `run`, stopping at the first cell whose row is not in
   * the grid.
   */
  function Passes(vertical: bool, a0: int, run: int, rise: int, s: int, i: int, b: int, D: int, n: int): (w: Walk)
    ensures w.completed ==> |w.cells| == Max(0, run + 1 - i)
    decreases run + 1 - i
  {
    if i > run then Walk([], true)
    else if !(0 <= PassCell(vertical, a0 + i, b).y < n) then Walk([], false)
    else
      var rest := Passes(vertical, a0, run, rise, s, i + 1, b + (if D >= 0 then s else 0), (if D >= 0 then D - 2 * run else D) + 2 * rise, n);
      Walk([PassCell(vertical, a0 + i, b)] + rest.cells, rest.completed)
  }

  /**
   * The bookkeeping of the loops: once the cell of pass `i` is written, what
   * the passes from `i + 1` on paint over the grid adds up to what the
   * passes from `i` on painted over the grid before.
   */
  lemma PaintPass<T>(g: seq<seq<T>>, g1: seq<seq<T>>, target: seq<seq<T>>, vertical: bool, a0: int, run: int, rise: int, s: int, i: int, b: int, D: int, b1: int, D1: int, n: int, v: T)
    requires i <= run && 0 <= PassCell(vertical, a0 + i, b).y < n
    requires b1 == b + (if D >= 0 then s else 0) && D1 == (if D >= 0 then D - 2 * run else D) + 2 * rise
    requires Paint(g, Passes(vertical, a0, run, rise, s, i, b, D, n).cells, v) == target
    requires g1 == Write(g, PassCell(vertical, a0 + i, b), v)
    ensures Paint(g1, Passes(vertical, a0, run, rise, s, i + 1, b1, D1, n).cells, v) == target
    ensures Passes(vertical, a0, run, rise, s, i, b, D, n).completed == Passes(vertical, a0, run, rise, s, i + 1, b1, D1, n).completed
  {
    PaintCons(g, PassCell(vertical, a0 + i, b), Passes(vertical, a0, run, rise, s, i + 1, b1, D1, n).cells, v);
  }

  /** The cells of the midpoint walk from (a0, b0), with the axes exchanged when `vertical`. */
  function PassCells(vertical: bool, a0: int, b0: int, run: int, rise: int, s: int): seq<Cell> {
    var cells := RunPrefix(a0, b0, run, rise, s, if run < 0 then 0 else run + 1);
    if vertical then Transpose(cells) else cells
  }

  /** Pass `i` of a loop that has passes left toggles its cell unless the cell's row throws, then goes on with pass `i + 1`. */
  lemma PassesUnfold(vertical: bool, a0: int, run: int, rise: int, s: int, i: int, b: int, D: int, b1: int, D1: int, n: int)
    requires i <= run
    requires b1 == b + (if D >= 0 then s else 0) && D1 == (if D >= 0 then D - 2 * run else D) + 2 * rise
    ensures Passes(vertical, a0, run, rise, s, i, b, D, n) ==
      if !(0 <= PassCell(vertical, a0 + i, b).y < n) then Walk([], false)
      else Walk([PassCell(vertical, a0 + i, b)] + Passes(vertical, a0, run, rise, s, i + 1, b1, D1, n).cells,
                Passes(vertical, a0, run, rise, s, i + 1, b1, D1, n).completed)
  {
  }

  /** Cell `i` of the walk is the cell pass `i` toggles, with the walk's minor coordinate at pass `i`. */
  lemma PassCellsAt(vertical: bool, a0: int, b0: int, run: int, rise: int, s: int, i: nat)
    requires 0 <= run && i <= run
    ensures |PassCells(vertical, a0, b0, run, rise, s)| == run + 1
    ensures PassCells(vertical, a0, b0, run, rise, s)[i] == PassCell(vertical, a0 + i, b0 + Offset(MidpointAt(run, rise, i).offset, s))
  {
    RunPrefixAt(a0, b0, run, rise, s, run + 1, i);
    if vertical {
      TransposeAt(RunPrefix(a0, b0, run, rise, s, run + 1));
    }
  }

  /** An attempt at a suffix starts with the suffix's first cell, unless that cell's row throws. */
  lemma AttemptFrom(cells: seq<Cell>, i: nat, n: int)
    requires i < |cells|
    ensures Attempt(cells[i..], n) ==
      if !(0 <= cells[i].y < n) then Walk([], false)
      else Walk([cells[i]] + Attempt(cells[i + 1..], n).cells, Attempt(cells[i + 1..], n).completed)
  {
    assert cells[i..][1..] == cells[i + 1..];
  }

  /**
   * From pass `i` on, with the minor coordinate and decision the midpoint
   * walk has at pass `i`, the loop toggles what an attempt at the rest of
   * the walk's cells toggles.
   */
  lemma {:induction false} PassesFollowWalk(vertical: bool, a0: int, b0: int, run: int, rise: int, s: int, i: nat, b: int, D: int, n: int)
    requires s == 1 || s == -1
    requires 0 <= run && i <= run + 1
    requires b == b0 + Offset(MidpointAt(run, rise, i).offset, s) && D == MidpointAt(run, rise, i).decision
    ensures Passes(vertical, a0, run, rise, s, i, b, D, n) == Attempt(PassCells(vertical, a0, b0, run, rise, s)[i..], n)
    decreases run + 1 - i
  {
    var cells := PassCells(vertical, a0, b0, run, rise, s);
    if i <= run {
      PassCellsAt(vertical, a0, b0, run, rise, s, i);
      var b1, D1 := b + (if D >= 0 then s else 0), (if D >= 0 then D - 2 * run else D) + 2 * rise;
      MidpointNext(run, rise, i, b - b0, s, D);
      PassesFollowWalk(vertical, a0, b0, run, rise, s, i + 1, b1, D1, n);
      AttemptFrom(cells, i, n);
      PassesUnfold(vertical, a0, run, rise, s, i, b, D, b1, D1, n);
    } else {
      PassCellsAt(vertical, a0, b0, run, rise, s, 0);
      assert cells[i..] == [];
    }
  }

  /** The loop of `drawLineHorizontal` toggles what an attempt at `HorizontalCells` toggles. */
  lemma HorizontalPassesWalk(x0: int, y0: int, x1: int, y1: int, xa: int, ya: int, run: int, rise: int, yi: int, n: int)
    requires if x0 > x1 then xa == x1 && ya == y1 else xa == x0 && ya == y0
    requires run == Abs(x1 - x0) && rise == Abs(y1 - y0)
    requires yi == if (if x0 > x1 then y0 - y1 else y1 - y0) < 0 then -1 else 1
    ensures Passes(false, xa, run, rise, yi, 0, ya, 2 * rise - run, n) == Attempt(HorizontalCells(x0, y0, x1, y1), n)
  {
    HorizontalCellsRun(x0, y0, x1, y1, xa, ya, run, rise, yi);
    var cells := PassCells(false, xa, ya, run, rise, yi);
    assert cells == HorizontalCells(x0, y0, x1, y1);
    assert cells[0..] == cells;
    PassesFollowWalk(false, xa, ya, run, rise, yi, 0, ya, 2 * rise - run, n);
  }

  /** The loop of `drawLineVertical` toggles what an attempt at `VerticalCells` toggles. */
  lemma VerticalPassesWalk(x0: int, y0: int, x1: int, y1: int, xa: int, ya: int, run: int, rise: int, xi: int, n: int)
    requires if y0 > y1 then xa == x1 && ya == y1 else xa == x0 && ya == y0
    requires run == Abs(y1 - y0) && rise == Abs(x1 - x0)
    requires xi == if (if y0 > y1 then x0 - x1 else x1 - x0) < 0 then -1 else 1
    ensures Passes(true, ya, run, rise, xi, 0, xa, 2 * rise - run, n) == Attempt(VerticalCells(x0, y0, x1, y1), n)
  {
    HorizontalCellsRun(y0, x0, y1, x1, ya, xa, run, rise, xi);
    var cells := PassCells(true, ya, xa, run, rise, xi);
    assert cells == VerticalCells(x0, y0, x1, y1);
    assert cells[0..] == cells;
    PassesFollowWalk(true, ya, xa, run, rise, xi, 0, xa, 2 * rise - run, n);
  }
}
