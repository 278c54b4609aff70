/**
 * Cells, square grids and the writing of single cells, shared by the life
 * engine (whose grid holds 0/1 values), its canvas (which holds a colour per
 * cell) and the line rasterizer (which produces the cells to write).
 *
 * Grids are indexed row first, as `array[y][x]` is in script.js.
 */
module Grid {

  /** A cell coordinate: column `x`, row `y`. */
  datatype Cell = Cell(x: int, y: int)

  /** `g` is an `n` by `n` matrix. */
  predicate IsGrid<T>(g: seq<seq<T>>, n: nat) {
    |g| == n && forall y :: 0 <= y < n ==> |g[y]| == n
  }

  /** Every value of `g` is 0 (dead) or 1 (alive). */
  predicate Binary(g: seq<seq<int>>) {
    forall y, x :: 0 <= y < |g| && 0 <= x < |g[y]| ==> g[y][x] == 0 || g[y][x] == 1
  }

  /** Two grids of the same shape. */
  predicate SameShape<T, U>(a: seq<seq<T>>, b: seq<seq<U>>) {
    |a| == |b| && forall y :: 0 <= y < |a| ==> |a[y]| == |b[y]|
  }

  predicate InGrid<T>(g: seq<seq<T>>, c: Cell) {
    0 <= c.y < |g| && 0 <= c.x < |g[c.y]|
  }

  /** The value `drawOrErase ? 1 : 0`. */
  function Bit(b: bool): int {
    if b then 1 else 0
  }

  /** The all-dead `n` by `n` grid. */
  function Zeros(n: nat): (r: seq<seq<int>>)
    ensures IsGrid(r, n) && Binary(r)
    ensures forall y, x :: 0 <= y < n && 0 <= x < n ==> r[y][x] == 0
  {
    seq(n, _ => seq(n, _ => 0))
  }

  /**
   * The grid after writing `v` at `c`. A cell outside the grid leaves it as
   * it is (a write past the end of a row is never read back inside the grid).
   */
  function Write<T>(g: seq<seq<T>>, c: Cell, v: T): (r: seq<seq<T>>)
    ensures |r| == |g|
  {
    if InGrid(g, c) then g[c.y := g[c.y][c.x := v]] else g
  }

  /** Writing at `c` changes the cell at `c`, if it is in the grid, and no other. */
  lemma WriteAt<T>(g: seq<seq<T>>, c: Cell, v: T)
    ensures SameShape(Write(g, c, v), g)
    ensures forall y, x :: 0 <= y < |g| && 0 <= x < |g[y]| ==>
              Write(g, c, v)[y][x] == if Cell(x, y) == c then v else g[y][x]
  {
  }

  /** The grid after writing `v` at each cell of `cs`, first to last. */
  function Paint<T>(g: seq<seq<T>>, cs: seq<Cell>, v: T): (r: seq<seq<T>>)
    ensures |r| == |g|
    decreases |cs|
  {
    if cs == [] then g
    else Write(Paint(g, cs[..|cs| - 1], v), cs[|cs| - 1], v)
  }

  /** Painting `cs` sets exactly the grid's cells that occur in `cs`. */
  lemma {:induction false} PaintAt<T>(g: seq<seq<T>>, cs: seq<Cell>, v: T)
    ensures SameShape(Paint(g, cs, v), g)
    ensures forall y, x :: 0 <= y < |g| && 0 <= x < |g[y]| ==>
              Paint(g, cs, v)[y][x] == if Cell(x, y) in cs then v else g[y][x]
    decreases |cs|
  {
    if cs != [] {
      var front := cs[..|cs| - 1];
      assert cs == front + [cs[|cs| - 1]];
      PaintAt(g, front, v);
      WriteAt(Paint(g, front, v), cs[|cs| - 1], v);
    }
  }

  /** Painting one more cell is writing it after the others. */
  lemma PaintSnoc<T>(g: seq<seq<T>>, cs: seq<Cell>, c: Cell, v: T)
    ensures Paint(g, cs + [c], v) == Write(Paint(g, cs, v), c, v)
  {
    assert (cs + [c])[..|cs|] == cs;
  }

  /** Painting a cell and then others is painting them all, that cell first. */
  lemma {:induction false} PaintCons<T>(g: seq<seq<T>>, c: Cell, cs: seq<Cell>, v: T)
    ensures Paint(g, [c] + cs, v) == Paint(Write(g, c, v), cs, v)
    decreases |cs|
  {
    if cs == [] {
      assert [c] + cs == [c];
      assert Paint(g, [c], v) == Write(Paint(g, [], v), c, v);
    } else {
      var front := cs[..|cs| - 1];
      assert [c] + cs == ([c] + front) + [cs[|cs| - 1]];
      PaintSnoc(g, [c] + front, cs[|cs| - 1], v);
      PaintCons(g, c, front, v);
      assert cs == front + [cs[|cs| - 1]];
      PaintSnoc(Write(g, c, v), front, cs[|cs| - 1], v);
    }
  }

  /** Two grids of the same shape that agree on every cell are equal. */
  lemma GridExt<T>(a: seq<seq<T>>, b: seq<seq<T>>)
    requires SameShape(a, b)
    requires forall y, x :: 0 <= y < |a| && 0 <= x < |a[y]| ==> a[y][x] == b[y][x]
    ensures a == b
  {
    forall y | 0 <= y < |a|
      ensures a[y] == b[y]
    {
      assert |a[y]| == |b[y]|;
      assert forall x :: 0 <= x < |a[y]| ==> a[y][x] == b[y][x];
    }
  }

  /** Painting the same cells with the same value a second time changes nothing. */
  lemma PaintTwice<T>(g: seq<seq<T>>, cs: seq<Cell>, v: T)
    ensures Paint(Paint(g, cs, v), cs, v) == Paint(g, cs, v)
  {
    PaintAt(g, cs, v);
    PaintAt(Paint(g, cs, v), cs, v);
    GridExt(Paint(Paint(g, cs, v), cs, v), Paint(g, cs, v));
  }

  /** The colour of every cell: the canvas a full redraw of `g` leaves. */
  function Shade(g: seq<seq<int>>): (r: seq<seq<bool>>)
    ensures SameShape(r, g)
  {
    seq(|g|, y requires 0 <= y < |g| => seq(|g[y]|, x requires 0 <= x < |g[y]| => g[y][x] != 0))
  }

  /** Each cell of the redraw shows whether the grid's cell is alive. */
  lemma ShadeAt(g: seq<seq<int>>)
    ensures forall y, x :: 0 <= y < |g| && 0 <= x < |g[y]| ==> Shade(g)[y][x] == (g[y][x] != 0)
  {
  }

  /**
   * Writing `Bit(b)` into the grid and colour `b` into its canvas keeps the
   * canvas equal to a full redraw of the grid.
   */
  lemma ShadePaint(g: seq<seq<int>>, cs: seq<Cell>, b: bool)
    ensures Shade(Paint(g, cs, Bit(b))) == Paint(Shade(g), cs, b)
  {
    PaintAt(g, cs, Bit(b));
    PaintAt(Shade(g), cs, b);
    ShadeAt(g);
    ShadeAt(Paint(g, cs, Bit(b)));
    GridExt(Shade(Paint(g, cs, Bit(b))), Paint(Shade(g), cs, b));
  }

  /** Writing one cell of the grid and the same cell of its redraw keeps them in step. */
  lemma ShadeWrite(g: seq<seq<int>>, c: Cell, b: bool)
    ensures Shade(Write(g, c, Bit(b))) == Write(Shade(g), c, b)
  {
    ShadePaint(g, [c], b);
    assert Paint(g, [c], Bit(b)) == Write(g, c, Bit(b));
    assert Paint(Shade(g), [c], b) == Write(Shade(g), c, b);
  }
}
