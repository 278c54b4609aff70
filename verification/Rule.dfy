/**
 * The next-generation rule of script.js's GPU kernel (Conway's B3/S23 on a
 * torus). The GPU evaluates the kernel once per cell of an output grid of the
 * same size; here that dispatch is a plain sequential scan that reads only
 * the previous grid and builds a fresh one.
 */
module Rule {
  import opened Grid

  /** The index one step around the torus from `i` in direction `d` (-1, 0 or 1). */
  function Shift(i: int, d: int, n: int): (r: int)
    requires 0 <= i < n && -1 <= d <= 1
    ensures 0 <= r < n
  {
    if d == -1 then (if i == 0 then n - 1 else i - 1)
    else if d == 1 then (if i == n - 1 then 0 else i + 1)
    else i
  }

  /**
   * Reference count: the live cells among the eight neighbours of (x, y),
   * the row above the top row being the bottom row and the column left of
   * the first column the last one.
   */
  function LiveNeighbours(g: seq<seq<int>>, x: int, y: int): (s: int)
    requires IsGrid(g, |g|) && 0 <= x < |g| && 0 <= y < |g|
    ensures Binary(g) ==> 0 <= s <= 8
  {
    var n := |g|;
    var up, down, left, right := Shift(y, -1, n), Shift(y, 1, n), Shift(x, -1, n), Shift(x, 1, n);
    g[up][left] + g[up][x] + g[up][right] +
    g[y][left] + g[y][right] +
    g[down][left] + g[down][x] + g[down][right]
  }

  /** The value of (x, y) in the next generation. */
  function NextState(g: seq<seq<int>>, x: int, y: int): (r: int)
    requires IsGrid(g, |g|) && 0 <= x < |g| && 0 <= y < |g|
    ensures r == 0 || r == 1
  {
    var s := LiveNeighbours(g, x, y);
    if s == 3 || (g[y][x] == 1 && s == 2) then 1 else 0
  }

  /** The whole next generation, every cell computed from `g` alone. */
  function Successor(g: seq<seq<int>>): (r: seq<seq<int>>)
    requires IsGrid(g, |g|)
    ensures IsGrid(r, |g|) && Binary(r)
    ensures forall y, x :: 0 <= y < |g| && 0 <= x < |g| ==> r[y][x] == NextState(g, x, y)
  {
    seq(|g|, y requires 0 <= y < |g| => seq(|g|, x requires 0 <= x < |g| => NextState(g, x, y)))
  }

  /** The term the kernel adds for offset (dy, dx): nothing for the cell itself. */
  function Term(g: seq<seq<int>>, x: int, y: int, dy: int, dx: int): (t: int)
    requires IsGrid(g, |g|) && 0 <= x < |g| && 0 <= y < |g|
    requires -1 <= dy <= 1 && -1 <= dx <= 1
    ensures dy == 0 && dx == 0 ==> t == 0
    ensures Binary(g) ==> 0 <= t <= 1
  {
    var size := |g|;
    if dx == 0 && dy == 0 then 0 else g[(y + dy + size) % size][(x + dx + size) % size]
  }

  /**
   * The kernel's running sum when its loops reach offset (dy, dx), in the
   * loops' order: on a 0/1 grid at most one per term already added.
   */
  function SumBefore(g: seq<seq<int>>, x: int, y: int, dy: int, dx: int): (r: int)
    requires IsGrid(g, |g|) && 0 <= x < |g| && 0 <= y < |g|
    requires -1 <= dy <= 2 && -1 <= dx <= 2
    ensures Binary(g) ==> 0 <= r <= 3 * (dy + 1) + dx + 1
    decreases dy + 1, dx + 1
  {
    if dx == -1 then
      if dy == -1 then 0 else SumBefore(g, x, y, dy - 1, 2)
    else if dy == 2 then SumBefore(g, x, y, dy, -1)
    else SumBefore(g, x, y, dy, dx - 1) + Term(g, x, y, dy, dx - 1)
  }

  /** The kernel's `(i + d + size) % size` is the toroidal index. */
  lemma WrapAgrees(i: int, d: int, n: int)
    requires 0 <= i < n && -1 <= d <= 1
    ensures (i + d + n) % n == Shift(i, d, n)
  {
    if i + d < 0 {
      assert (i + d + n) % n == n - 1;
    } else if i + d == n {
      assert (i + d + n) % n == 0;
    } else {
      assert (i + d + n) % n == i + d;
    }
  }

  /** One kernel term is the neighbour at the toroidal offset (dy, dx). */
  lemma TermIsNeighbour(g: seq<seq<int>>, x: int, y: int, dy: int, dx: int)
    requires IsGrid(g, |g|) && 0 <= x < |g| && 0 <= y < |g|
    requires -1 <= dy <= 1 && -1 <= dx <= 1 && !(dy == 0 && dx == 0)
    ensures Term(g, x, y, dy, dx) == g[Shift(y, dy, |g|)][Shift(x, dx, |g|)]
  {
    WrapAgrees(y, dy, |g|);
    WrapAgrees(x, dx, |g|);
  }

  /** The kernel's nine terms, summed in loop order, are the reference count. */
  lemma {:induction false} SumBeforeAll(g: seq<seq<int>>, x: int, y: int)
    requires IsGrid(g, |g|) && 0 <= x < |g| && 0 <= y < |g|
    ensures SumBefore(g, x, y, 2, -1) == LiveNeighbours(g, x, y)
  {
    assert SumBefore(g, x, y, 0, -1) == Term(g, x, y, -1, -1) + Term(g, x, y, -1, 0) + Term(g, x, y, -1, 1);
    assert SumBefore(g, x, y, 1, -1) == SumBefore(g, x, y, 0, -1) + Term(g, x, y, 0, -1) + Term(g, x, y, 0, 1);
    assert SumBefore(g, x, y, 2, -1) == SumBefore(g, x, y, 1, -1) + Term(g, x, y, 1, -1) + Term(g, x, y, 1, 0) + Term(g, x, y, 1, 1);
    TermIsNeighbour(g, x, y, -1, -1); TermIsNeighbour(g, x, y, -1, 0); TermIsNeighbour(g, x, y, -1, 1);
    TermIsNeighbour(g, x, y, 0, -1); TermIsNeighbour(g, x, y, 0, 1);
    TermIsNeighbour(g, x, y, 1, -1); TermIsNeighbour(g, x, y, 1, 0); TermIsNeighbour(g, x, y, 1, 1);
  }

  /**
   * The kernel's neighbour loops (dy and dx from -1 to 1, skipping the cell
   * itself, indices wrapped by `(i + d + size) % size`).
   */
  method NeighbourSum(g: seq<seq<int>>, x: int, y: int) returns (sum: int)
    requires IsGrid(g, |g|) && 0 <= x < |g| && 0 <= y < |g|
    ensures sum == LiveNeighbours(g, x, y)
  {
    sum := 0;
    var size := |g|;
    for dy := -1 to 2
      invariant sum == SumBefore(g, x, y, dy, -1)
    {
      for dx := -1 to 2
        invariant sum == SumBefore(g, x, y, dy, dx)
      {
        if !(dx == 0 && dy == 0) {
          sum := sum + g[(y + dy + size) % size][(x + dx + size) % size];
        }
      }
    }
    SumBeforeAll(g, x, y);
  }

  /**
   * The kernel for one cell: 1 when the cell has exactly three live
   * neighbours, or is 1 and has exactly two; 0 otherwise.
   */
  method Kernel(g: seq<seq<int>>, x: int, y: int) returns (v: int)
    requires IsGrid(g, |g|) && 0 <= x < |g| && 0 <= y < |g|
    ensures v == 0 || v == 1
    ensures v == 1 <==> LiveNeighbours(g, x, y) == 3 || (g[y][x] == 1 && LiveNeighbours(g, x, y) == 2)
  {
    var sum := NeighbourSum(g, x, y);
    v := if sum == 3 || (g[y][x] == 1 && sum == 2) then 1 else 0;
  }

  /**
   * The kernel run over every cell of an output grid of the input's size. The
   * input is never written, so no cell sees another cell's new value.
   */
  method RunKernel(g: seq<seq<int>>) returns (next: seq<seq<int>>)
    requires IsGrid(g, |g|)
    ensures next == Successor(g)
  {
    var size := |g|;
    next := [];
    for y := 0 to size
      invariant |next| == y
      invariant forall j :: 0 <= j < y ==> next[j] == Successor(g)[j]
    {
      var row := [];
      for x := 0 to size
        invariant |row| == x
        invariant forall i :: 0 <= i < x ==> row[i] == NextState(g, i, y)
      {
        var v := Kernel(g, x, y);
        row := row + [v];
      }
      assert row == Successor(g)[y];
      next := next + [row];
    }
  }

  /** An all-dead grid (the grid right after Clear) stays all dead. */
  lemma DeadStaysDead(n: nat)
    ensures Successor(Zeros(n)) == Zeros(n)
  {
    GridExt(Successor(Zeros(n)), Zeros(n));
  }

  /** The cell at toroidal offset (dy, dx) from (x, y). */
  function Around(g: seq<seq<int>>, x: int, y: int, dy: int, dx: int): int
    requires IsGrid(g, |g|) && 0 <= x < |g| && 0 <= y < |g| && -1 <= dy <= 1 && -1 <= dx <= 1
  {
    g[Shift(y, dy, |g|)][Shift(x, dx, |g|)]
  }

  /**
   * The next value of a cell depends only on its own value and its eight
   * toroidal neighbours in the previous grid.
   */
  lemma NextStateIsLocal(g: seq<seq<int>>, h: seq<seq<int>>, x: int, y: int)
    requires IsGrid(g, |g|) && IsGrid(h, |g|) && 0 <= x < |g| && 0 <= y < |g|
    requires forall dy, dx :: -1 <= dy <= 1 && -1 <= dx <= 1 ==> Around(g, x, y, dy, dx) == Around(h, x, y, dy, dx)
    ensures Successor(g)[y][x] == Successor(h)[y][x]
  {
    assert Around(g, x, y, 0, 0) == Around(h, x, y, 0, 0);
    assert Around(g, x, y, -1, -1) == Around(h, x, y, -1, -1);
    assert Around(g, x, y, -1, 0) == Around(h, x, y, -1, 0);
    assert Around(g, x, y, -1, 1) == Around(h, x, y, -1, 1);
    assert Around(g, x, y, 0, -1) == Around(h, x, y, 0, -1);
    assert Around(g, x, y, 0, 1) == Around(h, x, y, 0, 1);
    assert Around(g, x, y, 1, -1) == Around(h, x, y, 1, -1);
    assert Around(g, x, y, 1, 0) == Around(h, x, y, 1, 0);
    assert Around(g, x, y, 1, 1) == Around(h, x, y, 1, 1);
  }
}
