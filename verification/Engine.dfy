/**
 * The `GameOfLife` class of script.js: the grid and the cells painted on the
 * page's canvas. Pixel geometry is abstracted away: the canvas is one colour
 * per cell, true for ALIVE_COLOR and false for DEAD_COLOR, and `drawCell`
 * writes that colour.
 */
module Engine {
  import opened Grid
  import opened Rule

  /**
   * The canvas a diff repaint leaves: cells whose value differs between
   * `before` and `after` get the colour of their new value, every other cell
   * keeps the colour it had.
   */
  function DiffRepaint(canvas: seq<seq<bool>>, before: seq<seq<int>>, after: seq<seq<int>>): (r: seq<seq<bool>>)
    requires SameShape(canvas, after) && SameShape(before, after)
    ensures SameShape(r, after)
    ensures forall y, x :: 0 <= y < |after| && 0 <= x < |after[y]| ==>
              r[y][x] == if after[y][x] != before[y][x] then after[y][x] != 0 else canvas[y][x]
  {
    seq(|after|, y requires 0 <= y < |after| =>
      seq(|after[y]|, x requires 0 <= x < |after[y]| =>
        if after[y][x] != before[y][x] then after[y][x] != 0 else canvas[y][x]))
  }

  /**
   * A diff repaint of a canvas that showed the previous grid is
   * indistinguishable from a full redraw of the new grid.
   */
  lemma DiffRepaintIsFullRedraw(canvas: seq<seq<bool>>, before: seq<seq<int>>, after: seq<seq<int>>)
    requires SameShape(before, after) && canvas == Shade(before)
    ensures DiffRepaint(canvas, before, after) == Shade(after)
  {
    ShadeAt(before);
    ShadeAt(after);
    GridExt(DiffRepaint(canvas, before, after), Shade(after));
  }

  class GameOfLife {
    /** The side length of the grid, `array.length` when the object was built. */
    const arraySize: nat
    /** The grid (`this.array` in script.js), `grid[y][x]` being 1 for a live cell and 0 for a dead one. */
    var grid: seq<seq<int>>
    /** The colour each cell shows on the canvas. */
    var canvas: seq<seq<bool>>

    ghost predicate Valid()
      reads this
    {
      IsGrid(grid, arraySize) && Binary(grid) && IsGrid(canvas, arraySize)
    }

    /** The canvas shows exactly the grid. */
    ghost predicate Mirrors()
      reads this
    {
      canvas == Shade(grid)
    }

    /**
     * `new GameOfLife(array)`: keeps the grid and draws every cell on a canvas
     * that was just cleared (modelled as all dead-coloured).
     */
    constructor (init: seq<seq<int>>)
      requires IsGrid(init, |init|) && Binary(init)
      ensures Valid() && Mirrors()
      ensures grid == init && arraySize == |init|
    {
      grid := init;
      arraySize := |init|;
      canvas := seq(|init|, _ => seq(|init|, _ => false));
      new;
      Draw();
    }

    /** `draw`: paints every cell with the colour of its value. */
    method Draw()
      requires Valid()
      modifies this
      ensures Valid() && grid == old(grid)
      ensures Mirrors()
    {
      for y := 0 to arraySize
        invariant Valid() && grid == old(grid)
        invariant forall j, i :: 0 <= j < y && 0 <= i < arraySize ==> canvas[j][i] == (grid[j][i] != 0)
      {
        for x := 0 to arraySize
          invariant Valid() && grid == old(grid)
          invariant forall j, i :: 0 <= j < y && 0 <= i < arraySize ==> canvas[j][i] == (grid[j][i] != 0)
          invariant forall i :: 0 <= i < x ==> canvas[y][i] == (grid[y][i] != 0)
        {
          canvas := Write(canvas, Cell(x, y), grid[y][x] != 0);
        }
      }
      ShadeAt(grid);
      GridExt(canvas, Shade(grid));
    }

    /** `drawChanged(oldArray)`: repaints only the cells whose value differs from `oldArray`. */
    method DrawChanged(oldArray: seq<seq<int>>)
      requires Valid() && IsGrid(oldArray, arraySize)
      modifies this
      ensures Valid() && grid == old(grid)
      ensures canvas == DiffRepaint(old(canvas), oldArray, grid)
    {
      for y := 0 to arraySize
        invariant Valid() && grid == old(grid)
        invariant forall j, i :: 0 <= j < arraySize && 0 <= i < arraySize ==>
                    canvas[j][i] == if j < y && grid[j][i] != oldArray[j][i] then grid[j][i] != 0 else old(canvas)[j][i]
      {
        for x := 0 to arraySize
          invariant Valid() && grid == old(grid)
          invariant forall j, i :: 0 <= j < arraySize && 0 <= i < arraySize ==>
                      canvas[j][i] == if (j < y || (j == y && i < x)) && grid[j][i] != oldArray[j][i]
                                      then grid[j][i] != 0 else old(canvas)[j][i]
        {
          if grid[y][x] != oldArray[y][x] {
            canvas := Write(canvas, Cell(x, y), grid[y][x] != 0);
          }
        }
      }
      GridExt(canvas, DiffRepaint(old(canvas), oldArray, grid));
    }

    /**
     * `iterate`: replaces the grid with the kernel's output, computed from
     * the previous grid only, then repaints the cells that changed.
     */
    method Iterate()
      requires Valid()
      modifies this
      ensures Valid()
      ensures grid == Successor(old(grid))
      ensures canvas == DiffRepaint(old(canvas), old(grid), grid)
      ensures old(Mirrors()) ==> Mirrors()
    {
      var oldArray := grid;
      grid := RunKernel(grid);
      DrawChanged(oldArray);
      if old(Mirrors()) {
        DiffRepaintIsFullRedraw(old(canvas), oldArray, grid);
      }
    }

    /**
     * `toggleCell(x, y)`: sets the cell to `drawOrErase ? 1 : 0` (it does not
     * flip it) and paints it with colour `drawOrErase`. When row `y` does not
     * exist, `array[y]` is undefined and the write throws: `ok` is false and
     * nothing changes. A column outside the grid changes no cell of it.
     */
    method ToggleCell(x: int, y: int, drawOrErase: bool) returns (ok: bool)
      requires Valid()
      modifies this
      ensures Valid()
      ensures ok <==> 0 <= y < arraySize
      ensures !ok ==> grid == old(grid) && canvas == old(canvas)
      ensures grid == Write(old(grid), Cell(x, y), Bit(drawOrErase))
      ensures canvas == Write(old(canvas), Cell(x, y), drawOrErase)
    {
      if !(0 <= y < arraySize) {
        return false;
      }
      ok := true;
      grid := Write(grid, Cell(x, y), Bit(drawOrErase));
      canvas := Write(canvas, Cell(x, y), drawOrErase);
    }
  }

  /** Setting a cell twice from the same draw mode is the same as setting it once. */
  lemma ToggleTwice(g: seq<seq<int>>, c: Cell, drawOrErase: bool)
    ensures Write(Write(g, c, Bit(drawOrErase)), c, Bit(drawOrErase)) == Write(g, c, Bit(drawOrErase))
  {
    GridExt(Write(Write(g, c, Bit(drawOrErase)), c, Bit(drawOrErase)), Write(g, c, Bit(drawOrErase)));
  }
}
