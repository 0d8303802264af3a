/**
  The `Universe` struct of src/lib.rs: a toroidal Game of Life grid whose
  cells live in a fixed-length, row-major bit buffer that its methods update
  in place. The meaning of every update is given by the snapshot functions of
  module Life, applied to GetCells().
*/
module Engine {
  import opened Life

  /** Dimensions of the universe that `new` creates. */
  const DEFAULT_WIDTH: u32 := 120
  const DEFAULT_HEIGHT: u32 := 120

  class Universe {
    /** Number of bits in the buffer: set by `new` and never written again,
        not even when the width or height changes. */
    const size: nat
    var width: u32
    var height: u32
    /** The FixedBitSet: bit `Index(width, row, column)` is cell (row, column). */
    var cells: array<bool>

    /** The buffer holds `size` bits (a usize on wasm32) and the grid fits in it. */
    ghost predicate Valid()
      reads this
    {
      && cells.Length == size
      && size < 0x1_0000_0000
      && Fits(width, height, size)
    }

    /** get_cells: the current contents of the bit buffer. */
    function GetCells(): (view: seq<bool>)
      reads this, cells
      ensures |view| == cells.Length
      ensures forall i :: 0 <= i < |view| ==> view[i] == cells[i]
    {
      cells[..]
    }

    /** width(): the current number of columns. */
    function Width(): (w: u32)
      reads this
      requires Valid()
      ensures w == width && Fits(w, height, size)
    {
      width
    }

    /** height(): the current number of rows. */
    function Height(): (h: u32)
      reads this
      requires Valid()
      ensures h == height && Fits(width, h, size)
    {
      height
    }

    /** new: a 120 x 120 universe whose i-th cell is the i-th draw of the
        random source. */
    constructor (draw: nat -> bool)
      ensures Valid() && fresh(cells)
      ensures width == DEFAULT_WIDTH && height == DEFAULT_HEIGHT
      ensures size == DEFAULT_WIDTH * DEFAULT_HEIGHT
      ensures forall i :: 0 <= i < size ==> cells[i] == draw(i)
    {
      width := DEFAULT_WIDTH;
      height := DEFAULT_HEIGHT;
      size := DEFAULT_WIDTH * DEFAULT_HEIGHT;
      var bits := new bool[DEFAULT_WIDTH * DEFAULT_HEIGHT];
      for i := 0 to DEFAULT_WIDTH * DEFAULT_HEIGHT
        invariant forall j :: 0 <= j < i ==> bits[j] == draw(j)
      {
        bits[i] := draw(i);
      }
      cells := bits;
    }

    /** set_alive: the cell at the wrapped coordinates (row mod height,
        column mod width) becomes alive; no other cell changes. */
    method SetAlive(row: u32, column: u32)
      requires Valid()
      modifies cells
      ensures Valid()
      ensures Index(width, row % height, column % width) < size
      ensures GetCells() == old(GetCells())[Index(width, row % height, column % width) := true]
    {
      WrappedIndexInGrid(width, height, row, column);
      var idx := Index(width, row % Height(), column % Width());
      cells[idx] := true;
    }

    /** clear: every bit of the buffer, in order, is set dead. */
    method Clear()
      requires Valid()
      modifies cells
      ensures Valid() && AllDead(GetCells())
    {
      for i := 0 to size
        invariant forall j :: 0 <= j < i ==> !cells[j]
      {
        cells[i] := false;
      }
    }

    /** reset: every bit of the buffer, in order, takes the next draw of the
        random source. */
    method Reset(draw: nat -> bool)
      requires Valid()
      modifies cells
      ensures Valid()
      ensures forall i :: 0 <= i < size ==> cells[i] == draw(i)
    {
      for i := 0 to size
        invariant forall j :: 0 <= j < i ==> cells[j] == draw(j)
      {
        cells[i] := draw(i);
      }
    }

    /** FixedBitSet::clear: every bit of the buffer becomes dead. */
    method WipeBits()
      modifies cells
      ensures AllDead(cells[..])
    {
      forall i | 0 <= i < cells.Length {
        cells[i] := false;
      }
    }

    /** set_width: stores the new width and wipes every cell; the buffer and
        its size stay as they were. */
    method SetWidth(newWidth: u32)
      requires Valid() && Fits(newWidth, height, size)
      modifies this, cells
      ensures Valid() && cells == old(cells)
      ensures width == newWidth && height == old(height)
      ensures AllDead(GetCells())
    {
      width := newWidth;
      WipeBits();
    }

    /** set_height: stores the new height and wipes every cell; the buffer and
        its size stay as they were. */
    method SetHeight(newHeight: u32)
      requires Valid() && Fits(width, newHeight, size)
      modifies this, cells
      ensures Valid() && cells == old(cells)
      ensures height == newHeight && width == old(width)
      ensures AllDead(GetCells())
    {
      height := newHeight;
      WipeBits();
    }

    /** toggle_cell: the cell at get_index(row, column), which must be inside
        the buffer, flips; no other cell changes. */
    method ToggleCell(row: u32, column: u32)
      requires Valid() && Index(width, row, column) < size
      modifies cells
      ensures Valid()
      ensures GetCells() == Toggle(old(GetCells()), Index(width, row, column))
    {
      var idx := Index(width, row, column);
      cells[idx] := !cells[idx];
    }

    /** set_cells: the cell at get_index of each listed pair, which must be
        inside the buffer, becomes alive, in list order. */
    method SetCells(coords: seq<(u32, u32)>)
      requires Valid()
      requires forall k :: 0 <= k < |coords| ==> Index(width, coords[k].0, coords[k].1) < size
      modifies cells
      ensures Valid()
      ensures GetCells() == MarkAlive(old(GetCells()), width, coords)
    {
      for k := 0 to |coords|
        invariant cells[..] == MarkAlive(old(cells[..]), width, coords[..k])
      {
        var (row, column) := coords[k];
        cells[Index(width, row, column)] := true;
        assert coords[..k + 1][..k] == coords[..k];
      }
      assert coords[..|coords|] == coords;
    }

    /** The body of tick's inner loop: the state cell (row, column) takes in
        the next generation, computed from the cell and its live-neighbour
        count in the current buffer, and the position it is written to. */
    method NextState(row: u32, column: u32) returns (idx: nat, alive: bool)
      requires Valid() && row < height && column < width
      ensures idx == Index(width, row, column) && idx < width * height
      ensures alive == NextGeneration(GetCells(), width, height)[idx]
    {
      IndexInGrid(width, height, row, column);
      idx := Index(width, row, column);
      var cell := cells[idx];
      var liveNeighbours := LiveNeighbourCount(cells[..], width, height, row, column);
      alive := Rule(cell, liveNeighbours);
      NextGenerationAt(cells[..], width, height, row, column);
    }

    /** One pass of tick's outer loop: the inner loop over the columns of
        `row` writes each cell's next state, computed from the unchanged
        buffer, into the clone `next`, extending its written prefix by a row. */
    method NextRowInto(next: array<bool>, row: u32)
      requires Valid() && row < height && next != cells && next.Length == size
      requires next[..] == Written(NextGeneration(GetCells(), width, height), GetCells(), Index(width, row, 0))
      modifies next
      ensures Index(width, row + 1, 0) <= width * height
      ensures next[..] == Written(NextGeneration(GetCells(), width, height), GetCells(), Index(width, row + 1, 0))
    {
      MulMonotone(row + 1, height, width);
      ghost var current := GetCells();
      ghost var target := NextGeneration(current, width, height);
      for column := 0 to width
        invariant next[..] == Written(target, current, Index(width, row, column))
      {
        var idx, alive := NextState(row, column);
        WrittenCell(current, width, height, row, column, next[..], alive);
        next[idx] := alive;
      }
      assert Index(width, row, width) == Index(width, row + 1, 0);
    }

    /** tick: clones the buffer into `next`, writes into `next` the rule
        applied to each in-grid cell's state and neighbour count read from the
        unchanged `cells`, then makes `next` the buffer. */
    method Tick()
      requires Valid()
      modifies this
      ensures Valid() && fresh(cells)
      ensures width == old(width) && height == old(height)
      ensures GetCells() == NextGeneration(old(GetCells()), width, height)
    {
      ghost var current := cells[..];
      ghost var target := NextGeneration(current, width, height);
      var next := new bool[size];
      forall i | 0 <= i < size {
        next[i] := cells[i];
      }
      WrittenEnds(target, current);
      assert next[..] == Written(target, current, 0);
      for row := 0 to height
        modifies next
        invariant cells[..] == current
        invariant Index(width, row, 0) <= width * height
        invariant next[..] == Written(target, current, Index(width, row, 0))
      {
        NextRowInto(next, row);
      }
      WrittenGrid(current, width, height);
      cells := next;
    }

    /** render: the text Display::fmt prints for the current universe. */
    function Render(): (text: string)
      reads this, cells
      requires Valid()
      ensures |text| == height * (width + 1)
    {
      Display(cells[..], width, height)
    }
  }
}
