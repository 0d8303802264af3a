/**
  The Game of Life universe of src/lib.rs seen as a snapshot: a row-major
  sequence of cells (true = alive) together with the width and height of the
  toroidal grid stored in it. Everything here is a pure function of such a
  snapshot: cell indexing, the neighbour count, the survival/birth rule, one
  generation, the bulk "mark alive" edit and the text rendering.
*/
module Life {

  /** Rust's `u32`, the type of the universe's dimensions and coordinates. */
  type u32 = x: int | 0 <= x < 0x1_0000_0000

  /** Glyph printed for a dead cell (U+25FB WHITE MEDIUM SQUARE). */
  const DEAD_GLYPH: char := '\U{25FB}'
  /** Glyph printed for a live cell (U+25FC BLACK MEDIUM SQUARE). */
  const ALIVE_GLYPH: char := '\U{25FC}'

  /** A buffer of `size` bits has room for a non-empty `width` x `height` grid. */
  predicate Fits(width: nat, height: nat, size: nat) {
    0 < width && 0 < height && width * height <= size
  }

  /** A snapshot that holds a whole `width` x `height` grid. */
  predicate Shaped(cells: seq<bool>, width: nat, height: nat) {
    Fits(width, height, |cells|)
  }

  /** No cell of the snapshot is alive. */
  predicate AllDead(cells: seq<bool>) {
    forall i :: 0 <= i < |cells| ==> !cells[i]
  }

  // ---------------------------------------------------------------------------
  // Indexing

  /** get_index: position of (row, column) in the row-major buffer. */
  function Index(width: nat, row: nat, column: nat): nat {
    row * width + column
  }

  /** In-grid coordinates land inside the grid area. */
  lemma IndexInGrid(width: nat, height: nat, row: nat, column: nat)
    requires row < height && column < width
    ensures Index(width, row, column) < width * height
  {
    MulMonotone(row + 1, height, width);
  }

  /** get_index is row-major: the row and column of an in-grid cell are
      recovered from its index by division and remainder. */
  lemma IndexRowMajor(width: nat, height: nat, row: nat, column: nat)
    requires row < height && column < width
    ensures Index(width, row, column) / width == row
    ensures Index(width, row, column) % width == column
  {
    DivModUnique(Index(width, row, column), width, row, column);
  }

  /** Row `row + 1` starts `width` positions after row `row`. */
  lemma NextRowStart(width: nat, row: nat)
    ensures Index(width, row + 1, 0) == Index(width, row, 0) + width
  {
  }

  /** Multiplication by a natural number is monotonic. */
  lemma MulMonotone(a: nat, b: nat, c: nat)
    requires a <= b
    ensures a * c <= b * c
  {
  }

  /** Euclidean division has a unique quotient and remainder. */
  lemma DivModUnique(x: int, d: int, q: int, r: int)
    requires 0 < d && 0 <= r < d && x == q * d + r
    ensures x / d == q && x % d == r
  {
    var q', r' := x / d, x % d;
    assert x == q' * d + r';
    assert (q - q') * d == r' - r;
    if q' < q {
      MulMonotone(1, q - q', d);
    } else if q' > q {
      MulMonotone(1, q' - q, d);
    }
  }

  /** Every position of the grid area is the index of one in-grid cell. */
  lemma IndexOfPosition(width: nat, height: nat, i: nat)
    requires 0 < width && i < width * height
    ensures 0 <= i / width < height && i % width < width
    ensures Index(width, i / width, i % width) == i
  {
    var row := i / width;
    assert row * width + i % width == i;
    if row >= height {
      MulMonotone(height, row, width);
    }
  }

  /** The wrapped coordinates used by set_alive always address a cell of the
      grid, whatever the row and column passed in. */
  lemma WrappedIndexInGrid(width: nat, height: nat, row: nat, column: nat)
    requires 0 < width && 0 < height
    ensures Index(width, row % height, column % width) < width * height
  {
    IndexInGrid(width, height, row % height, column % width);
  }

  /** The state of the cell at (row, column). */
  function CellAt(cells: seq<bool>, width: nat, height: nat, row: nat, column: nat): bool
    requires Shaped(cells, width, height) && row < height && column < width
  {
    IndexInGrid(width, height, row, column);
    cells[Index(width, row, column)]
  }

  // ---------------------------------------------------------------------------
  // Neighbour count

  /** The `cell as u8` conversion: 1 for a live cell, 0 for a dead one. */
  function Bit(alive: bool): nat {
    if alive then 1 else 0
  }

  /** live_neighbor_count: the eight neighbours are found by stepping one row or
      column and wrapping by hand at 0 and at height-1 / width-1. */
  function LiveNeighbourCount(cells: seq<bool>, width: nat, height: nat, row: nat, column: nat): (count: nat)
    requires Shaped(cells, width, height) && row < height && column < width
    ensures count <= 8
  {
    var north := if row == 0 then height - 1 else row - 1;
    var south := if row == height - 1 then 0 else row + 1;
    var west := if column == 0 then width - 1 else column - 1;
    var east := if column == width - 1 then 0 else column + 1;
    Bit(CellAt(cells, width, height, north, west))
    + Bit(CellAt(cells, width, height, north, column))
    + Bit(CellAt(cells, width, height, north, east))
    + Bit(CellAt(cells, width, height, row, west))
    + Bit(CellAt(cells, width, height, row, east))
    + Bit(CellAt(cells, width, height, south, west))
    + Bit(CellAt(cells, width, height, south, column))
    + Bit(CellAt(cells, width, height, south, east))
  }

  /** The eight (row, column) offsets of a cell's neighbours, NW first, SE last. */
  const NEIGHBOUR_OFFSETS: seq<(int, int)> :=
    [(-1, -1), (-1, 0), (-1, 1), (0, -1), (0, 1), (1, -1), (1, 0), (1, 1)]

  /** Coordinate `x` taken round a torus of circumference `n`. */
  function Wrap(x: int, n: nat): (w: nat)
    requires 0 < n
    ensures w < n
  {
    x % n
  }

  /** Whether the neighbour of (row, column) at `offset` is alive, both
      coordinates wrapped modulo the grid's dimensions. */
  function NeighbourAlive(cells: seq<bool>, width: nat, height: nat, row: nat, column: nat,
                          offset: (int, int)): bool
    requires Shaped(cells, width, height) && row < height && column < width
  {
    CellAt(cells, width, height, Wrap(row + offset.0, height), Wrap(column + offset.1, width))
  }

  /** Reference count: the live cells among the given offsets from (row, column). */
  function CountAlive(cells: seq<bool>, width: nat, height: nat, row: nat, column: nat,
                      offsets: seq<(int, int)>): (count: nat)
    requires Shaped(cells, width, height) && row < height && column < width
    ensures count <= |offsets|
  {
    if offsets == [] then 0
    else Bit(NeighbourAlive(cells, width, height, row, column, offsets[0]))
         + CountAlive(cells, width, height, row, column, offsets[1..])
  }

  /** CountAlive over a suffix of the offsets, unfolded once. */
  lemma CountAliveFrom(cells: seq<bool>, width: nat, height: nat, row: nat, column: nat,
                       offsets: seq<(int, int)>, k: nat)
    requires Shaped(cells, width, height) && row < height && column < width
    requires k < |offsets|
    ensures CountAlive(cells, width, height, row, column, offsets[k..])
         == Bit(NeighbourAlive(cells, width, height, row, column, offsets[k]))
            + CountAlive(cells, width, height, row, column, offsets[k + 1..])
  {
    assert offsets[k..][1..] == offsets[k + 1..];
  }

  /** One step down from `x` on a torus of circumference `n`. */
  lemma WrapBelow(x: nat, n: nat)
    requires x < n
    ensures Wrap(x - 1, n) == if x == 0 then n - 1 else x - 1
  {
    if x == 0 {
      DivModUnique(-1, n, -1, n - 1);
    } else {
      DivModUnique(x - 1, n, 0, x - 1);
    }
  }

  /** One step up from `x` on a torus of circumference `n`. */
  lemma WrapAbove(x: nat, n: nat)
    requires x < n
    ensures Wrap(x + 1, n) == if x == n - 1 then 0 else x + 1
  {
    if x == n - 1 {
      DivModUnique(x + 1, n, 1, 0);
    } else {
      DivModUnique(x + 1, n, 0, x + 1);
    }
  }

  /** The reference count over eight offsets, unfolded into its eight terms. */
  lemma {:induction false} CountAliveUnrolled(cells: seq<bool>, width: nat, height: nat, row: nat, column: nat,
                                              o: seq<(int, int)>)
    requires Shaped(cells, width, height) && row < height && column < width
    requires |o| == 8
    ensures CountAlive(cells, width, height, row, column, o) ==
              Bit(NeighbourAlive(cells, width, height, row, column, o[0])) +
              Bit(NeighbourAlive(cells, width, height, row, column, o[1])) +
              Bit(NeighbourAlive(cells, width, height, row, column, o[2])) +
              Bit(NeighbourAlive(cells, width, height, row, column, o[3])) +
              Bit(NeighbourAlive(cells, width, height, row, column, o[4])) +
              Bit(NeighbourAlive(cells, width, height, row, column, o[5])) +
              Bit(NeighbourAlive(cells, width, height, row, column, o[6])) +
              Bit(NeighbourAlive(cells, width, height, row, column, o[7]))
  {
    assert o[0..] == o && o[8..] == [];
    CountAliveFrom(cells, width, height, row, column, o, 0);
    CountAliveFrom(cells, width, height, row, column, o, 1);
    CountAliveFrom(cells, width, height, row, column, o, 2);
    CountAliveFrom(cells, width, height, row, column, o, 3);
    CountAliveFrom(cells, width, height, row, column, o, 4);
    CountAliveFrom(cells, width, height, row, column, o, 5);
    CountAliveFrom(cells, width, height, row, column, o, 6);
    CountAliveFrom(cells, width, height, row, column, o, 7);
  }

  /** Each of the eight hand-wrapped reads of live_neighbor_count is the
      neighbour at the matching offset taken modulo the grid's dimensions. */
  lemma {:induction false} NeighbourCountByOffsets(cells: seq<bool>, width: nat, height: nat, row: nat, column: nat)
    requires Shaped(cells, width, height) && row < height && column < width
    ensures LiveNeighbourCount(cells, width, height, row, column) ==
              Bit(NeighbourAlive(cells, width, height, row, column, (-1, -1))) +
              Bit(NeighbourAlive(cells, width, height, row, column, (-1, 0))) +
              Bit(NeighbourAlive(cells, width, height, row, column, (-1, 1))) +
              Bit(NeighbourAlive(cells, width, height, row, column, (0, -1))) +
              Bit(NeighbourAlive(cells, width, height, row, column, (0, 1))) +
              Bit(NeighbourAlive(cells, width, height, row, column, (1, -1))) +
              Bit(NeighbourAlive(cells, width, height, row, column, (1, 0))) +
              Bit(NeighbourAlive(cells, width, height, row, column, (1, 1)))
  {
    HandWrappedCount(cells, width, height, row, column);
    NeighbourRowAt(cells, width, height, row, column, -1);
    NeighbourRowAt(cells, width, height, row, column, 0);
    NeighbourRowAt(cells, width, height, row, column, 1);
  }

  /** live_neighbor_count reads the hand-wrapped rows and columns. */
  lemma HandWrappedCount(cells: seq<bool>, width: nat, height: nat, row: nat, column: nat)
    requires Shaped(cells, width, height) && row < height && column < width
    ensures LiveNeighbourCount(cells, width, height, row, column) ==
              Bit(CellAt(cells, width, height, HandWrapped(height, row, -1), HandWrapped(width, column, -1))) +
              Bit(CellAt(cells, width, height, HandWrapped(height, row, -1), HandWrapped(width, column, 0))) +
              Bit(CellAt(cells, width, height, HandWrapped(height, row, -1), HandWrapped(width, column, 1))) +
              Bit(CellAt(cells, width, height, HandWrapped(height, row, 0), HandWrapped(width, column, -1))) +
              Bit(CellAt(cells, width, height, HandWrapped(height, row, 0), HandWrapped(width, column, 1))) +
              Bit(CellAt(cells, width, height, HandWrapped(height, row, 1), HandWrapped(width, column, -1))) +
              Bit(CellAt(cells, width, height, HandWrapped(height, row, 1), HandWrapped(width, column, 0))) +
              Bit(CellAt(cells, width, height, HandWrapped(height, row, 1), HandWrapped(width, column, 1)))
  {
  }

  /** The coordinate `d` steps from `x` (one of -1, 0, 1) that
      live_neighbor_count reads on an axis of length `n`: north/west wrap by
      hand from 0 to n - 1, south/east from n - 1 to 0. */
  function HandWrapped(n: nat, x: nat, d: int): (y: nat)
    requires x < n
    ensures y < n
  {
    if d < 0 then (if x == 0 then n - 1 else x - 1)
    else if d == 0 then x
    else (if x == n - 1 then 0 else x + 1)
  }

  /** The three neighbours in the row `dr` steps from `row` are the cells of
      the hand-wrapped row at the hand-wrapped west, same and east columns. */
  lemma NeighbourRowAt(cells: seq<bool>, width: nat, height: nat, row: nat, column: nat, dr: int)
    requires Shaped(cells, width, height) && row < height && column < width
    requires -1 <= dr <= 1
    ensures var r := HandWrapped(height, row, dr);
            && NeighbourAlive(cells, width, height, row, column, (dr, -1)) == CellAt(cells, width, height, r, HandWrapped(width, column, -1))
            && NeighbourAlive(cells, width, height, row, column, (dr, 0)) == CellAt(cells, width, height, r, HandWrapped(width, column, 0))
            && NeighbourAlive(cells, width, height, row, column, (dr, 1)) == CellAt(cells, width, height, r, HandWrapped(width, column, 1))
  {
    if dr == -1 {
      WrapBelow(row, height);
    } else if dr == 0 {
      DivModUnique(row, height, 0, row);
    } else {
      WrapAbove(row, height);
    }
    WrapBelow(column, width);
    WrapAbove(column, width);
    DivModUnique(column, width, 0, column);
  }

  /** The hand-wrapped count of live_neighbor_count is the number of live cells
      at the eight offsets taken modulo the grid's dimensions. */
  lemma NeighbourCountIsToroidal(cells: seq<bool>, width: nat, height: nat, row: nat, column: nat)
    requires Shaped(cells, width, height) && row < height && column < width
    ensures LiveNeighbourCount(cells, width, height, row, column)
         == CountAlive(cells, width, height, row, column, NEIGHBOUR_OFFSETS)
  {
    NeighbourCountByOffsets(cells, width, height, row, column);
    CountAliveUnrolled(cells, width, height, row, column, NEIGHBOUR_OFFSETS);
  }

  /** The toroidal corner case: the cell at (height-1, width-1) is the
      north-west neighbour of (0, 0), so a live cell there is counted. */
  lemma CornerIsNorthWestOfOrigin(cells: seq<bool>, width: nat, height: nat)
    requires Shaped(cells, width, height)
    requires CellAt(cells, width, height, height - 1, width - 1)
    ensures LiveNeighbourCount(cells, width, height, 0, 0) >= 1
  {
  }

  /** A snapshot with no live cell gives every cell zero live neighbours. */
  lemma DeadNeighbourhood(cells: seq<bool>, width: nat, height: nat, row: nat, column: nat)
    requires Shaped(cells, width, height) && row < height && column < width
    requires AllDead(cells)
    ensures LiveNeighbourCount(cells, width, height, row, column) == 0
  {
    HandWrappedCount(cells, width, height, row, column);
    DeadCell(cells, width, height, HandWrapped(height, row, -1), HandWrapped(width, column, -1));
    DeadCell(cells, width, height, HandWrapped(height, row, -1), HandWrapped(width, column, 0));
    DeadCell(cells, width, height, HandWrapped(height, row, -1), HandWrapped(width, column, 1));
    DeadCell(cells, width, height, HandWrapped(height, row, 0), HandWrapped(width, column, -1));
    DeadCell(cells, width, height, HandWrapped(height, row, 0), HandWrapped(width, column, 1));
    DeadCell(cells, width, height, HandWrapped(height, row, 1), HandWrapped(width, column, -1));
    DeadCell(cells, width, height, HandWrapped(height, row, 1), HandWrapped(width, column, 0));
    DeadCell(cells, width, height, HandWrapped(height, row, 1), HandWrapped(width, column, 1));
  }

  /** In a snapshot with no live cell, every in-grid cell is dead. */
  lemma DeadCell(cells: seq<bool>, width: nat, height: nat, row: nat, column: nat)
    requires Shaped(cells, width, height) && row < height && column < width
    requires AllDead(cells)
    ensures !CellAt(cells, width, height, row, column)
  {
    IndexInGrid(width, height, row, column);
  }

  // ---------------------------------------------------------------------------
  // The generation step

  /** The match in tick: the next state of a cell from its current state and
      its live-neighbour count. It is the B3/S23 rule: born with exactly three
      live neighbours, survives with two or three. */
  function Rule(alive: bool, liveNeighbours: nat): (next: bool)
    ensures next <==> liveNeighbours == 3 || (alive && liveNeighbours == 2)
  {
    if alive && (liveNeighbours < 2 || liveNeighbours > 3) then false
    else if alive && 2 <= liveNeighbours <= 3 then true
    else if !alive && liveNeighbours == 3 then true
    else alive
  }

  /** Row `row` of the next generation: each of its cells gets the rule
      applied to its state and to the number of live cells among its eight
      neighbours on the torus. */
  function NextRow(cells: seq<bool>, width: nat, height: nat, row: nat): (line: seq<bool>)
    requires Shaped(cells, width, height) && row < height
    ensures |line| == width
  {
    seq(width, column requires 0 <= column < width =>
      Rule(CellAt(cells, width, height, row, column), CountAlive(cells, width, height, row, column, NEIGHBOUR_OFFSETS)))
  }

  /** The first `rows` rows of the next generation, laid end to end. */
  function NextRows(cells: seq<bool>, width: nat, height: nat, rows: nat): (next: seq<bool>)
    requires Shaped(cells, width, height) && rows <= height
    ensures |next| == Index(width, rows, 0)
  {
    if rows == 0 then []
    else
      NextRowStart(width, rows - 1);
      NextRows(cells, width, height, rows - 1) + NextRow(cells, width, height, rows - 1)
  }

  /** One generation, all cells at once: the grid area is rebuilt row by row
      from `cells`; the buffer's tail past the grid area is carried over. */
  function NextGeneration(cells: seq<bool>, width: nat, height: nat): (next: seq<bool>)
    requires Shaped(cells, width, height)
    ensures |next| == |cells|
    ensures forall i {:trigger next[i]} :: width * height <= i < |cells| ==> next[i] == cells[i]
  {
    NextRows(cells, width, height, height) + cells[width * height..]
  }

  /** Cell (r, c) of the first `rows` rebuilt rows is column c of rebuilt row r. */
  lemma {:induction false} NextRowsAt(cells: seq<bool>, width: nat, height: nat, rows: nat, r: nat, c: nat)
    requires Shaped(cells, width, height) && rows <= height && r < rows && c < width
    ensures Index(width, r, c) < Index(width, rows, 0)
    ensures NextRows(cells, width, height, rows)[Index(width, r, c)] == NextRow(cells, width, height, r)[c]
  {
    IndexInGrid(width, rows, r, c);
    var before := NextRows(cells, width, height, rows - 1);
    NextRowStart(width, rows - 1);
    assert NextRows(cells, width, height, rows) == before + NextRow(cells, width, height, rows - 1);
    if r < rows - 1 {
      NextRowsAt(cells, width, height, rows - 1, r, c);
    } else {
      assert Index(width, r, c) == |before| + c;
    }
  }

  /** Each in-grid cell of the next generation is the rule applied to that
      cell's state and to its live-neighbour count, as live_neighbor_count
      computes it, in the previous one. */
  lemma NextGenerationAt(cells: seq<bool>, width: nat, height: nat, row: nat, column: nat)
    requires Shaped(cells, width, height) && row < height && column < width
    ensures Index(width, row, column) < |cells|
    ensures NextGeneration(cells, width, height)[Index(width, row, column)]
         == Rule(CellAt(cells, width, height, row, column), LiveNeighbourCount(cells, width, height, row, column))
  {
    NextRowsAt(cells, width, height, height, row, column);
    NeighbourCountIsToroidal(cells, width, height, row, column);
  }

  /** The clone that tick writes into, once its first `k` positions hold
      their value in `next` and the rest still hold the clone's. */
  function Written(next: seq<bool>, clone: seq<bool>, k: nat): (partial: seq<bool>)
    requires |next| == |clone| && k <= |clone|
    ensures |partial| == |clone|
    ensures forall i :: 0 <= i < k ==> partial[i] == next[i]
    ensures forall i :: k <= i < |clone| ==> partial[i] == clone[i]
  {
    next[..k] + clone[k..]
  }

  /** Writing the next value at position `k` advances the written prefix. */
  lemma WrittenStep(next: seq<bool>, clone: seq<bool>, k: nat)
    requires |next| == |clone| && k < |clone|
    ensures Written(next, clone, k)[k := next[k]] == Written(next, clone, k + 1)
  {
    var stepped := Written(next, clone, k)[k := next[k]];
    assert forall i :: 0 <= i < |clone| ==> stepped[i] == Written(next, clone, k + 1)[i];
  }

  /** Tick's inner step: writing cell (row, column)'s next state into the
      clone extends the written prefix past that cell. */
  lemma WrittenCell(cells: seq<bool>, width: nat, height: nat, row: nat, column: nat,
                    partial: seq<bool>, alive: bool)
    requires Shaped(cells, width, height) && row < height && column < width
    requires partial == Written(NextGeneration(cells, width, height), cells, Index(width, row, column))
    requires alive == NextGeneration(cells, width, height)[Index(width, row, column)]
    ensures Index(width, row, column) < |partial|
    ensures partial[Index(width, row, column) := alive]
         == Written(NextGeneration(cells, width, height), cells, Index(width, row, column + 1))
  {
    IndexInGrid(width, height, row, column);
    WrittenStep(NextGeneration(cells, width, height), cells, Index(width, row, column));
  }

  /** Nothing written yet is the clone itself; everything written is `next`. */
  lemma WrittenEnds(next: seq<bool>, clone: seq<bool>)
    requires |next| == |clone|
    ensures Written(next, clone, 0) == clone
    ensures Written(next, clone, |clone|) == next
  {
  }

  /** The next generation already agrees with the clone past the grid area,
      so writing the grid area alone completes it. */
  lemma WrittenGrid(cells: seq<bool>, width: nat, height: nat)
    requires Shaped(cells, width, height)
    ensures Written(NextGeneration(cells, width, height), cells, width * height) == NextGeneration(cells, width, height)
  {
    var next := NextGeneration(cells, width, height);
    assert forall i :: 0 <= i < |cells| ==> Written(next, cells, width * height)[i] == next[i];
  }

  /** No spontaneous life: the empty universe stays empty. */
  lemma EmptyStaysEmpty(cells: seq<bool>, width: nat, height: nat)
    requires Shaped(cells, width, height) && AllDead(cells)
    ensures NextGeneration(cells, width, height) == cells
  {
    var next := NextGeneration(cells, width, height);
    forall i | 0 <= i < |cells|
      ensures next[i] == cells[i]
    {
      if i < width * height {
        IndexOfPosition(width, height, i);
        var row, column := i / width, i % width;
        DeadNeighbourhood(cells, width, height, row, column);
        NextGenerationAt(cells, width, height, row, column);
      }
    }
  }

  // ---------------------------------------------------------------------------
  // Single-cell edit

  /** toggle_cell on a snapshot: the cell at position `i` flips. */
  function Toggle(cells: seq<bool>, i: nat): (toggled: seq<bool>)
    requires i < |cells|
    ensures |toggled| == |cells| && toggled[i] == !cells[i]
    ensures forall j :: 0 <= j < |cells| && j != i ==> toggled[j] == cells[j]
  {
    cells[i := !cells[i]]
  }

  /** Toggling the same cell twice restores the grid. */
  lemma ToggleTwice(cells: seq<bool>, i: nat)
    requires i < |cells|
    ensures Toggle(Toggle(cells, i), i) == cells
  {
  }

  // ---------------------------------------------------------------------------
  // Bulk edit

  /** set_cells on a snapshot: the cell at each listed (row, column) is set
      alive, in list order. */
  function MarkAlive(cells: seq<bool>, width: nat, coords: seq<(u32, u32)>): (marked: seq<bool>)
    requires forall k :: 0 <= k < |coords| ==> Index(width, coords[k].0, coords[k].1) < |cells|
    ensures |marked| == |cells|
  {
    if coords == [] then cells
    else
      var last := coords[|coords| - 1];
      MarkAlive(cells, width, coords[..|coords| - 1])[Index(width, last.0, last.1) := true]
  }

  /** After set_cells a cell is alive exactly when it was alive before or is
      listed; cells that are not listed keep their state. */
  lemma {:induction false} MarkAliveAt(cells: seq<bool>, width: nat, coords: seq<(u32, u32)>, i: nat)
    requires forall k :: 0 <= k < |coords| ==> Index(width, coords[k].0, coords[k].1) < |cells|
    requires i < |cells|
    ensures MarkAlive(cells, width, coords)[i]
        <==> cells[i] || exists k :: 0 <= k < |coords| && Index(width, coords[k].0, coords[k].1) == i
  {
    if coords != [] {
      var n := |coords| - 1;
      var front := coords[..n];
      MarkAliveAt(cells, width, front, i);
      if exists k :: 0 <= k < |front| && Index(width, front[k].0, front[k].1) == i {
        var k :| 0 <= k < |front| && Index(width, front[k].0, front[k].1) == i;
        assert coords[k] == front[k];
      }
      if exists k :: 0 <= k < |coords| && Index(width, coords[k].0, coords[k].1) == i {
        var k :| 0 <= k < |coords| && Index(width, coords[k].0, coords[k].1) == i;
        if k < n {
          assert front[k] == coords[k];
        }
      }
    }
  }

  /** Listing a cell again changes nothing: duplicates are idempotent. */
  lemma MarkAliveDuplicate(cells: seq<bool>, width: nat, coords: seq<(u32, u32)>, k: nat)
    requires forall j :: 0 <= j < |coords| ==> Index(width, coords[j].0, coords[j].1) < |cells|
    requires k < |coords|
    ensures MarkAlive(cells, width, coords + [coords[k]]) == MarkAlive(cells, width, coords)
  {
    var longer := coords + [coords[k]];
    assert longer[..|longer| - 1] == coords;
    MarkAliveAt(cells, width, coords, Index(width, coords[k].0, coords[k].1));
  }

  // ---------------------------------------------------------------------------
  // Text rendering

  /** The glyph Display prints for one cell. */
  function Glyph(alive: bool): (g: char)
    ensures g == ALIVE_GLYPH <==> alive
    ensures g == DEAD_GLYPH <==> !alive
  {
    if alive then ALIVE_GLYPH else DEAD_GLYPH
  }

  /** The glyphs of the first `n` columns of `row`. */
  function RowText(cells: seq<bool>, width: nat, height: nat, row: nat, n: nat): (text: string)
    requires Shaped(cells, width, height) && row < height && n <= width
    ensures |text| == n
  {
    if n == 0 then []
    else RowText(cells, width, height, row, n - 1) + [Glyph(CellAt(cells, width, height, row, n - 1))]
  }

  /** The first `rows` lines of the rendering, each row's glyphs then a newline. */
  function Lines(cells: seq<bool>, width: nat, height: nat, rows: nat): (text: string)
    requires Shaped(cells, width, height) && rows <= height
    ensures |text| == rows * (width + 1)
  {
    if rows == 0 then []
    else Lines(cells, width, height, rows - 1) + RowText(cells, width, height, rows - 1, width) + "\n"
  }

  /** Display::fmt: `height` lines of `width` glyphs each, in row-major order,
      every line ended by a newline. */
  function Display(cells: seq<bool>, width: nat, height: nat): (text: string)
    requires Shaped(cells, width, height)
    ensures |text| == height * (width + 1)
  {
    Lines(cells, width, height, height)
  }

  /** Position `column` of line `row` holds that cell's glyph; position `width`
      of the line holds its newline. */
  lemma {:induction false} LinesAt(cells: seq<bool>, width: nat, height: nat, rows: nat, row: nat, column: nat)
    requires Shaped(cells, width, height) && rows <= height
    requires row < rows && column <= width
    ensures row * (width + 1) + column < |Lines(cells, width, height, rows)|
    ensures Lines(cells, width, height, rows)[row * (width + 1) + column]
         == if column == width then '\n' else Glyph(CellAt(cells, width, height, row, column))
  {
    var before := Lines(cells, width, height, rows - 1);
    var line := RowText(cells, width, height, rows - 1, width);
    assert Lines(cells, width, height, rows) == before + line + "\n";
    assert rows * (width + 1) == |before| + width + 1;
    if row < rows - 1 {
      LinesAt(cells, width, height, rows - 1, row, column);
    } else {
      assert row * (width + 1) == |before|;
      if column < width {
        RowTextAt(cells, width, height, row, width, column);
      }
    }
  }

  /** Position `column` of a row's text is that cell's glyph. */
  lemma {:induction false} RowTextAt(cells: seq<bool>, width: nat, height: nat, row: nat, n: nat, column: nat)
    requires Shaped(cells, width, height) && row < height && n <= width && column < n
    ensures RowText(cells, width, height, row, n)[column] == Glyph(CellAt(cells, width, height, row, column))
  {
    if column < n - 1 {
      RowTextAt(cells, width, height, row, n - 1, column);
    }
  }

  /** The rendering's layout: character `row * (width + 1) + column` is the
      glyph of cell (row, column), and each line ends in a newline. */
  lemma DisplayAt(cells: seq<bool>, width: nat, height: nat, row: nat, column: nat)
    requires Shaped(cells, width, height) && row < height && column <= width
    ensures row * (width + 1) + column < |Display(cells, width, height)|
    ensures Display(cells, width, height)[row * (width + 1) + column]
         == if column == width then '\n' else Glyph(CellAt(cells, width, height, row, column))
  {
    LinesAt(cells, width, height, height, row, column);
  }

  /** Rendering an empty universe prints nothing but dead glyphs and newlines. */
  lemma {:induction false} DisplayOfEmpty(cells: seq<bool>, width: nat, height: nat, rows: nat)
    requires Shaped(cells, width, height) && AllDead(cells) && rows <= height
    ensures forall c :: c in Lines(cells, width, height, rows) ==> c == DEAD_GLYPH || c == '\n'
  {
    if rows > 0 {
      DisplayOfEmpty(cells, width, height, rows - 1);
      DeadRow(cells, width, height, rows - 1, width);
    }
  }

  /** Every glyph of a row of an empty universe is the dead glyph. */
  lemma {:induction false} DeadRow(cells: seq<bool>, width: nat, height: nat, row: nat, n: nat)
    requires Shaped(cells, width, height) && AllDead(cells) && row < height && n <= width
    ensures forall c :: c in RowText(cells, width, height, row, n) ==> c == DEAD_GLYPH
  {
    if n > 0 {
      DeadRow(cells, width, height, row, n - 1);
      DeadCell(cells, width, height, row, n - 1);
    }
  }
}
