# Game of Life universe, modelled in Dafny

This project models the `Universe` engine of a WebAssembly Game of Life
(`src/lib.rs`). The universe is a toroidal grid of `height` rows and `width`
columns. Its cells are stored row-major in a fixed-length bit buffer of `size`
bits, and bit `row * width + column` holds cell `(row, column)`.

- `life.dfy` (module `Life`) holds the pure functions of a snapshot of the
  buffer:
  - `get_index` (`Index`);
  - the hand-wrapped eight-neighbour count of `live_neighbor_count`
    (`LiveNeighbourCount`);
  - the survival/birth match of `tick` (`Rule`);
  - one whole generation (`NextGeneration`);
  - the effect of `toggle_cell` and `set_cells` on a snapshot (`Toggle`,
    `MarkAlive`);
  - the text printed by `Display::fmt` (`Display`).

  Beside each function are the lemmas that state what it means. For example,
  the hand-wrapped count equals a reference count over the eight offsets taken
  modulo the grid's dimensions (`CountAlive`).
- `engine.dfy` (module `Engine`) holds the class `Universe`. Its fields are
  `size`, `width`, `height` and the bit buffer, here an `array<bool>`. Its
  methods update the buffer in place, as the Rust methods do. The
  postconditions of `SetAlive`, `ToggleCell`, `SetCells` and `Tick` tie the
  new buffer, read through `GetCells()`, to a function of the old one. The
  postconditions of `Clear`, `Reset`, `SetWidth`, `SetHeight` and the
  constructor state the new bits directly. `Tick` allocates a clone and runs
  the row and column loops into it, reading every cell and count from the
  unchanged buffer. It then makes the clone the buffer, and is proved to
  produce `NextGeneration` of the old buffer.

The class invariant `Valid()` holds when all of these are true:

- the buffer has `size` bits, and `size` fits a wasm32 `usize`;
- `width` and `height` are positive;
- `width * height <= size`.

`size` is fixed when the universe is created. `set_width` and `set_height`
never change it.

The random draws of `new` and `reset` are a parameter `draw: nat -> bool`,
whose `i`-th value is the coin tossed for bit `i`.

## Model

| member | source | states |
|---|---|---|
| Life.Index | src/lib.rs:121-123 | get_index: the position of (row, column) in the row-major buffer is row * width + column; its meaning is stated by the lemmas below |
| Life.IndexRowMajor | src/lib.rs:121-123 | division and remainder by width of get_index of an in-grid (row, column) give back the row and the column |
| Life.IndexInGrid | src/lib.rs:121-123 | get_index of an in-grid (row, column) lies below width * height |
| Life.IndexOfPosition | src/lib.rs:121-123 | every position below width * height is get_index of exactly the in-grid cell (i / width, i % width) |
| Life.WrappedIndexInGrid | src/lib.rs:73-76 | for any row and column, the wrapped coordinates used by set_alive index a cell inside the grid area, so set_alive never goes out of range |
| Life.HandWrapped | src/lib.rs:128-142 | north/south/west/east: one step along an axis of length n, wrapped by hand from 0 to n - 1 and from n - 1 to 0, always lands on the axis |
| Life.NeighbourRowAt | src/lib.rs:128-166 | the three reads in the hand-wrapped row dr steps away (north, the cell's own row, south) are the neighbours at offsets (dr, -1), (dr, 0), (dr, 1) taken modulo the dimensions |
| Life.LiveNeighbourCount | src/lib.rs:125-169 | the hand-wrapped count of live neighbours is at most 8 |
| Life.CountAlive | src/lib.rs:125-169 | reference count: the number of live cells at the given offsets taken modulo the dimensions is at most the number of offsets |
| Life.NeighbourCountByOffsets | src/lib.rs:128-166 | each of the eight hand-wrapped reads (north/south/west/east wrapping at 0 and at height-1 / width-1) is the neighbour at the matching offset taken modulo the dimensions |
| Life.NeighbourCountIsToroidal | src/lib.rs:125-169 | live_neighbor_count equals the number of live cells among the eight toroidally wrapped neighbours |
| Life.CornerIsNorthWestOfOrigin | src/lib.rs:128-145 | a live cell at (height-1, width-1) is counted as a neighbour of (0, 0) |
| Life.DeadNeighbourhood | src/lib.rs:125-169 | in a universe with no live cell every cell has zero live neighbours |
| Life.Rule | src/lib.rs:202-210 | the next state is alive exactly when the count is 3, or the cell is alive and the count is 2 (B3/S23) |
| Life.NextGeneration | src/lib.rs:181-227 | one generation keeps the buffer's length and leaves the bits past width * height as they were |
| Life.NextGenerationAt | src/lib.rs:188-210 | each in-grid cell of the next generation is the rule applied to that cell's old state and to live_neighbor_count on the old buffer |
| Life.EmptyStaysEmpty | src/lib.rs:175-228 | a generation of an all-dead buffer is the same all-dead buffer |
| Life.Written | src/lib.rs:181-210 | the clone after `k` writes holds the next generation below `k` and the old buffer from `k` on |
| Life.WrittenCell | src/lib.rs:202-210 | writing a cell's next state into the clone extends the written prefix past that cell |
| Life.WrittenGrid | src/lib.rs:181-227 | once the whole grid area has been written, the clone is the next generation |
| Engine.Universe.NextState | src/lib.rs:190-210 | the loop body reads the cell and its count from the current buffer and returns get_index(row, column) and that cell's state in the next generation |
| Engine.Universe.NextRowInto | src/lib.rs:189-221 | the inner column loop writes one more row of the next generation into the clone and leaves the rest of the clone alone |
| Engine.Universe.Tick | src/lib.rs:175-228 | tick leaves width, height and size unchanged and makes the buffer the next generation of the old buffer, computed only from the old buffer and never from the clone |
| Life.Toggle | src/lib.rs:170-173 | toggling position i flips that bit and leaves every other bit unchanged |
| Life.ToggleTwice | src/lib.rs:170-173 | toggling the same cell twice restores the buffer |
| Engine.Universe.ToggleCell | src/lib.rs:170-173 | toggle_cell flips exactly the bit at get_index(row, column) |
| Engine.Universe.SetAlive | src/lib.rs:73-76 | set_alive stays in range and sets exactly the bit of (row mod height, column mod width) alive, changing no other bit |
| Engine.Universe.Clear | src/lib.rs:78-82 | clear leaves all `size` bits dead |
| Engine.Universe.Reset | src/lib.rs:84-89 | reset gives bit i the i-th random draw, for all `size` bits |
| Engine.Universe.constructor | src/lib.rs:52-71 | new makes a 120 x 120 universe with size 14400 whose bit i is the i-th random draw |
| Engine.Universe.SetWidth | src/lib.rs:90-96 | set_width stores the new width, keeps the height, the buffer and size, and leaves every bit dead |
| Engine.Universe.WipeBits | src/lib.rs:95 | FixedBitSet::clear as called by set_width and set_height: every bit of the buffer becomes dead |
| Engine.Universe.SetHeight | src/lib.rs:98-104 | set_height stores the new height, keeps the width, the buffer and size, and leaves every bit dead |
| Engine.Universe.Width | src/lib.rs:106-108 | width() returns the stored width, which is positive and fits the buffer together with the height |
| Engine.Universe.Height | src/lib.rs:110-112 | height() returns the stored height, which is positive and fits the buffer together with the width |
| Engine.Universe.GetCells | src/lib.rs:232-235 | get_cells is the buffer, bit for bit |
| Life.MarkAlive | src/lib.rs:239-244 | setting the listed cells alive keeps the buffer's length |
| Life.MarkAliveAt | src/lib.rs:239-244 | after set_cells a bit is alive exactly when it was alive before or some listed pair indexes it; unlisted bits keep their state |
| Life.MarkAliveDuplicate | src/lib.rs:239-244 | listing a pair again changes nothing, so duplicates are idempotent |
| Engine.Universe.SetCells | src/lib.rs:239-244 | set_cells sets the bits of the listed pairs alive, in list order, and changes nothing else |
| Life.Glyph | src/lib.rs:253 | the symbol is U+25FC exactly when the cell is alive and U+25FB exactly when it is dead |
| Life.Display | src/lib.rs:247-261 | the text has height lines of width glyphs plus a newline each |
| Life.DisplayAt | src/lib.rs:249-257 | character row * (width + 1) + column is the glyph of cell (row, column) (U+25FB dead, U+25FC alive), and character row * (width + 1) + width is the row's newline |
| Life.DisplayOfEmpty | src/lib.rs:247-261 | an empty universe prints only dead glyphs and newlines |
| Engine.Universe.Render | src/lib.rs:117-119 | render returns the Display text of the current universe, of height * (width + 1) characters |

## Left out

- `Timer` (src/lib.rs:12-27) is left out. It only writes labels to the browser console.
- The `revived` and `died` vectors of `tick` are left out. They are filled but never read.
- `cells()` is left out. It hands a raw pointer into the buffer to JavaScript and has no behaviour to state.
- `utils::set_panic_hook` and the `wee_alloc` allocator setup are left out.
- The browser front end is left out.
- `js_sys::Math::random() < 0.5` is not modelled. `new` and `reset` take the outcome of each draw as the parameter `draw`.
- Engine.Universe.SetWidth: requires the new width to keep `Valid()`, that is, positive with `width * height <= size`. The Rust method accepts any `u32`, and a later `tick`, `set_alive` or `Display` then panics or indexes past the grid. That misuse is not modelled.
- Engine.Universe.SetHeight: requires the new height to keep `Valid()`, for the same reason as SetWidth.
- Engine.Universe.ToggleCell: requires the exact value of `row * width + column` to be below `size`. That excludes two kinds of input. (1) Inputs whose exact value is at or past `size` but below 2^32: `FixedBitSet::set` panics on them. (2) Inputs whose `u32` product `row * width + column` overflows, e.g. `toggle_cell(35791395, 0)` on a 120-wide universe: a debug build panics on the overflow, and a release build wraps the index modulo 2^32 (to 104 here) and toggles that bit. Neither the panics nor the wrapped index are modelled.
- Engine.Universe.SetCells: requires the exact value of `row * width + column` of every listed pair to be below `size`. It excludes the same two kinds of pair as ToggleCell: a release build sets the wrapped bit of an overflowing pair, and the panics partway through the list are not modelled.
- `get_index` is computed in `u32`; the model computes it over unbounded integers. Under `Valid()`, an in-grid (row, column) has an exact index below `size < 2^32`, so tick, set_alive and Display never meet the wrap-around. Only toggle_cell and set_cells can, and their lines above say what is excluded.
- Reads of a `FixedBitSet` out of range return `false`. The model never reads out of range, so this case does not arise.
- `tick` is one method in Rust. Here its inner loop is the method `NextRowInto` and the loop body is the method `NextState`. Each is called from the position where it sits in `tick`, with the same reads and writes.
- Each cell's new state in `NextGeneration` is written in terms of the reference count `CountAlive`. `NeighbourCountIsToroidal` proves that count equal to the hand-wrapped `live_neighbor_count`. `NextGenerationAt` restates the cell's new state in terms of `live_neighbor_count`.
- `Display::fmt` writes through a formatter in nested loops. Here it is the pure function `Display`, which returns the whole text. Formatter errors are not modelled, since writing to a `String` does not fail.
