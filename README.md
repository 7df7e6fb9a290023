# Game of Life universe, modelled in Dafny

This project models the `Universe` of `wasm-game-of-life`. The universe is a
Conway's Game of Life engine, compiled to WebAssembly and driven from a web
page. A universe is `width` columns by `height` rows of cells on a torus: the
top edge wraps to the bottom and the left edge to the right. The cells live in
a fixed-length bit-set in row-major order, and bit `row * width + col` is true
when that cell is alive. One `tick` applies the B3/S23 rules to every cell at
once:

- a dead cell with exactly three live neighbours is born;
- a live cell with two or three survives;
- every other cell dies or stays dead.

The model has four modules:

- `Grid` (`grid.dfy`) holds the coordinate arithmetic:
  - `Index`, which is `get_index`;
  - `WrappedIndex`, the index `toggle_cell` and `set_cell` compute from `row % height` and `col % width`;
  - the type `u32` of the dimensions and coordinates.
- `Life` (`life.dfy`) holds the rules as functions of a snapshot of the bit-set:
  - `Bit`: reading past the end of the bit-set gives a dead cell;
  - `NeighbourCount`: the loop of `live_neighbor_count` over the nine offset pairs `(height - 1, 0, 1) × (width - 1, 0, 1)`, skipping the pair of zeros;
  - `Rule`: the `match` of `tick`;
  - `NextGen`: the bit-set one generation later;
  - `WithLive`: the bit-set after `set_cells`.
- `GameOfLife` (`universe.dfy`) holds the class `Universe`:
  - it has the fields `width`, `height` and `cells`, where `cells` is an `array<bool>` of the 1024 bits `new` allocates;
  - every method of the source that changes the universe is a method here, updating the fields in place, and so are the accessors `width()` and `height()` (`Universe.Width`, `Universe.Height`); `get_cells` and `cells()` are left out (see below);
  - `Tick` writes the next generation into a copy and then swaps it in, as the source does;
- `Fixtures` (`fixtures.dfy`) holds:
  - the browser test of `tick`: a glider on a 6 by 6 torus;
  - client methods that chain calls: toggling twice, toggling past the bottom edge, clearing twice.

The preconditions of the public methods are the conditions under which the source panics, and no more:

- `FixedBitSet::set` panics on an index at or past the length of the bit-set. Reading an index past the end returns false.
- `%` by a zero dimension panics.

So the public methods require the following:

- `Tick` requires `width * height` to fit in the bit-set.
- `SetCells` requires every listed index to be inside the bit-set. Because `Index` is computed on unbounded integers, this also rules out `u32` overflow in `row * width + col`.
- `ToggleCell` and `SetCell` require both dimensions to be non-zero and the wrapped index to be inside the bit-set.

`LiveNeighbourCount` is the private helper `live_neighbor_count`, and it is the one exception. It requires what its only caller, `tick` (src/lib.rs:163-166), guarantees: an in-grid position `row < height`, `col < width` of a grid that fits in the bit-set. The source function itself does not panic for non-zero dimensions, because a read past the end returns false. Under these preconditions `row + delta_row` is at most `2 * height - 2` (2046 on a 1 by 1024 grid), far below 2^32.

Resizing does not reallocate. `set_width` and `set_height` only call `FixedBitSet::clear` (src/lib.rs:86, src/lib.rs:94), so the bit-set keeps the 1024 bits `new` allocates, and `width * height` may exceed it. Accordingly:

- `Valid()` says that the bit-set always has length 1024;
- `Fits()` says that the grid fits in it;
- a grid larger than 1024 cells can be set, but then cannot be ticked.

## Model

| member | source | states |
|---|---|---|
| Grid.Index | src/lib.rs:31-33 | `get_index`: the bit of `(row, col)` with `col < width` lies in the `row`-th block of `width` bits (row-major order) |
| Grid.WrappedIndex | src/lib.rs:109 | the index `toggle_cell` and `set_cell` compute from `row % height` and `col % width` always lies below `width * height` |
| Grid.IndexInGrid | src/lib.rs:31-33 | a position with `row < height` and `col < width` has an index below `width * height` |
| Grid.IndexInjective | src/lib.rs:31-33 | two positions whose columns are inside the width share an index only if they are the same position |
| Grid.IndexDivMod | src/lib.rs:31-33 | dividing an index by the width gives back its row, and the remainder gives back its column |
| Grid.WrappedIndexInGrid | src/lib.rs:108-117 | the index `toggle_cell`/`set_cell` compute always lies below `width * height`, and equals `get_index` for an in-grid position |
| Grid.WrappedIndexPeriodic | src/lib.rs:108-117 | adding whole multiples of the height to the row, or of the width to the column, does not change the wrapped index |
| Grid.WrappedRowWraps | src/lib.rs:109 | row `height` addresses the same bit as row 0 |
| Life.Bit | src/lib.rs:48 | reading the bit-set past its end gives a dead cell; inside it, the stored bit |
| Life.OffsetCount | src/lib.rs:41-48 | one offset pair adds 0 or 1 to the count, and the middle pair `(0, 0)`, the cell itself, adds 0 |
| Life.CountUpTo | src/lib.rs:39-50 | after the first `n` of the nine offset pairs, the count is at most `n`, and at most `n - 1` once the skipped pair of zeros has been passed |
| Life.CountStep | src/lib.rs:39-49 | one pass of the inner loop adds exactly that offset pair's contribution to the count |
| Life.NeighbourCount | src/lib.rs:36-53 | the live-neighbour count is at most 8 |
| Life.NineOffsets | src/lib.rs:39-49 | the count is the sum of the contributions of the nine offset pairs `(height - 1, 0, 1) × (width - 1, 0, 1)` |
| Life.OffsetTerm | src/lib.rs:41-48 | on a grid at least 2 by 2, each non-zero offset pair reaches the neighbour above/below and left/right, wrapping at the edges; the pair of zeros adds nothing |
| Life.NeighbourCountExplicit | src/lib.rs:36-53 | on a grid at least 2 by 2, the count is the number of live cells among the eight surrounding cells on the torus |
| Life.NeighbourCountExcludesSelf | src/lib.rs:41-43 | on a grid at least 2 by 2, changing a cell's own bit does not change its count |
| Life.TopRowSeesBottomRow | src/lib.rs:39-46 | on a grid at least 3 high and 2 wide, a live cell at `(height - 1, col)` adds exactly one to the count of `(0, col)` |
| Life.Rule | src/lib.rs:170-185 | the next state is alive exactly when the count is 3, or when the cell is alive and the count is 2 (B3/S23) |
| Life.NextGen | src/lib.rs:160-191 | the next generation has the length of the current bit-set |
| Life.NextCell | src/lib.rs:165-185 | the new state of in-grid bit `i` is alive iff the count at `(i / width, i % width)` is 3, or the bit is alive and the count is 2 |
| Life.NextGenInGrid | src/lib.rs:163-186 | every in-grid bit of the next generation is the rule applied to that cell's old state and its old neighbour count |
| Life.NextGenPastGrid | src/lib.rs:161 | every bit at or past `width * height` keeps its old value |
| Life.NextGenCharacterised | src/lib.rs:160-191 | the next generation is the one and only bit-set that has the old length, follows the rule at every in-grid cell on the old state and copies the rest |
| Life.WithLive | src/lib.rs:65-70 | setting cells keeps the length of the bit-set |
| Life.WithLiveAdds | src/lib.rs:65-70 | setting cells only adds life: live bits stay live, every listed in-range cell becomes live, and no unlisted dead bit changes |
| Life.WithLiveAppend | src/lib.rs:65-70 | setting one list and then another is the same as setting their concatenation |
| GameOfLife.WithLiveStep | src/lib.rs:66-68 | one iteration of the loop of `set_cells` sets exactly the bit of the current pair |
| GameOfLife.Universe.constructor | src/lib.rs:132-157 | a new universe is 32 by 32, with a 1024-bit bit-set in which bit `i` is alive iff `i % 2 == 0 \|\| i % 7 == 0` |
| GameOfLife.Universe.LiveNeighbourCount | src/lib.rs:36-53 | the nested loop over the offset pairs returns `NeighbourCount` of the current bit-set, at most 8 |
| GameOfLife.Universe.Width | src/lib.rs:77-79 | returns the current width |
| GameOfLife.Universe.Height | src/lib.rs:98-100 | returns the current height |
| GameOfLife.Universe.Tick | src/lib.rs:160-191 | after a tick the dimensions and the length are unchanged, the bit-set is a fresh array shared with no other universe, and its contents are `NextGen` of the old bit-set: every cell is computed from the old state only |
| GameOfLife.Universe.SetCells | src/lib.rs:65-70 | the new bit-set is the old one with every listed cell set alive |
| GameOfLife.Universe.SetWidth | src/lib.rs:84-87 | only the width changes, every bit is dead, and the bit-set keeps its length |
| GameOfLife.Universe.SetHeight | src/lib.rs:92-95 | only the height changes, every bit is dead, and the bit-set keeps its length |
| GameOfLife.Universe.ToggleCell | src/lib.rs:108-111 | exactly one bit, at `(row % height) * width + col % width`, is flipped |
| GameOfLife.Universe.SetCell | src/lib.rs:114-117 | exactly one bit, at `(row % height) * width + col % width`, is set to `state` |
| GameOfLife.Universe.Clear | src/lib.rs:120-122 | every bit is dead; the dimensions are untouched |
| GameOfLife.Universe.Randomize | src/lib.rs:125-129 | every bit of the bit-set is replaced by the host's draw for it |
| Fixtures.GliderBeforeBits | tests/web.rs:26-29 | the input glider on a cleared 6 by 6 universe has live bits 8, 15, 19, 20 and 21 |
| Fixtures.GliderAfterBits | tests/web.rs:38-41 | the expected phase has live bits 13, 15, 20, 21 and 26 |
| Fixtures.GliderStep | tests/web.rs:18-44 | one generation of the input glider on a 6 by 6 torus is exactly the expected phase |
| Fixtures.DeadSixBySix | tests/web.rs:26-28 | `new` followed by `set_width(6)` and `set_height(6)` gives a 6 by 6 universe with every bit dead |
| Fixtures.TestTick | tests/web.rs:18-44 | the test's comparison of the ticked universe with the expected one always succeeds |
| Fixtures.ToggleTwice | src/lib.rs:108-111 | toggling the same cell twice restores the bit-set |
| Fixtures.ToggleBottomEdge | src/lib.rs:108-111 | toggling `(height, col)` flips the bit of `(0, col)` |
| Fixtures.ClearTwice | src/lib.rs:120-122 | clearing twice leaves every bit dead and the dimensions unchanged, as clearing once does |

## Left out

- `www/index.js`, the page that draws the universe and calls into it, is not part of this model.
- `get_cells` and `cells()` are left out. They expose the bit-set as 32-bit words or as a raw pointer. The model reads the bits directly, through `cells[..]`.
- `Randomize` does not model `js_sys::Math::random() < 0.5`. It takes the draws, one per bit, as a parameter.
- Logging (`log!`, `web_sys::console`), the panic hook (`utils::set_panic_hook`) and the `wee_alloc` allocator have no effect on the universe's state, so they are not modelled.
- The `pass` test in tests/web.rs checks nothing about the universe.
- `u32` overflow is not modelled. The preconditions keep `row * width + col` below the bit-set's length and `row + delta_row` at most `2 * height - 2`, both far below 2^32.
- The panics are not modelled as behaviour. Each one becomes a precondition: an index at or past the bit-set's length, or `%` by a zero dimension.
- Life.NeighbourCountExplicit: the explicit eight-neighbour form is stated only for grids at least 2 by 2. On a grid 1 or 2 wide or high, several offset pairs reach the same cell, and a width or height of 1 makes a cell count itself. `NineOffsets` still gives the count for every grid size.
- Life.NeighbourCountExcludesSelf: stated only for grids at least 2 by 2, for the same reason.
- Life.TopRowSeesBottomRow: stated only for grids at least 3 high and 2 wide. With a height of 2, row `height - 1` is both the row above and the row below row 0, so it counts twice.
- GameOfLife.Universe.LiveNeighbourCount: covers only in-grid positions of a grid that fits in the bit-set, which is how `tick` calls it. Calls from elsewhere with other positions are not modelled; `Life.NeighbourCount` itself has no such restriction.
- The `u8` type of the count is not modelled. The count is a `nat`, proved to be at most 8.
