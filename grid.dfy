/**
 * Coordinates of the universe: the row-major mapping from a (row, col)
 * position to a bit of the flat bit-set, and the wrapped variant used by
 * the single-cell mutators.
 */
module Grid {

  /** Unsigned 32-bit integers: the type of the dimensions and coordinates. */
  type u32 = x: int | 0 <= x < 0x1_0000_0000

  /** Linear index of (row, col) in a grid `w` columns wide (`get_index`). */
  function Index(w: nat, row: nat, col: nat): (r: nat)
    ensures col < w ==> row * w <= r < row * w + w  // row `row` is the row-th block of `w` bits
  {
    row * w + col
  }

  /** Index of (row mod h, col mod w), as `toggle_cell` and `set_cell` compute it. */
  function WrappedIndex(w: nat, h: nat, row: nat, col: nat): (r: nat)
    requires w >= 1 && h >= 1
    ensures r < w * h
  {
    IndexInGrid(w, h, row % h, col % w);
    Index(w, row % h, col % w)
  }

  lemma MulMonotone(a: nat, b: nat, w: nat)
    requires a <= b
    ensures a * w <= b * w
  {
  }

  /** An in-grid position addresses a bit below `w * h`. */
  lemma IndexInGrid(w: nat, h: nat, row: nat, col: nat)
    requires row < h && col < w
    ensures Index(w, row, col) < w * h
  {
    MulMonotone(row + 1, h, w);
  }

  /** Two in-row positions share an index only if they are the same position. */
  lemma IndexInjective(w: nat, r1: nat, c1: nat, r2: nat, c2: nat)
    requires c1 < w && c2 < w
    requires Index(w, r1, c1) == Index(w, r2, c2)
    ensures r1 == r2 && c1 == c2
  {
    if r1 < r2 {
      MulMonotone(r1 + 1, r2, w);
    } else if r2 < r1 {
      MulMonotone(r2 + 1, r1, w);
    }
  }

  /** Division and remainder by the width recover the position from its index. */
  lemma IndexDivMod(w: nat, row: nat, col: nat)
    requires col < w
    ensures Index(w, row, col) / w == row && Index(w, row, col) % w == col
  {
    var i := Index(w, row, col);
    assert i == Index(w, i / w, i % w);
    IndexInjective(w, row, col, i / w, i % w);
  }

  /** Every index of a `w`-wide grid is the index of its own (i / w, i % w). */
  lemma IndexOfDivMod(w: nat, i: nat)
    requires w >= 1
    ensures i / w * w + i % w == i && Index(w, i / w, i % w) == i
  {
  }

  /** Adding whole turns of the torus to a coordinate does not move the wrapped index. */
  lemma {:induction false} WrappedIndexPeriodic(w: nat, h: nat, row: nat, col: nat, turnsRow: nat, turnsCol: nat)
    requires w >= 1 && h >= 1
    ensures WrappedIndex(w, h, row + turnsRow * h, col + turnsCol * w) == WrappedIndex(w, h, row, col)
  {
    ModTurns(h, row, turnsRow);
    ModTurns(w, col, turnsCol);
  }

  lemma ModTurns(n: nat, x: nat, turns: nat)
    requires n >= 1
    ensures (x + turns * n) % n == x % n
  {
    var y := x + turns * n;
    assert Index(n, y / n, y % n) == y;
    assert Index(n, x / n + turns, x % n) == y;
    IndexInjective(n, y / n, y % n, x / n + turns, x % n);
  }

  /** A coordinate already inside its dimension is its own remainder. */
  lemma ModSmall(n: nat, x: nat)
    requires x < n
    ensures x % n == x
  {
  }

  /** The wrapped index always lies inside the grid, and is the plain index on in-grid input. */
  lemma WrappedIndexInGrid(w: nat, h: nat, row: nat, col: nat)
    requires w >= 1 && h >= 1
    ensures WrappedIndex(w, h, row, col) < w * h
    ensures row < h && col < w ==> WrappedIndex(w, h, row, col) == Index(w, row, col)
  {
    IndexInGrid(w, h, row % h, col % w);
    if row < h && col < w {
      ModSmall(h, row);
      ModSmall(w, col);
    }
  }

  /** Row `h` wraps to row 0: toggling (h, col) addresses the same bit as toggling (0, col). */
  lemma WrappedRowWraps(w: nat, h: nat, col: nat)
    requires w >= 1 && h >= 1
    ensures WrappedIndex(w, h, h, col) == WrappedIndex(w, h, 0, col)
  {
  }

  /** The bit after the end of row `row` is the first bit of row `row + 1`. */
  lemma IndexNextRow(w: nat, row: nat)
    ensures Index(w, row, w) == Index(w, row + 1, 0)
  {
  }
}
