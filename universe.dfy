/**
 * The Game of Life engine: a universe of `width` by `height` cells on a
 * torus, stored row-major in a fixed-length bit-set, updated in place.
 */
module GameOfLife {
  import opened Grid
  import opened Life

  /** Bits allocated by `new` (32 by 32). The bit-set is never grown or shrunk afterwards. */
  const Capacity: nat := 1024

  class Universe {
    var width: u32
    var height: u32
    /** The bit-set: bit `Index(width, row, col)` is true when that cell is alive. */
    var cells: array<bool>

    /**
     * The object invariant: the bit-set keeps the length `new` gave it.
     * Resizing does not reallocate it, so `width * height` may exceed it;
     * the operations that would then write past its end require `Fits()`.
     */
    ghost predicate Valid()
      reads this
    {
      cells.Length == Capacity
    }

    /** Every in-grid index addresses a bit of the bit-set. */
    predicate Fits()
      reads this
    {
      width * height <= cells.Length
    }

    /** A 32 by 32 universe seeded with bit `i` alive iff `i % 2 == 0 || i % 7 == 0`. */
    constructor ()
      ensures Valid() && Fits() && fresh(cells)
      ensures width == 32 && height == 32
      ensures forall i :: 0 <= i < cells.Length ==> cells[i] == (i % 2 == 0 || i % 7 == 0)
    {
      var size := 32 * 32;
      var bits := new bool[size](_ => false);
      for i := 0 to size
        invariant forall j :: 0 <= j < i ==> bits[j] == (j % 2 == 0 || j % 7 == 0)
      {
        bits[i] := i % 2 == 0 || i % 7 == 0;
      }
      width, height, cells := 32, 32, bits;
    }

    /** The number of columns. */
    method Width() returns (w: u32)
      ensures w == width
    {
      w := width;
    }

    /** The number of rows. */
    method Height() returns (h: u32)
      ensures h == height
    {
      h := height;
    }

    /**
     * Live cells among the eight toroidal neighbours of an in-grid cell,
     * visiting the offsets `height - 1, 0, 1` by `width - 1, 0, 1` and
     * skipping the pair of zeros.
     */
    method LiveNeighbourCount(row: u32, col: u32) returns (count: nat)
      requires Valid() && Fits() && row < height && col < width
      ensures count == NeighbourCount(cells[..], width, height, row, col)
      ensures count <= 8
    {
      hide CountUpTo;  // each step is taken from CountStep
      ghost var g := cells[..];
      var deltaRows := [height - 1, 0, 1];
      var deltaCols := [width - 1, 0, 1];
      count := 0;
      for i := 0 to 3
        invariant count == CountUpTo(g, width, height, row, col, 3 * i)
      {
        for j := 0 to 3
          invariant count == CountUpTo(g, width, height, row, col, 3 * i + j)
        {
          CountStep(g, width, height, row, col, i, j);
          var deltaRow, deltaCol := deltaRows[i], deltaCols[j];
          if !(deltaRow == 0 && deltaCol == 0) {
            var neighbourRow := (row + deltaRow) % height;
            var neighbourCol := (col + deltaCol) % width;
            var idx := Index(width, neighbourRow, neighbourCol);
            IndexInGrid(width, height, neighbourRow, neighbourCol);
            if cells[idx] {
              count := count + 1;
            }
          }
        }
      }
    }

    /**
     * Advances one generation. Every next state is computed from the
     * current bit-set into a copy, which then replaces it, so no cell sees
     * another cell's new state.
     */
    method Tick()
      requires Valid() && Fits()
      modifies this
      ensures Valid() && Fits() && fresh(cells)
      ensures width == old(width) && height == old(height)
      ensures cells[..] == NextGen(old(cells[..]), width, height)
    {
      // The loop needs only the per-cell facts NextGenInGrid and NextGenPastGrid state.
      hide NeighbourCount;
      hide NextGen;
      ghost var g := cells[..];
      ghost var gen := NextGen(g, width, height);
      var next := new bool[cells.Length];
      forall i | 0 <= i < cells.Length {
        next[i] := cells[i];
      }
      ghost var done := 0;  // bits of the grid already written, in row-major order
      for row := 0 to height
        modifies next
        invariant done == Index(width, row, 0) && done <= next.Length
        invariant forall i :: 0 <= i < done ==> next[i] == gen[i]
        invariant forall i :: done <= i < next.Length ==> next[i] == g[i]
        invariant cells[..] == g
      {
        for col := 0 to width
          modifies next
          invariant done == Index(width, row, col) && done <= next.Length
          invariant forall i :: 0 <= i < done ==> next[i] == gen[i]
          invariant forall i :: done <= i < next.Length ==> next[i] == g[i]
          invariant cells[..] == g
        {
          var idx := Index(width, row, col);
          IndexInGrid(width, height, row, col);
          NextGenInGrid(g, width, height, row, col);
          var liveNeighbours := LiveNeighbourCount(row, col);
          var cell := cells[idx];
          next[idx] := Rule(cell, liveNeighbours);
          done := done + 1;
        }
        IndexNextRow(width, row);
      }
      assert done == width * height;
      forall i | done <= i < next.Length
        ensures next[i] == gen[i]
      {
        NextGenPastGrid(g, width, height, i);
      }
      assert next[..] == gen;
      cells := next;
    }

    /** Sets the listed cells alive; every other bit keeps its value. */
    method SetCells(ps: seq<(u32, u32)>)
      requires Valid()
      requires forall k :: 0 <= k < |ps| ==> Index(width, ps[k].0, ps[k].1) < cells.Length
      modifies cells
      ensures Valid()
      ensures cells[..] == WithLive(old(cells[..]), width, ps)
    {
      for k := 0 to |ps|
        invariant cells[..] == WithLive(old(cells[..]), width, ps[..k])
      {
        var (row, col) := ps[k];
        var idx := Index(width, row, col);
        cells[idx] := true;
        WithLiveStep(old(cells[..]), width, ps, k);
      }
      assert ps[..|ps|] == ps;
    }

    /** Replaces the width and kills every cell, leaving the bit-set's length as it was. */
    method SetWidth(w: u32)
      requires Valid()
      modifies this, cells
      ensures Valid() && cells == old(cells)
      ensures width == w && height == old(height)
      ensures forall i :: 0 <= i < cells.Length ==> !cells[i]
    {
      width := w;
      Clear();
    }

    /** Replaces the height and kills every cell, leaving the bit-set's length as it was. */
    method SetHeight(h: u32)
      requires Valid()
      modifies this, cells
      ensures Valid() && cells == old(cells)
      ensures height == h && width == old(width)
      ensures forall i :: 0 <= i < cells.Length ==> !cells[i]
    {
      height := h;
      Clear();
    }

    /** Flips the cell at (row mod height, col mod width). */
    method ToggleCell(row: u32, col: u32)
      requires Valid() && width >= 1 && height >= 1
      requires WrappedIndex(width, height, row, col) < cells.Length
      modifies cells
      ensures Valid()
      ensures var idx := WrappedIndex(width, height, row, col);
        cells[..] == old(cells[..])[idx := !old(cells[idx])]
    {
      var idx := Index(width, row % height, col % width);
      cells[idx] := !cells[idx];
    }

    /** Sets the cell at (row mod height, col mod width) to `state`. */
    method SetCell(row: u32, col: u32, state: bool)
      requires Valid() && width >= 1 && height >= 1
      requires WrappedIndex(width, height, row, col) < cells.Length
      modifies cells
      ensures Valid()
      ensures cells[..] == old(cells[..])[WrappedIndex(width, height, row, col) := state]
    {
      var idx := Index(width, row % height, col % width);
      cells[idx] := state;
    }

    /** Kills every cell; the dimensions stay. */
    method Clear()
      requires Valid()
      modifies cells
      ensures Valid()
      ensures forall i :: 0 <= i < cells.Length ==> !cells[i]
    {
      forall i | 0 <= i < cells.Length {
        cells[i] := false;
      }
    }

    /**
     * Sets every bit of the bit-set from the host's random source, given
     * here as one draw per bit (`draws[i]` is whether bit `i` comes out alive).
     */
    method Randomize(draws: seq<bool>)
      requires Valid() && |draws| == cells.Length
      modifies cells
      ensures Valid()
      ensures cells[..] == draws
    {
      for idx := 0 to cells.Length
        invariant cells[..idx] == draws[..idx]
      {
        cells[idx] := draws[idx];
      }
    }
  }

  /** Adding the k-th pair to the ones before it sets exactly that pair's bit. */
  lemma WithLiveStep(g: seq<bool>, w: nat, ps: seq<(u32, u32)>, k: nat)
    requires k < |ps| && Index(w, ps[k].0, ps[k].1) < |g|
    ensures WithLive(g, w, ps[..k + 1]) == WithLive(g, w, ps[..k])[Index(w, ps[k].0, ps[k].1) := true]
  {
  }
}
