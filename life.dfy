/**
 * The Game of Life on a torus as functions of a grid snapshot: the bit
 * lookup, the live-neighbour count over the eight wrapped offsets, the
 * B3/S23 rule and the next generation of a whole bit-set.
 */
module Life {
  import opened Grid

  /**
   * The bit at index `i`. An index past the end reads as a dead cell, as
   * indexing the bit-set does.
   */
  function Bit(g: seq<bool>, i: nat): (r: bool)
    ensures i >= |g| ==> !r
    ensures i < |g| ==> (r <==> g[i])
  {
    i < |g| && g[i]
  }

  /** 1 for a live bit, 0 for a dead one. */
  function Live(g: seq<bool>, i: nat): nat
  {
    if Bit(g, i) then 1 else 0
  }

  /** The three offsets `[n - 1, 0, 1]` along a dimension of size `n`. */
  function Deltas(n: nat): seq<nat>
    requires n >= 1
  {
    [n - 1, 0, 1]
  }

  /**
   * What the pair (delta row, delta col) = (Deltas(h)[i], Deltas(w)[j])
   * adds to the count: 0 when both deltas are 0, otherwise the bit of the
   * neighbour reached by adding the deltas and wrapping.
   */
  function OffsetCount(g: seq<bool>, w: nat, h: nat, row: nat, col: nat, i: nat, j: nat): (r: nat)
    requires w >= 1 && h >= 1 && i < 3 && j < 3
    ensures r <= 1
    ensures i == 1 && j == 1 ==> r == 0  // the middle pair is (0, 0): the cell itself is skipped
  {
    var dr, dc := Deltas(h)[i], Deltas(w)[j];
    if dr == 0 && dc == 0 then 0
    else Live(g, Index(w, (row + dr) % h, (col + dc) % w))
  }

  /** The count after the first `n` of the nine pairs, taken in nested-loop order. */
  function CountUpTo(g: seq<bool>, w: nat, h: nat, row: nat, col: nat, n: nat): (r: nat)
    requires w >= 1 && h >= 1 && n <= 9
    ensures r <= if n <= 4 then n else n - 1
    decreases n
  {
    if n == 0 then 0
    else CountUpTo(g, w, h, row, col, n - 1) + OffsetCount(g, w, h, row, col, (n - 1) / 3, (n - 1) % 3)
  }

  /** One step of the nested loops over the pairs. */
  lemma CountStep(g: seq<bool>, w: nat, h: nat, row: nat, col: nat, i: nat, j: nat)
    requires w >= 1 && h >= 1 && i < 3 && j < 3
    ensures CountUpTo(g, w, h, row, col, 3 * i + j + 1)
         == CountUpTo(g, w, h, row, col, 3 * i + j) + OffsetCount(g, w, h, row, col, i, j)
  {
  }

  /** Live cells among the eight toroidal neighbours of (row, col) (`live_neighbor_count`). */
  function NeighbourCount(g: seq<bool>, w: nat, h: nat, row: nat, col: nat): (r: nat)
    requires w >= 1 && h >= 1
    ensures r <= 8
  {
    CountUpTo(g, w, h, row, col, 9)
  }

  /** The next state of one cell from its current state and its live-neighbour count. */
  function Rule(alive: bool, n: nat): (r: bool)
    ensures r <==> n == 3 || (alive && n == 2)
  {
    if alive && n < 2 then false                // underpopulation
    else if alive && (n == 2 || n == 3) then true // survival
    else if alive && n > 3 then false           // overpopulation
    else if !alive && n == 3 then true          // reproduction
    else alive                                  // unchanged
  }

  /**
   * The bit-set after one generation: every bit of the `w` by `h` grid is
   * the rule applied to its own bit and neighbour count in `g`; bits past
   * the grid keep their value.
   */
  function NextGen(g: seq<bool>, w: nat, h: nat): (r: seq<bool>)
    requires w * h <= |g|
    ensures |r| == |g|
  {
    seq(|g|, i requires 0 <= i < |g| =>
      if i < w * h then NextCell(g, w, h, i) else g[i])
  }

  /** The new state of the in-grid bit `i`. */
  function NextCell(g: seq<bool>, w: nat, h: nat, i: nat): (r: bool)
    requires i < w * h <= |g|
    ensures w >= 1 && h >= 1
    ensures r <==> var n := NeighbourCount(g, w, h, i / w, i % w); n == 3 || (g[i] && n == 2)
  {
    assert w >= 1 && h >= 1;
    Rule(g[i], NeighbourCount(g, w, h, i / w, i % w))
  }

  /** Whether some listed (row, col) pair has index `i`. */
  ghost predicate Listed(w: nat, ps: seq<(u32, u32)>, i: nat)
  {
    exists k :: 0 <= k < |ps| && Index(w, ps[k].0, ps[k].1) == i
  }

  /** The bit-set with every listed pair's bit set, the others as in `g`. */
  ghost function WithLive(g: seq<bool>, w: nat, ps: seq<(u32, u32)>): (r: seq<bool>)
    ensures |r| == |g|
  {
    seq(|g|, i requires 0 <= i < |g| => g[i] || Listed(w, ps, i))
  }

  /**
   * Setting cells only adds life: a live bit stays live, every listed
   * in-range position becomes live, and a bit that was dead becomes live
   * only if it is listed.
   */
  lemma WithLiveAdds(g: seq<bool>, w: nat, ps: seq<(u32, u32)>)
    ensures forall i :: 0 <= i < |g| && g[i] ==> WithLive(g, w, ps)[i]
    ensures forall k :: 0 <= k < |ps| && Index(w, ps[k].0, ps[k].1) < |g| ==> WithLive(g, w, ps)[Index(w, ps[k].0, ps[k].1)]
    ensures forall i :: 0 <= i < |g| && !g[i] && !Listed(w, ps, i) ==> !WithLive(g, w, ps)[i]
  {
  }

  /** Setting two lists of cells one after the other is setting their concatenation. */
  lemma WithLiveAppend(g: seq<bool>, w: nat, ps: seq<(u32, u32)>, qs: seq<(u32, u32)>)
    ensures WithLive(WithLive(g, w, ps), w, qs) == WithLive(g, w, ps + qs)
  {
    forall i | 0 <= i < |g|
      ensures Listed(w, ps, i) || Listed(w, qs, i) <==> Listed(w, ps + qs, i)
    {
      if Listed(w, ps, i) {
        var k :| 0 <= k < |ps| && Index(w, ps[k].0, ps[k].1) == i;
        assert (ps + qs)[k] == ps[k];
      }
      if Listed(w, qs, i) {
        var k :| 0 <= k < |qs| && Index(w, qs[k].0, qs[k].1) == i;
        assert (ps + qs)[|ps| + k] == qs[k];
      }
      if Listed(w, ps + qs, i) {
        var k :| 0 <= k < |ps + qs| && Index(w, (ps + qs)[k].0, (ps + qs)[k].1) == i;
        if k < |ps| {
          assert (ps + qs)[k] == ps[k];
        } else {
          assert (ps + qs)[k] == qs[k - |ps|];
        }
      }
    }
  }

  /** The upper neighbour's row on a torus of height `h` (and likewise the left column). */
  function Before(x: nat, n: nat): nat
    requires x < n
  {
    if x == 0 then n - 1 else x - 1
  }

  /** The lower neighbour's row on a torus of height `h` (and likewise the right column). */
  function After(x: nat, n: nat): nat
    requires x < n
  {
    if x == n - 1 then 0 else x + 1
  }

  /** Live bit at an in-grid position, for the explicit form of the count. */
  function LiveAt(g: seq<bool>, w: nat, row: nat, col: nat): nat
  {
    Live(g, Index(w, row, col))
  }

  /** The eight neighbours named one by one, wrapping explicitly at the edges. */
  function ExplicitCount(g: seq<bool>, w: nat, h: nat, row: nat, col: nat): nat
    requires row < h && col < w
  {
    var up, down := Before(row, h), After(row, h);
    var left, right := Before(col, w), After(col, w);
    LiveAt(g, w, up, left) + LiveAt(g, w, up, col) + LiveAt(g, w, up, right)
    + LiveAt(g, w, row, left) + LiveAt(g, w, row, right)
    + LiveAt(g, w, down, left) + LiveAt(g, w, down, col) + LiveAt(g, w, down, right)
  }

  /** Adding the three deltas to an in-range coordinate and wrapping gives its two neighbours and itself. */
  lemma WrapSteps(x: nat, n: nat)
    requires x < n && n >= 2
    ensures (x + (n - 1)) % n == Before(x, n)
    ensures (x + 0) % n == x
    ensures (x + 1) % n == After(x, n)
  {
    ModSmall(n, x);
    if x == 0 {
      ModSmall(n, n - 1);
    } else {
      ModTurns(n, x - 1, 1);
      ModSmall(n, x - 1);
    }
    if x == n - 1 {
      ModTurns(n, 0, 1);
    } else {
      ModSmall(n, x + 1);
    }
  }

  /**
   * On a grid at least 2 by 2, the loop over offsets counts exactly the
   * eight surrounding cells, with row 0 seeing row h - 1 and column 0
   * seeing column w - 1.
   */
  lemma NeighbourCountExplicit(g: seq<bool>, w: nat, h: nat, row: nat, col: nat)
    requires w >= 2 && h >= 2 && row < h && col < w
    ensures NeighbourCount(g, w, h, row, col) == ExplicitCount(g, w, h, row, col)
  {
    NineOffsets(g, w, h, row, col);
    hide NeighbourCount;
    hide OffsetCount;
    OffsetTerm(g, w, h, row, col, 0, 0);
    OffsetTerm(g, w, h, row, col, 0, 1);
    OffsetTerm(g, w, h, row, col, 0, 2);
    OffsetTerm(g, w, h, row, col, 1, 0);
    OffsetTerm(g, w, h, row, col, 1, 1);
    OffsetTerm(g, w, h, row, col, 1, 2);
    OffsetTerm(g, w, h, row, col, 2, 0);
    OffsetTerm(g, w, h, row, col, 2, 1);
    OffsetTerm(g, w, h, row, col, 2, 2);
  }

  /** The coordinate reached by the `k`-th delta: before, itself, after. */
  function Step(x: nat, n: nat, k: nat): nat
    requires x < n && k < 3
  {
    if k == 0 then Before(x, n) else if k == 1 then x else After(x, n)
  }

  /** On a grid at least 2 by 2, pair (i, j) contributes the bit of the neighbour it names. */
  lemma OffsetTerm(g: seq<bool>, w: nat, h: nat, row: nat, col: nat, i: nat, j: nat)
    requires w >= 2 && h >= 2 && row < h && col < w && i < 3 && j < 3
    ensures OffsetCount(g, w, h, row, col, i, j)
         == if i == 1 && j == 1 then 0 else LiveAt(g, w, Step(row, h, i), Step(col, w, j))
  {
    hide Index;
    WrapSteps(row, h);
    WrapSteps(col, w);
  }

  /** The count is the sum of the nine pairs' contributions. */
  lemma NineOffsets(g: seq<bool>, w: nat, h: nat, row: nat, col: nat)
    requires w >= 1 && h >= 1
    ensures NeighbourCount(g, w, h, row, col) ==
      OffsetCount(g, w, h, row, col, 0, 0) + OffsetCount(g, w, h, row, col, 0, 1)
      + OffsetCount(g, w, h, row, col, 0, 2) + OffsetCount(g, w, h, row, col, 1, 0)
      + OffsetCount(g, w, h, row, col, 1, 1) + OffsetCount(g, w, h, row, col, 1, 2)
      + OffsetCount(g, w, h, row, col, 2, 0) + OffsetCount(g, w, h, row, col, 2, 1)
      + OffsetCount(g, w, h, row, col, 2, 2)
  {
    hide OffsetCount;
    CountStep(g, w, h, row, col, 0, 0);
    CountStep(g, w, h, row, col, 0, 1);
    CountStep(g, w, h, row, col, 0, 2);
    CountStep(g, w, h, row, col, 1, 0);
    CountStep(g, w, h, row, col, 1, 1);
    CountStep(g, w, h, row, col, 1, 2);
    CountStep(g, w, h, row, col, 2, 0);
    CountStep(g, w, h, row, col, 2, 1);
    CountStep(g, w, h, row, col, 2, 2);
  }

  /** Setting the bit of one position leaves the bit of every other in-row position as it was. */
  lemma LiveAtElsewhere(g: seq<bool>, w: nat, row: nat, col: nat, alive: bool, r: nat, c: nat)
    requires col < w && c < w && (r, c) != (row, col)
    requires Index(w, row, col) < |g|
    ensures LiveAt(g[Index(w, row, col) := alive], w, r, c) == LiveAt(g, w, r, c)
  {
    if Index(w, r, c) == Index(w, row, col) {
      IndexInjective(w, r, c, row, col);
    }
  }

  /**
   * On a grid at least 2 by 2 the cell's own bit does not enter its count:
   * changing it leaves the count unchanged.
   */
  lemma NeighbourCountExcludesSelf(g: seq<bool>, w: nat, h: nat, row: nat, col: nat, alive: bool)
    requires w >= 2 && h >= 2 && row < h && col < w
    requires Index(w, row, col) < |g|
    ensures NeighbourCount(g[Index(w, row, col) := alive], w, h, row, col) == NeighbourCount(g, w, h, row, col)
  {
    hide NeighbourCount;
    var g' := g[Index(w, row, col) := alive];
    NeighbourCountExplicit(g, w, h, row, col);
    NeighbourCountExplicit(g', w, h, row, col);
    var up, down := Before(row, h), After(row, h);
    var left, right := Before(col, w), After(col, w);
    LiveAtElsewhere(g, w, row, col, alive, up, left);
    LiveAtElsewhere(g, w, row, col, alive, up, col);
    LiveAtElsewhere(g, w, row, col, alive, up, right);
    LiveAtElsewhere(g, w, row, col, alive, row, left);
    LiveAtElsewhere(g, w, row, col, alive, row, right);
    LiveAtElsewhere(g, w, row, col, alive, down, left);
    LiveAtElsewhere(g, w, row, col, alive, down, col);
    LiveAtElsewhere(g, w, row, col, alive, down, right);
  }

  /**
   * Toroidal adjacency across the top edge: on a grid at least 3 high and
   * 2 wide, a live bit at (h - 1, col) adds exactly one to the count of (0, col).
   */
  lemma TopRowSeesBottomRow(g: seq<bool>, w: nat, h: nat, col: nat)
    requires w >= 2 && h >= 3 && col < w
    requires Index(w, h - 1, col) < |g|
    ensures NeighbourCount(g[Index(w, h - 1, col) := true], w, h, 0, col)
         == NeighbourCount(g[Index(w, h - 1, col) := false], w, h, 0, col) + 1
  {
    hide NeighbourCount;
    var on, off := g[Index(w, h - 1, col) := true], g[Index(w, h - 1, col) := false];
    NeighbourCountExplicit(on, w, h, 0, col);
    NeighbourCountExplicit(off, w, h, 0, col);
    var left, right := Before(col, w), After(col, w);
    assert Before(0, h) == h - 1 && After(0, h) == 1;
    LiveAtElsewhere(g, w, h - 1, col, true, h - 1, left);
    LiveAtElsewhere(g, w, h - 1, col, false, h - 1, left);
    LiveAtElsewhere(g, w, h - 1, col, true, h - 1, right);
    LiveAtElsewhere(g, w, h - 1, col, false, h - 1, right);
    LiveAtElsewhere(g, w, h - 1, col, true, 0, left);
    LiveAtElsewhere(g, w, h - 1, col, false, 0, left);
    LiveAtElsewhere(g, w, h - 1, col, true, 0, right);
    LiveAtElsewhere(g, w, h - 1, col, false, 0, right);
    LiveAtElsewhere(g, w, h - 1, col, true, 1, left);
    LiveAtElsewhere(g, w, h - 1, col, false, 1, left);
    LiveAtElsewhere(g, w, h - 1, col, true, 1, col);
    LiveAtElsewhere(g, w, h - 1, col, false, 1, col);
    LiveAtElsewhere(g, w, h - 1, col, true, 1, right);
    LiveAtElsewhere(g, w, h - 1, col, false, 1, right);
  }

  /**
   * An in-grid bit of the next generation is the rule applied to that
   * bit's old state and old neighbour count.
   */
  lemma NextGenInGrid(g: seq<bool>, w: nat, h: nat, row: nat, col: nat)
    requires w * h <= |g| && row < h && col < w
    ensures Index(w, row, col) < |g|
    ensures NextGen(g, w, h)[Index(w, row, col)] == Rule(g[Index(w, row, col)], NeighbourCount(g, w, h, row, col))
  {
    IndexInGrid(w, h, row, col);
    IndexDivMod(w, row, col);
  }

  /** A bit past the `w` by `h` grid keeps its value in the next generation. */
  lemma NextGenPastGrid(g: seq<bool>, w: nat, h: nat, i: nat)
    requires w * h <= i < |g|
    ensures NextGen(g, w, h)[i] == g[i]
  {
  }

  /**
   * What one generation must produce, cell by cell: `s` has the length of
   * `g`, each in-grid bit follows the rule on `g`, each bit past the grid
   * is copied from `g`.
   */
  ghost predicate IsNextGen(g: seq<bool>, w: nat, h: nat, s: seq<bool>)
  {
    && |s| == |g|
    && (forall row: nat, col: nat :: row < h && col < w ==>
          Index(w, row, col) < |s| && s[Index(w, row, col)] == Rule(g[Index(w, row, col)], NeighbourCount(g, w, h, row, col)))
    && (forall i :: w * h <= i < |s| ==> s[i] == g[i])
  }

  /** Below `w * h`, the quotient by the width is a row of the grid. */
  lemma RowInGrid(w: nat, h: nat, i: nat)
    requires i < w * h
    ensures w >= 1 && i / w < h
  {
  }

  /** NextGen is the one sequence that meets the cell-by-cell description of a generation. */
  lemma NextGenCharacterised(g: seq<bool>, w: nat, h: nat, s: seq<bool>)
    requires w * h <= |g|
    ensures IsNextGen(g, w, h, s) <==> s == NextGen(g, w, h)
  {
    var next := NextGen(g, w, h);
    forall row: nat, col: nat | row < h && col < w
      ensures Index(w, row, col) < |next|
      ensures next[Index(w, row, col)] == Rule(g[Index(w, row, col)], NeighbourCount(g, w, h, row, col))
    {
      NextGenInGrid(g, w, h, row, col);
    }
    assert IsNextGen(g, w, h, next);
    if IsNextGen(g, w, h, s) {
      forall i | 0 <= i < |s|
        ensures s[i] == next[i]
      {
        if i < w * h {
          RowInGrid(w, h, i);
          IndexOfDivMod(w, i);
          assert s[Index(w, i / w, i % w)] == next[Index(w, i / w, i % w)];
        }
      }
    }
  }
}
