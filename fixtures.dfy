/**
 * The glider fixture of the browser test suite: a glider on a 6 by 6
 * torus advances one generation to its next phase.
 */
module Fixtures {
  import opened Grid
  import opened Life
  import opened GameOfLife

  /** The live cells set before the tick. */
  const GliderBefore: seq<(u32, u32)> := [(1, 2), (2, 3), (3, 1), (3, 2), (3, 3)]

  /** The live cells the test expects after the tick. */
  const GliderAfter: seq<(u32, u32)> := [(2, 1), (2, 3), (3, 2), (3, 3), (4, 2)]

  /** A full-length bit-set whose live bits are exactly `live`. */
  function Pattern(live: set<nat>): (r: seq<bool>)
    ensures |r| == Capacity
    ensures forall i :: 0 <= i < Capacity ==> (r[i] <==> i in live)
  {
    seq(Capacity, i => i in live)
  }

  /** Setting the glider's cells on a dead 6-wide bit-set makes bits 8, 15, 19, 20, 21 live. */
  lemma GliderBeforeBits()
    ensures WithLive(Pattern({}), 6, GliderBefore) == Pattern({8, 15, 19, 20, 21})
  {
    forall i | 0 <= i < Capacity
      ensures Listed(6, GliderBefore, i) <==> i in {8, 15, 19, 20, 21}
    {
      if i == 8 { assert Index(6, GliderBefore[0].0, GliderBefore[0].1) == 8; }
      if i == 15 { assert Index(6, GliderBefore[1].0, GliderBefore[1].1) == 15; }
      if i == 19 { assert Index(6, GliderBefore[2].0, GliderBefore[2].1) == 19; }
      if i == 20 { assert Index(6, GliderBefore[3].0, GliderBefore[3].1) == 20; }
      if i == 21 { assert Index(6, GliderBefore[4].0, GliderBefore[4].1) == 21; }
    }
  }

  /** The expected cells are bits 13, 15, 20, 21, 26. */
  lemma GliderAfterBits()
    ensures WithLive(Pattern({}), 6, GliderAfter) == Pattern({13, 15, 20, 21, 26})
  {
    forall i | 0 <= i < Capacity
      ensures Listed(6, GliderAfter, i) <==> i in {13, 15, 20, 21, 26}
    {
      if i == 13 { assert Index(6, GliderAfter[0].0, GliderAfter[0].1) == 13; }
      if i == 15 { assert Index(6, GliderAfter[1].0, GliderAfter[1].1) == 15; }
      if i == 20 { assert Index(6, GliderAfter[2].0, GliderAfter[2].1) == 20; }
      if i == 21 { assert Index(6, GliderAfter[3].0, GliderAfter[3].1) == 21; }
      if i == 26 { assert Index(6, GliderAfter[4].0, GliderAfter[4].1) == 26; }
    }
  }

  /**
   * The glider's bits one by one: the only live bits of the 6 by 6 grid
   * are 8, 15, 19, 20 and 21.
   */
  lemma GliderBits(g: seq<bool>)
    requires g == Pattern({8, 15, 19, 20, 21})
    ensures |g| == Capacity && g[8] && g[15] && g[19] && g[20] && g[21]
    ensures !g[0] && !g[1] && !g[2] && !g[3] && !g[4] && !g[5] && !g[6] && !g[7] && !g[9]
            && !g[10] && !g[11] && !g[12] && !g[13] && !g[14] && !g[16] && !g[17] && !g[18]
            && !g[22] && !g[23] && !g[24] && !g[25] && !g[26] && !g[27] && !g[28] && !g[29]
            && !g[30] && !g[31] && !g[32] && !g[33] && !g[34] && !g[35]
  {
  }

  /** The glider's neighbour counts along row 0. */
  lemma GliderRowZero(g: seq<bool>)
    requires g == Pattern({8, 15, 19, 20, 21})
    ensures NeighbourCount(g, 6, 6, 0, 0) == 0
    ensures NeighbourCount(g, 6, 6, 0, 1) == 1
    ensures NeighbourCount(g, 6, 6, 0, 2) == 1
    ensures NeighbourCount(g, 6, 6, 0, 3) == 1
    ensures NeighbourCount(g, 6, 6, 0, 4) == 0
    ensures NeighbourCount(g, 6, 6, 0, 5) == 0
  {
    hide NeighbourCount;
    hide Pattern;
    GliderBits(g);
    NeighbourCountExplicit(g, 6, 6, 0, 0);
    NeighbourCountExplicit(g, 6, 6, 0, 1);
    NeighbourCountExplicit(g, 6, 6, 0, 2);
    NeighbourCountExplicit(g, 6, 6, 0, 3);
    NeighbourCountExplicit(g, 6, 6, 0, 4);
    NeighbourCountExplicit(g, 6, 6, 0, 5);
  }

  /** The glider's neighbour counts along row 1. */
  lemma GliderRowOne(g: seq<bool>)
    requires g == Pattern({8, 15, 19, 20, 21})
    ensures NeighbourCount(g, 6, 6, 1, 0) == 0
    ensures NeighbourCount(g, 6, 6, 1, 1) == 1
    ensures NeighbourCount(g, 6, 6, 1, 2) == 1
    ensures NeighbourCount(g, 6, 6, 1, 3) == 2
    ensures NeighbourCount(g, 6, 6, 1, 4) == 1
    ensures NeighbourCount(g, 6, 6, 1, 5) == 0
  {
    hide NeighbourCount;
    hide Pattern;
    GliderBits(g);
    NeighbourCountExplicit(g, 6, 6, 1, 0);
    NeighbourCountExplicit(g, 6, 6, 1, 1);
    NeighbourCountExplicit(g, 6, 6, 1, 2);
    NeighbourCountExplicit(g, 6, 6, 1, 3);
    NeighbourCountExplicit(g, 6, 6, 1, 4);
    NeighbourCountExplicit(g, 6, 6, 1, 5);
  }

  /** The glider's neighbour counts along row 2. */
  lemma GliderRowTwo(g: seq<bool>)
    requires g == Pattern({8, 15, 19, 20, 21})
    ensures NeighbourCount(g, 6, 6, 2, 0) == 1
    ensures NeighbourCount(g, 6, 6, 2, 1) == 3
    ensures NeighbourCount(g, 6, 6, 2, 2) == 5
    ensures NeighbourCount(g, 6, 6, 2, 3) == 3
    ensures NeighbourCount(g, 6, 6, 2, 4) == 2
    ensures NeighbourCount(g, 6, 6, 2, 5) == 0
  {
    hide NeighbourCount;
    hide Pattern;
    GliderBits(g);
    NeighbourCountExplicit(g, 6, 6, 2, 0);
    NeighbourCountExplicit(g, 6, 6, 2, 1);
    NeighbourCountExplicit(g, 6, 6, 2, 2);
    NeighbourCountExplicit(g, 6, 6, 2, 3);
    NeighbourCountExplicit(g, 6, 6, 2, 4);
    NeighbourCountExplicit(g, 6, 6, 2, 5);
  }

  /** The glider's neighbour counts along row 3. */
  lemma GliderRowThree(g: seq<bool>)
    requires g == Pattern({8, 15, 19, 20, 21})
    ensures NeighbourCount(g, 6, 6, 3, 0) == 1
    ensures NeighbourCount(g, 6, 6, 3, 1) == 1
    ensures NeighbourCount(g, 6, 6, 3, 2) == 3
    ensures NeighbourCount(g, 6, 6, 3, 3) == 2
    ensures NeighbourCount(g, 6, 6, 3, 4) == 2
    ensures NeighbourCount(g, 6, 6, 3, 5) == 0
  {
    hide NeighbourCount;
    hide Pattern;
    GliderBits(g);
    NeighbourCountExplicit(g, 6, 6, 3, 0);
    NeighbourCountExplicit(g, 6, 6, 3, 1);
    NeighbourCountExplicit(g, 6, 6, 3, 2);
    NeighbourCountExplicit(g, 6, 6, 3, 3);
    NeighbourCountExplicit(g, 6, 6, 3, 4);
    NeighbourCountExplicit(g, 6, 6, 3, 5);
  }

  /** The glider's neighbour counts along row 4. */
  lemma GliderRowFour(g: seq<bool>)
    requires g == Pattern({8, 15, 19, 20, 21})
    ensures NeighbourCount(g, 6, 6, 4, 0) == 1
    ensures NeighbourCount(g, 6, 6, 4, 1) == 2
    ensures NeighbourCount(g, 6, 6, 4, 2) == 3
    ensures NeighbourCount(g, 6, 6, 4, 3) == 2
    ensures NeighbourCount(g, 6, 6, 4, 4) == 1
    ensures NeighbourCount(g, 6, 6, 4, 5) == 0
  {
    hide NeighbourCount;
    hide Pattern;
    GliderBits(g);
    NeighbourCountExplicit(g, 6, 6, 4, 0);
    NeighbourCountExplicit(g, 6, 6, 4, 1);
    NeighbourCountExplicit(g, 6, 6, 4, 2);
    NeighbourCountExplicit(g, 6, 6, 4, 3);
    NeighbourCountExplicit(g, 6, 6, 4, 4);
    NeighbourCountExplicit(g, 6, 6, 4, 5);
  }

  /** The glider's neighbour counts along row 5. */
  lemma GliderRowFive(g: seq<bool>)
    requires g == Pattern({8, 15, 19, 20, 21})
    ensures NeighbourCount(g, 6, 6, 5, 0) == 0
    ensures NeighbourCount(g, 6, 6, 5, 1) == 0
    ensures NeighbourCount(g, 6, 6, 5, 2) == 0
    ensures NeighbourCount(g, 6, 6, 5, 3) == 0
    ensures NeighbourCount(g, 6, 6, 5, 4) == 0
    ensures NeighbourCount(g, 6, 6, 5, 5) == 0
  {
    hide NeighbourCount;
    hide Pattern;
    GliderBits(g);
    NeighbourCountExplicit(g, 6, 6, 5, 0);
    NeighbourCountExplicit(g, 6, 6, 5, 1);
    NeighbourCountExplicit(g, 6, 6, 5, 2);
    NeighbourCountExplicit(g, 6, 6, 5, 3);
    NeighbourCountExplicit(g, 6, 6, 5, 4);
    NeighbourCountExplicit(g, 6, 6, 5, 5);
  }

  /** One cell of the glider's step. */
  lemma GliderCell(row: nat, col: nat)
    requires row < 6 && col < 6
    ensures NextGen(Pattern({8, 15, 19, 20, 21}), 6, 6)[Index(6, row, col)]
         == (Index(6, row, col) in {13, 15, 20, 21, 26})
  {
    hide NeighbourCount;
    hide Pattern;
    var g := Pattern({8, 15, 19, 20, 21});
    NextGenInGrid(g, 6, 6, row, col);
    GliderBits(g);
    GliderRowZero(g);
    GliderRowOne(g);
    GliderRowTwo(g);
    GliderRowThree(g);
    GliderRowFour(g);
    GliderRowFive(g);
    if col == 0 {
    } else if col == 1 {
    } else if col == 2 {
    } else if col == 3 {
    } else if col == 4 {
    } else {
    }
  }

  /** The glider on a 6 by 6 torus moves to its next phase in one generation. */
  lemma GliderStep()
    ensures NextGen(WithLive(Pattern({}), 6, GliderBefore), 6, 6) == WithLive(Pattern({}), 6, GliderAfter)
  {
    GliderBeforeBits();
    GliderAfterBits();
    var g := Pattern({8, 15, 19, 20, 21});
    forall i | 0 <= i < Capacity
      ensures NextGen(g, 6, 6)[i] == Pattern({13, 15, 20, 21, 26})[i]
    {
      if i < 36 {
        IndexOfDivMod(6, i);
        GliderCell(i / 6, i % 6);
      } else {
        NextGenPastGrid(g, 6, 6, i);
      }
    }
  }

  /** A fresh universe resized to 6 by 6: every bit dead. */
  method DeadSixBySix() returns (u: Universe)
    ensures fresh(u) && fresh(u.cells) && u.Valid() && u.Fits()
    ensures u.width == 6 && u.height == 6
    ensures u.cells[..] == Pattern({})
  {
    u := new Universe();
    u.SetWidth(6);
    u.SetHeight(6);
    assert u.cells[..] == Pattern({});
  }

  /**
   * The browser test of `tick`: the glider set on one universe, ticked,
   * has the same bits as the expected phase set on another.
   */
  method TestTick() returns (same: bool)
    ensures same
  {
    var input := DeadSixBySix();
    input.SetCells(GliderBefore);
    input.Tick();
    var expected := DeadSixBySix();
    expected.SetCells(GliderAfter);
    GliderStep();
    same := input.cells[..] == expected.cells[..];
  }

  /** Toggling the same cell twice gives back the bit-set it started from. */
  method ToggleTwice(u: Universe, row: u32, col: u32)
    requires u.Valid() && u.width >= 1 && u.height >= 1
    requires WrappedIndex(u.width, u.height, row, col) < u.cells.Length
    modifies u.cells
    ensures u.cells[..] == old(u.cells[..])
  {
    u.ToggleCell(row, col);
    u.ToggleCell(row, col);
  }

  /** Toggling row `height` flips the bit of row 0 in the same column. */
  method ToggleBottomEdge(u: Universe, col: u32)
    requires u.Valid() && u.width >= 1 && u.height >= 1
    requires WrappedIndex(u.width, u.height, 0, col) < u.cells.Length
    modifies u.cells
    ensures var idx := WrappedIndex(u.width, u.height, 0, col);
      u.cells[..] == old(u.cells[..])[idx := !old(u.cells[idx])]
  {
    WrappedRowWraps(u.width, u.height, col);
    u.ToggleCell(u.height, col);
  }

  /** Clearing twice leaves what clearing once leaves: no live cell, the same dimensions. */
  method ClearTwice(u: Universe)
    requires u.Valid()
    modifies u.cells
    ensures u.width == old(u.width) && u.height == old(u.height)
    ensures u.cells[..] == seq(u.cells.Length, _ => false)
  {
    u.Clear();
    ghost var once := u.cells[..];
    u.Clear();
    assert u.cells[..] == once == seq(u.cells.Length, _ => false);
  }
}
