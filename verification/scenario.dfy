/** A worked example on the 2x2 board [1, 0, 2, 3]: tiles 0 and 1 are
    swapped, tiles 2 and 3 are home. */
module Scenario {
  import opened Grid
  import opened Seqs
  import opened Boards
  import opened Clusters
  import opened ClusterFacts
  import opened Move

  /** The swapped board, given by its entries. */
  predicate IsSwapped(b: seq<nat>) {
    |b| == 4 && b[0] == 1 && b[1] == 0 && b[2] == 2 && b[3] == 3
  }

  /** The example board is a permutation and is not solved. */
  lemma SwappedBoard()
    ensures Grid(2, 2).Valid() && Grid(2, 2).Size() == 4
    ensures IsPermutation([1, 0, 2, 3], 4) && !Solved([1, 0, 2, 3])
  {
    var b: seq<nat> := [1, 0, 2, 3];
    assert b[0] != 0;
  }

  /** Where each tile of [1, 0, 2, 3] sits: the board is its own
      inverse. */
  lemma SwappedPositions(b: seq<nat>)
    requires IsSwapped(b)
    ensures IsPermutation(b, 4) && TileIndexMap(b) == b
  {
    assert IsPermutation(b, 4) by {
      assert b[0] == 1 && b[1] == 0 && b[2] == 2 && b[3] == 3;
    }
    var p := TileIndexMap(b);
    assert p[1] == 0 by { assert b[0] == 1; }
    assert p[0] == 1 by { assert b[1] == 0; }
    assert p[2] == 2 by { assert b[2] == 2; }
    assert p[3] == 3 by { assert b[3] == 3; }
  }

  /** With tile 1 in a cluster of its own, its member list is [1]. */
  lemma MembersOfLoneOne(cs: ClusterState)
    requires Partition(cs, 4)
    requires cs.rootByTileId[0] != cs.rootByTileId[1] && cs.rootByTileId[1] != cs.rootByTileId[2]
    requires cs.rootByTileId[2] == cs.rootByTileId[3]
    ensures DraggedMembers(cs, 1) == [1]
  {
    var m := DraggedMembers(cs, 1);
    forall i | 0 <= i < |m| ensures m[i] == 1 {
      assert cs.rootByTileId[m[i]] == cs.rootByTileId[1] && m[i] < 4;
    }
    assert Elems(m) == Elems([1]) by {
      assert 1 in m;
    }
    AscendingUnique(m, [1]);
  }

  /** With tiles 2 and 3 together and apart from 0 and 1, the member list
      of tile 2 is [2, 3]. */
  lemma MembersOfHomePair(cs: ClusterState)
    requires Partition(cs, 4)
    requires cs.rootByTileId[0] != cs.rootByTileId[2] && cs.rootByTileId[1] != cs.rootByTileId[2]
    requires cs.rootByTileId[2] == cs.rootByTileId[3]
    ensures DraggedMembers(cs, 2) == [2, 3]
  {
    var m := DraggedMembers(cs, 2);
    forall i | 0 <= i < |m| ensures m[i] == 2 || m[i] == 3 {
      assert cs.rootByTileId[m[i]] == cs.rootByTileId[2] && m[i] < 4;
    }
    assert Elems(m) == Elems([2, 3]) by {
      assert cs.rootByTileId[3] in cs.membersByRoot;
      assert 2 in m && 3 in m;
    }
    AscendingUnique(m, [2, 3]);
  }

  /** The second half of dragging tile 1 onto cell 2: cell 0 is vacated,
      cell 2 newly covered, and their tiles trade places. */
  lemma SwapWithTileTwo(b: seq<nat>)
    requires IsSwapped(b)
    ensures Relocate(b, {}, [1], [0], [2]) == Moved([2, 0, 1, 3])
  {
    assert Vacated([0], [2]) == [0];
    assert NewOnly([0], [2]) == [2];
    assert Sort([0]) == [0] && Sort([2]) == [2];
    var moved := WriteAll(b, [2], [1]);
    assert moved == [1, 0, 1, 3] by {
      assert WriteAll(b, [2], [1]) == WriteAll(b[2 := 1], [], []);
    }
    var next := WriteAll(moved, [0], [2]);
    assert next == [2, 0, 1, 3] by {
      assert WriteAll(moved, [0], [2]) == WriteAll(moved[0 := 2], [], []);
    }
    assert Rearrange(b, [0], [2], [0], [2]) == next;
    assert !DisplacesLockedTile(b, {}, [1], [2]);
    assert !MovesLockedTile(b, next, {});
  }

  // ---------------------------------------------------------------------
  // The clusters and the drag, derived from the board

  /** A 2x2 grid. The grid is a parameter, so the cell arithmetic stays
      symbolic. */
  predicate TwoByTwo(g: Grid) {
    g.rows == 2 && g.cols == 2
  }

  /** Where the four cells of a 2x2 grid sit. */
  lemma Corners(g: Grid)
    requires TwoByTwo(g)
    ensures g.Valid() && g.Size() == 4
    ensures IndexToRowCol(g, 0).row == 0 && IndexToRowCol(g, 0).col == 0
    ensures IndexToRowCol(g, 1).row == 0 && IndexToRowCol(g, 1).col == 1
    ensures IndexToRowCol(g, 2).row == 1 && IndexToRowCol(g, 2).col == 0
    ensures IndexToRowCol(g, 3).row == 1 && IndexToRowCol(g, 3).col == 1
  {
  }

  /** Cell c has no mated neighbour. */
  predicate Unmated(g: Grid, board: seq<nat>, c: nat)
    requires g.Valid() && c < |board|
  {
    forall d :: 0 <= d < |board| ==> !IsMatedPair(g, board, c, d)
  }

  /** Cells 0 and 1 of [1, 0, 2, 3] have no mated neighbour: tiles 0 and
      1 are each displaced sideways, in opposite directions, while tiles 2
      and 3 are home. */
  lemma SwappedUnmated(g: Grid, b: seq<nat>, c: nat)
    requires TwoByTwo(g) && IsSwapped(b) && c < 2
    ensures g.Valid() && Unmated(g, b, c)
  {
    Corners(g);
  }

  /** Cells 2 and 3 of [1, 0, 2, 3] are mated: both tiles are home. */
  lemma HomeCellsMated(g: Grid, b: seq<nat>)
    requires TwoByTwo(g) && IsSwapped(b)
    ensures g.Valid() && IsMatedPair(g, b, 2, 3)
  {
    Corners(g);
  }

  /** A cell with no mated neighbour is a chain on its own: the tile on it
      is connected to nothing but itself. */
  lemma Isolated(g: Grid, board: seq<nat>, c: nat, u: nat)
    requires g.Valid() && c < |board| && Distinct(board)
    requires Unmated(g, board, c)
    requires Connected(g, board, board[c], u)
    ensures u == board[c]
  {
    var p :| Links(g, board, p, board[c], u);
    assert p[0] == c;
    if |p| > 1 {
      // The chain's second cell would be a mated neighbour of c.
      var d := p[1];
      assert false;
    }
  }

  /** Tile t, on a cell with no mated neighbour, is a cluster of its own. */
  lemma LoneTile(g: Grid, board: seq<nat>, cs: ClusterState, c: nat, t: nat, u: nat)
    requires g.Valid() && ClustersOf(g, board, cs) && c < |board| && u < |board|
    requires board[c] == t && u != t && Unmated(g, board, c)
    ensures cs.rootByTileId[t] != cs.rootByTileId[u]
  {
    SameRootIffConnected(g, board, cs, t, u);
    if Connected(g, board, t, u) {
      Isolated(g, board, c, u);
    }
  }

  /** The tiles on two mated cells share a cluster. */
  lemma MatedTogether(g: Grid, board: seq<nat>, cs: ClusterState, a: nat, b: nat)
    requires g.Valid() && ClustersOf(g, board, cs) && a < |board| && b < |board|
    requires IsMatedPair(g, board, a, b)
    ensures cs.rootByTileId[board[a]] == cs.rootByTileId[board[b]]
  {
    assert Links(g, board, [a, b], board[a], board[b]);
    SameRootIffConnected(g, board, cs, board[a], board[b]);
  }

  /** The clusters of [1, 0, 2, 3], derived from the board alone: tiles 0
      and 1 are each alone, and tiles 2 and 3 are together. */
  lemma SwappedClusters(g: Grid, b: seq<nat>, cs: ClusterState)
    requires TwoByTwo(g) && IsSwapped(b) && g.Valid() && ClustersOf(g, b, cs)
    ensures cs.rootByTileId[0] != cs.rootByTileId[1]
    ensures cs.rootByTileId[0] != cs.rootByTileId[2] && cs.rootByTileId[1] != cs.rootByTileId[2]
    ensures cs.rootByTileId[2] == cs.rootByTileId[3]
  {
    SwappedUnmated(g, b, 0);
    LoneTile(g, b, cs, 0, 1, 0);
    LoneTile(g, b, cs, 0, 1, 2);
    SwappedUnmated(g, b, 1);
    LoneTile(g, b, cs, 1, 0, 2);
    HomeCellsMated(g, b);
    MatedTogether(g, b, cs, 2, 3);
  }

  /** Dragging tile 1 takes it alone. */
  lemma TileOneAlone(g: Grid, b: seq<nat>, cs: ClusterState)
    requires TwoByTwo(g) && IsSwapped(b) && g.Valid() && ClustersOf(g, b, cs)
    ensures DraggedMembers(cs, 1) == [1]
  {
    SwappedClusters(g, b, cs);
    MembersOfLoneOne(cs);
  }

  /** Dragging tile 2 takes the home pair. */
  lemma HomePairTogether(g: Grid, b: seq<nat>, cs: ClusterState)
    requires TwoByTwo(g) && IsSwapped(b) && g.Valid() && ClustersOf(g, b, cs)
    ensures DraggedMembers(cs, 2) == [2, 3]
  {
    SwappedClusters(g, b, cs);
    MembersOfHomePair(cs);
  }

  /** Dropping tile 1, which sits on cell 0, onto cell 2 is a translation
      one row down. */
  lemma DragDown(g: Grid, b: seq<nat>)
    requires TwoByTwo(g) && IsSwapped(b)
    ensures g.Valid() && IsPermutation(b, g.Size())
    ensures Translation(g, b, 1, 2).row == 1 && Translation(g, b, 1, 2).col == 0
  {
    Corners(g);
    SwappedPositions(b);
  }
}
