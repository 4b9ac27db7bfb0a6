/** The game state around the engine: a shuffle starts a game, and each
    completed drag either commits a move (counting it, locking the tiles
    now at home, regrouping the clusters and noticing a solved board) or
    leaves everything as it was. */
module Session {
  import opened Grid
  import opened Seqs
  import opened Boards
  import opened Clusters
  import opened ClusterFacts
  import opened Move
  import opened Locking
  import opened Shuffle

  /** The state the engine keeps between drags. */
  datatype Session = Session(g: Grid, board: seq<nat>, cs: ClusterState, locked: set<nat>, moves: nat, solved: bool)

  /** dragState as far as completing a move reads it: whether a drag is in
      progress, the tile picked up, and the cell under the pointer (-1 when
      the pointer is off the board). */
  datatype Drag = Drag(active: bool, draggedTileId: nat, targetIndex: int)

  /** What every reachable state satisfies: the clusters are those of the
      board, every locked tile is at home, and the solved flag tells the
      truth. */
  ghost predicate Consistent(s: Session) {
    && s.g.Valid()
    && ClustersOf(s.g, s.board, s.cs)
    && LockedAtHome(s.board, s.locked)
    && (s.solved <==> Solved(s.board))
  }

  /** A non-zero translation pushes some cell of the grid off it: a corner
      on the side the translation points to. */
  lemma CornerLeaves(g: Grid, delta: Cell) returns (t: nat)
    requires g.Valid() && delta != Cell(0, 0)
    ensures t < g.Size() && !InGrid(g, Shifted(g, t, delta))
  {
    var corner: Cell;
    if delta.row > 0 {
      corner := Cell(g.rows - 1, 0);
    } else if delta.row < 0 || delta.col < 0 {
      corner := Cell(0, 0);
    } else {
      corner := Cell(0, g.cols - 1);
    }
    CellRoundTrip(g, corner);
    t := RowColToIndex(g, corner) as nat;
  }

  /** On the solved board the dragged tile's cluster holds every tile. */
  lemma SolvedClusterIsEverything(g: Grid, cs: ClusterState, draggedTileId: nat, t: nat)
    requires g.Valid() && ClustersOf(g, Identity(g.Size()), cs)
    requires draggedTileId < g.Size() && t < g.Size()
    ensures t in DraggedMembers(cs, draggedTileId)
  {
    IdentityOneCluster(g, cs, t);
    IdentityOneCluster(g, cs, draggedTileId);
  }

  /** On the solved board every drag is refused: the whole picture is one
      cluster, and translating all of it by a non-zero vector pushes a
      corner tile off the grid. */
  lemma SolvedRefusesMoves(g: Grid, cs: ClusterState, locked: set<nat>, draggedTileId: nat, dropCellIndex: nat)
    requires g.Valid() && ClustersOf(g, Identity(g.Size()), cs) && draggedTileId < g.Size()
    ensures TryRigidTranslateSwap(g, Identity(g.Size()), cs, locked, draggedTileId, dropCellIndex).Rejected?
  {
    var board := Identity(g.Size());
    var members := DraggedMembers(cs, draggedTileId);
    MoveAcceptedIff(g, board, cs, locked, draggedTileId, dropCellIndex);
    if TryRigidTranslateSwap(g, board, cs, locked, draggedTileId, dropCellIndex).Moved? {
      var delta := Translation(g, board, draggedTileId, dropCellIndex);
      assert delta != Cell(0, 0) && LandsOnGrid(g, board, members, delta);
      var t := CornerLeaves(g, delta);
      SolvedClusterIsEverything(g, cs, draggedTileId, t);
      assert false;
    }
  }

  /** shuffleBoard followed by the regrouping and the reset of the
      counters it triggers. */
  method NewGame(g: Grid, swaps: seq<(nat, nat)>) returns (s: Session)
    requires g.Valid()
    requires |swaps| == SwapCount(g.Size()) && ValidDraws(swaps, g.Size())
    ensures Consistent(s)
    ensures s.g == g && s.locked == {} && s.moves == 0 && !s.solved
  {
    var board, locked := ShuffleBoard(g, swaps);
    var cs := RecomputeClusters(g, board);
    s := Session(g, board, cs, locked, 0, false);
  }

  /** completeMoveIfNeeded: a drag dropped on a cell is offered to the
      move validator; only a successful move changes the state. */
  method CompleteMove(s: Session, drag: Drag) returns (s': Session, moved: bool)
    requires Consistent(s)
    requires drag.active ==> drag.draggedTileId < s.g.Size()
    ensures Consistent(s')
    ensures moved <==> && drag.active && drag.targetIndex >= 0
                       && TryRigidTranslateSwap(s.g, s.board, s.cs, s.locked, drag.draggedTileId, drag.targetIndex as nat).Moved?
    ensures !moved ==> s' == s
    ensures moved ==>
              && s'.g == s.g && s'.moves == s.moves + 1
              && s'.board == TryRigidTranslateSwap(s.g, s.board, s.cs, s.locked, drag.draggedTileId, drag.targetIndex as nat).board
              && s'.locked == s.locked + AtHome(s'.board)
    ensures s.locked <= s'.locked
    ensures s.solved ==> !moved
  {
    if !drag.active {
      return s, false;
    }
    var result := Rejected(EmptyCluster);
    if drag.targetIndex >= 0 {
      result := TryRigidTranslateSwap(s.g, s.board, s.cs, s.locked, drag.draggedTileId, drag.targetIndex as nat);
    }
    if s.solved {
      SolvedIffIdentity(s.board);
      if drag.targetIndex >= 0 {
        SolvedRefusesMoves(s.g, s.cs, s.locked, drag.draggedTileId, drag.targetIndex as nat);
      }
    }
    if !result.Moved? {
      return s, false;
    }
    var next := result.board;
    MovedBoard(s.g, s.board, s.cs, s.locked, drag.draggedTileId, drag.targetIndex as nat);
    assert LockedAtHome(next, s.locked) by {
      forall t: nat | t in s.locked ensures t < |next| && next[t] == t {
        assert s.board[t] == t;
      }
    }
    var locked := LockCorrectTilesNow(next, s.locked);
    var cs := RecomputeClusters(s.g, next);
    var solvedNow := IsSolved(next);
    s' := Session(s.g, next, cs, locked, s.moves + 1, if solvedNow then true else s.solved);
    moved := true;
  }
}
