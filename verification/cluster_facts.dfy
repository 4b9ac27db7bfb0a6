/** What a cluster state computed by recomputeClusters means: clusters are
    exactly the connected components of the mated-neighbour relation, they
    move rigidly (every member is displaced from home by the same vector),
    and the solved board is one single cluster. Also the two lookups the
    move validator uses. */
module ClusterFacts {
  import opened Grid
  import opened Seqs
  import opened Boards
  import opened Clusters

  /** The result of getClusterFromIndex. */
  datatype Cluster = Cluster(root: nat, members: seq<nat>)

  /** Two tiles share a root exactly when a chain of mated neighbours joins
      their cells. */
  lemma SameRootIffConnected(g: Grid, board: seq<nat>, cs: ClusterState, t: nat, u: nat)
    requires g.Valid() && ClustersOf(g, board, cs) && t < |board| && u < |board|
    ensures cs.rootByTileId[t] == cs.rootByTileId[u] <==> Connected(g, board, t, u)
  {
    var rootBy := cs.rootByTileId;
    if rootBy[t] == rootBy[u] {
      var r := rootBy[t];
      assert Connected(g, board, t, r);
      assert Connected(g, board, u, r);
      var p :| Links(g, board, p, t, r);
      var q :| Links(g, board, q, u, r);
      ReverseLinks(g, board, q, u, r);
      JoinLinks(g, board, p, Reverse(q), t, r, u);
    }
    if Connected(g, board, t, u) {
      var p :| Links(g, board, p, t, u);
      ChainSameRoot(g, board, rootBy, p);
    }
  }

  /** Clusters are determined by the board: two cluster states that both
      describe it group the tiles identically. */
  lemma ClustersUnique(g: Grid, board: seq<nat>, cs1: ClusterState, cs2: ClusterState, t: nat, u: nat)
    requires g.Valid() && ClustersOf(g, board, cs1) && ClustersOf(g, board, cs2)
    requires t < |board| && u < |board|
    ensures cs1.rootByTileId[t] == cs1.rootByTileId[u] <==> cs2.rootByTileId[t] == cs2.rootByTileId[u]
  {
    SameRootIffConnected(g, board, cs1, t, u);
    SameRootIffConnected(g, board, cs2, t, u);
  }

  /** The cell where tile t sits. */
  function PositionOf(board: seq<nat>, t: nat): (c: nat)
    requires t in board
    ensures c < |board| && board[c] == t
  {
    IndexOf(board, t)
  }

  /** Clusters are rigid: all members of one cluster are displaced from
      their solved cells by the same vector. */
  lemma ClusterIsRigid(g: Grid, board: seq<nat>, cs: ClusterState, t: nat, u: nat)
    requires g.Valid() && ClustersOf(g, board, cs) && t < |board| && u < |board|
    requires cs.rootByTileId[t] == cs.rootByTileId[u]
    ensures t in board && u in board
    ensures Displacement(g, board, PositionOf(board, t)) == Displacement(g, board, PositionOf(board, u))
  {
    SameRootIffConnected(g, board, cs, t, u);
    var p :| Links(g, board, p, t, u);
    ChainSameDisplacement(g, board, p);
    assert t in board && u in board;
    assert Distinct(board);
  }

  /** getClusterFromIndex: the root of the tile on cell index and its member
      list, falling back to the tile alone when the root has no list. */
  function GetClusterFromIndex(cs: ClusterState, board: seq<nat>, index: nat): (c: Cluster)
    requires index < |board| && board[index] < |cs.rootByTileId|
    ensures Partition(cs, |cs.rootByTileId|) ==> board[index] in c.members
  {
    var tileId := board[index];
    var root := cs.rootByTileId[tileId];
    if root in cs.membersByRoot then Cluster(root, cs.membersByRoot[root])
    else Cluster(root, [tileId])
  }

  /** The cluster under a cell is the connected component of its tile. */
  lemma ClusterIsComponent(g: Grid, board: seq<nat>, cs: ClusterState, index: nat, t: nat)
    requires g.Valid() && ClustersOf(g, board, cs) && index < |board|
    ensures t in GetClusterFromIndex(cs, board, index).members <==>
              t < |board| && Connected(g, board, board[index], t)
  {
    var c := GetClusterFromIndex(cs, board, index);
    if t in c.members {
      var i :| 0 <= i < |c.members| && c.members[i] == t;
      SameRootIffConnected(g, board, cs, board[index], t);
    }
    if t < |board| && Connected(g, board, board[index], t) {
      SameRootIffConnected(g, board, cs, board[index], t);
    }
  }

  /** clusterHasLockedTile: whether any member is in the lock set. */
  function ClusterHasLockedTile(members: seq<nat>, locked: set<nat>): (has: bool)
    ensures has <==> exists i :: 0 <= i < |members| && members[i] in locked
  {
    if |members| == 0 then false
    else if members[0] in locked then true
    else
      var rest := ClusterHasLockedTile(members[1..], locked);
      assert forall i :: 1 <= i < |members| ==> members[i] == members[1..][i - 1];
      rest
  }

  /** On the solved board every pair of neighbouring cells is mated. */
  lemma IdentityMated(g: Grid, a: nat, b: nat)
    requires g.Valid() && a < g.Size() && b < g.Size()
    requires Adjacent(IndexToRowCol(g, a), IndexToRowCol(g, b))
    ensures IsMatedPair(g, Identity(g.Size()), a, b)
  {
  }

  /** Every cell but the first has an earlier neighbour: the one to its
      left, or the one above when it starts a row. */
  lemma EarlierNeighbour(g: Grid, t: nat) returns (prev: nat)
    requires g.Valid() && 0 < t < g.Size()
    ensures prev < t && Adjacent(IndexToRowCol(g, prev), IndexToRowCol(g, t))
  {
    var c := IndexToRowCol(g, t);
    IndexRoundTrip(g, t);
    assert t == c.row * g.cols + c.col;
    var p: Cell;
    if c.col > 0 {
      p := Cell(c.row, c.col - 1);
      assert RowColToIndex(g, p) == t - 1;
    } else {
      assert c.row > 0;
      p := Cell(c.row - 1, c.col);
      assert (c.row - 1) * g.cols == c.row * g.cols - g.cols;
      assert RowColToIndex(g, p) == t - g.cols;
    }
    CellRoundTrip(g, p);
    prev := RowColToIndex(g, p) as nat;
  }

  /** Tags that agree on every pair of neighbouring cells agree
      everywhere. */
  lemma {:induction false} NeighbourAgreement(g: Grid, tag: seq<nat>, t: nat)
    requires g.Valid() && |tag| == g.Size() && t < g.Size()
    requires forall a, b ::
               0 <= a < g.Size() && 0 <= b < g.Size() && Adjacent(IndexToRowCol(g, a), IndexToRowCol(g, b))
               ==> tag[a] == tag[b]
    ensures tag[t] == tag[0]
    decreases t
  {
    if t > 0 {
      var prev := EarlierNeighbour(g, t);
      NeighbourAgreement(g, tag, prev);
    }
  }

  /** On the solved board every tile shares tile 0's root: the whole
      picture is one cluster. */
  lemma IdentityOneCluster(g: Grid, cs: ClusterState, t: nat)
    requires g.Valid() && ClustersOf(g, Identity(g.Size()), cs) && t < g.Size()
    ensures cs.rootByTileId[t] == cs.rootByTileId[0]
  {
    var board := Identity(g.Size());
    forall a, b | 0 <= a < g.Size() && 0 <= b < g.Size() && Adjacent(IndexToRowCol(g, a), IndexToRowCol(g, b))
      ensures cs.rootByTileId[a] == cs.rootByTileId[b]
    {
      IdentityMated(g, a, b);
      assert board[a] == a && board[b] == b;
    }
    NeighbourAgreement(g, cs.rootByTileId, t);
  }
}
