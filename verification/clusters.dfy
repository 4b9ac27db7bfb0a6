/** The cluster engine: which neighbouring tiles are "mated" (sit relative to
    each other as they do in the solved picture), and the partition of tile
    ids into clusters that recomputeClusters builds with union-find. */
module Clusters {
  import opened Grid
  import opened Seqs
  import opened Boards
  import opened UnionFind

  /** isMatedPair: cells a and b are 4-neighbours and the tiles on them sit
      in the same relative position in the solved picture. */
  function IsMatedPair(g: Grid, board: seq<nat>, a: nat, b: nat): (mated: bool)
    requires g.Valid() && a < |board| && b < |board|
    ensures mated ==> Adjacent(IndexToRowCol(g, a), IndexToRowCol(g, b))
  {
    var ca := IndexToRowCol(g, a);
    var cb := IndexToRowCol(g, b);
    var dRow := cb.row - ca.row;
    var dCol := cb.col - ca.col;
    if Abs(dRow) + Abs(dCol) != 1 then false
    else
      var sa := IndexToRowCol(g, board[a]);
      var sb := IndexToRowCol(g, board[b]);
      sb.row - sa.row == dRow && sb.col - sa.col == dCol
  }

  /** How far the tile on cell c sits from its own (solved) cell. */
  function Displacement(g: Grid, board: seq<nat>, c: nat): Cell
    requires g.Valid() && c < |board|
  {
    Sub(IndexToRowCol(g, c), IndexToRowCol(g, board[c]))
  }

  /** Two cells are mated exactly when they are neighbours whose tiles are
      displaced from home by the same vector. */
  lemma MatedIffSameDisplacement(g: Grid, board: seq<nat>, a: nat, b: nat)
    requires g.Valid() && a < |board| && b < |board|
    ensures IsMatedPair(g, board, a, b) <==>
              Adjacent(IndexToRowCol(g, a), IndexToRowCol(g, b))
              && Displacement(g, board, a) == Displacement(g, board, b)
  {
  }

  lemma MatedSymmetric(g: Grid, board: seq<nat>, a: nat, b: nat)
    requires g.Valid() && a < |board| && b < |board|
    ensures IsMatedPair(g, board, a, b) == IsMatedPair(g, board, b, a)
  {
  }

  // ---------------------------------------------------------------------
  // Chains of mated cells

  /** A path of cells in which consecutive cells are mated. */
  ghost predicate IsChain(g: Grid, board: seq<nat>, path: seq<nat>)
    requires g.Valid()
  {
    && (forall i :: 0 <= i < |path| ==> path[i] < |board|)
    && (forall i :: 0 <= i < |path| - 1 ==> IsMatedPair(g, board, path[i], path[i + 1]))
  }

  /** The chain `path` leads from the cell of tile t to the cell of tile u. */
  ghost predicate Links(g: Grid, board: seq<nat>, path: seq<nat>, t: nat, u: nat)
    requires g.Valid()
  {
    && |path| > 0
    && IsChain(g, board, path)
    && board[path[0]] == t
    && board[path[|path| - 1]] == u
  }

  /** Tile u is reachable from tile t through mated neighbours. */
  ghost predicate Connected(g: Grid, board: seq<nat>, t: nat, u: nat)
    requires g.Valid()
  {
    exists path :: Links(g, board, path, t, u)
  }

  ghost function Join(p: seq<nat>, q: seq<nat>): seq<nat>
    requires |q| > 0
  {
    p + q[1..]
  }

  ghost function Reverse(p: seq<nat>): (r: seq<nat>)
    ensures |r| == |p|
    ensures forall i :: 0 <= i < |p| ==> r[i] == p[|p| - 1 - i]
  {
    seq(|p|, i requires 0 <= i < |p| => p[|p| - 1 - i])
  }

  lemma JoinLinks(g: Grid, board: seq<nat>, p: seq<nat>, q: seq<nat>, t: nat, u: nat, w: nat)
    requires g.Valid() && Distinct(board)
    requires Links(g, board, p, t, u) && Links(g, board, q, u, w)
    ensures Links(g, board, Join(p, q), t, w)
  {
    assert p[|p| - 1] == q[0];
    var r := Join(p, q);
    forall i | 0 <= i < |r| - 1 ensures IsMatedPair(g, board, r[i], r[i + 1]) {
      if i < |p| - 1 {
        assert r[i] == p[i] && r[i + 1] == p[i + 1];
      } else {
        assert r[i] == q[i - |p| + 1] && r[i + 1] == q[i - |p| + 2];
      }
    }
  }

  lemma ReverseLinks(g: Grid, board: seq<nat>, p: seq<nat>, t: nat, u: nat)
    requires g.Valid() && Links(g, board, p, t, u)
    ensures Links(g, board, Reverse(p), u, t)
  {
    var r := Reverse(p);
    forall i | 0 <= i < |r| - 1 ensures IsMatedPair(g, board, r[i], r[i + 1]) {
      var j := |p| - 2 - i;
      assert IsMatedPair(g, board, p[j], p[j + 1]);
      MatedSymmetric(g, board, p[j], p[j + 1]);
    }
  }

  /** Every tile of a chain is in the same union-find set once the forest
      agrees with every mated pair. */
  lemma {:induction false} ChainSameRoot(g: Grid, board: seq<nat>, rootBy: seq<nat>, path: seq<nat>)
    requires g.Valid() && |path| > 0 && IsChain(g, board, path)
    requires forall i :: 0 <= i < |board| ==> board[i] < |rootBy|
    requires forall a, b :: 0 <= a < |board| && 0 <= b < |board| && IsMatedPair(g, board, a, b) ==>
               rootBy[board[a]] == rootBy[board[b]]
    ensures rootBy[board[path[0]]] == rootBy[board[path[|path| - 1]]]
  {
    if |path| > 1 {
      var p := path[..|path| - 1];
      assert IsChain(g, board, p);
      ChainSameRoot(g, board, rootBy, p);
      assert IsMatedPair(g, board, path[|path| - 2], path[|path| - 1]);
    }
  }

  /** Every tile of a chain is displaced from home by the same vector. */
  lemma {:induction false} ChainSameDisplacement(g: Grid, board: seq<nat>, path: seq<nat>)
    requires g.Valid() && |path| > 0 && IsChain(g, board, path)
    ensures Displacement(g, board, path[0]) == Displacement(g, board, path[|path| - 1])
  {
    if |path| > 1 {
      var p := path[..|path| - 1];
      assert IsChain(g, board, p);
      ChainSameDisplacement(g, board, p);
      MatedIffSameDisplacement(g, board, path[|path| - 2], path[|path| - 1]);
    }
  }

  // ---------------------------------------------------------------------
  // Cluster state

  /** clusterState: the root of every tile id, and the ascending list of
      member tile ids of every root. */
  datatype ClusterState = ClusterState(rootByTileId: seq<nat>, membersByRoot: map<nat, seq<nat>>)

  /** The cluster state partitions the tile ids [0, n): every tile is listed
      exactly once, in the list keyed by its own root, and every root is a
      member of its own non-empty cluster. */
  predicate Partition(cs: ClusterState, n: nat) {
    && |cs.rootByTileId| == n
    && (forall t :: 0 <= t < n ==>
          cs.rootByTileId[t] in cs.membersByRoot && t in cs.membersByRoot[cs.rootByTileId[t]])
    && (forall r :: r in cs.membersByRoot ==>
          && r < n && cs.rootByTileId[r] == r
          && StrictlyIncreasing(cs.membersByRoot[r])
          && (forall i :: 0 <= i < |cs.membersByRoot[r]| ==>
                cs.membersByRoot[r][i] < n && cs.rootByTileId[cs.membersByRoot[r][i]] == r))
  }

  /** Tiles on mated cells share a cluster. */
  ghost predicate Sound(g: Grid, board: seq<nat>, cs: ClusterState)
    requires g.Valid() && IsPermutation(board, |cs.rootByTileId|)
  {
    forall a, b {:trigger IsMatedPair(g, board, a, b)} :: 0 <= a < |board| && 0 <= b < |board| && IsMatedPair(g, board, a, b) ==>
      cs.rootByTileId[board[a]] == cs.rootByTileId[board[b]]
  }

  /** Every tile is joined to its cluster's root by a chain of mated cells. */
  ghost predicate Complete(g: Grid, board: seq<nat>, cs: ClusterState)
    requires g.Valid() && IsPermutation(board, |cs.rootByTileId|)
  {
    forall t :: 0 <= t < |board| ==> Connected(g, board, t, cs.rootByTileId[t])
  }

  /** cs describes exactly the clusters of board: the connected components
      of the mated-neighbour relation. */
  ghost predicate ClustersOf(g: Grid, board: seq<nat>, cs: ClusterState)
    requires g.Valid()
  {
    && IsPermutation(board, g.Size())
    && Partition(cs, g.Size())
    && Sound(g, board, cs)
    && Complete(g, board, cs)
  }

  // ---------------------------------------------------------------------
  // recomputeClusters

  /** Scan invariant: each tile's chain leads to its current union-find root. */
  ghost predicate ChainsTo(g: Grid, board: seq<nat>, uf: UF, chains: seq<seq<nat>>)
    requires g.Valid()
  {
    && Valid(uf) && uf.Size() == |board| && |chains| == |board|
    && (forall i :: 0 <= i < |board| ==> board[i] < |board|)
    && (forall t :: 0 <= t < |board| ==> Links(g, board, chains[t], t, Root(uf, t)))
  }

  /** The chains after union(board[ca], board[cb]) for mated cells ca, cb:
      a tile whose set is relabelled reaches the new root through its old
      root, the mated pair, and the other tile's old root. */
  ghost function Relink(g: Grid, board: seq<nat>, uf: UF, uf': UF, chains: seq<seq<nat>>, ca: nat, cb: nat)
    : seq<seq<nat>>
    requires g.Valid() && ChainsTo(g, board, uf, chains) && ca < |board| && cb < |board|
    requires Merged(uf, uf', board[ca], board[cb])
  {
    var a := board[ca];
    var b := board[cb];
    var r := Root(uf', a);
    seq(|board|, t requires 0 <= t < |board| =>
      if Root(uf, t) == r then chains[t]
      else if Root(uf, t) == Root(uf, a) then
        Join(chains[t], Join(Reverse(chains[a]), Join([ca, cb], chains[b])))
      else if Root(uf, t) == Root(uf, b) then
        Join(chains[t], Join(Reverse(chains[b]), Join([cb, ca], chains[a])))
      else chains[t])
  }

  /** A tile t reaching x's root reaches y's root through x, the mated
      step from x's cell to y's cell, and y. */
  lemma Detour(g: Grid, board: seq<nat>, pt: seq<nat>, px: seq<nat>, py: seq<nat>,
               cx: nat, cy: nat, t: nat, rx: nat, ry: nat)
    requires g.Valid() && Distinct(board) && IsChain(g, board, [cx, cy]) && cx < |board| && cy < |board|
    requires Links(g, board, pt, t, rx) && Links(g, board, px, board[cx], rx)
    requires Links(g, board, py, board[cy], ry)
    ensures Links(g, board, Join(pt, Join(Reverse(px), Join([cx, cy], py))), t, ry)
  {
    assert Links(g, board, [cx, cy], board[cx], board[cy]);
    ReverseLinks(g, board, px, board[cx], rx);
    JoinLinks(g, board, [cx, cy], py, board[cx], board[cy], ry);
    JoinLinks(g, board, Reverse(px), Join([cx, cy], py), rx, board[cx], ry);
    JoinLinks(g, board, pt, Join(Reverse(px), Join([cx, cy], py)), t, rx, ry);
  }

  lemma RelinkOk(g: Grid, board: seq<nat>, uf: UF, uf': UF, chains: seq<seq<nat>>, ca: nat, cb: nat)
    requires g.Valid() && ChainsTo(g, board, uf, chains) && ca < |board| && cb < |board|
    requires Distinct(board) && IsMatedPair(g, board, ca, cb)
    requires Merged(uf, uf', board[ca], board[cb])
    ensures ChainsTo(g, board, uf', Relink(g, board, uf, uf', chains, ca, cb))
  {
    var a := board[ca];
    var b := board[cb];
    var r := Root(uf', a);
    var chains' := Relink(g, board, uf, uf', chains, ca, cb);
    MatedSymmetric(g, board, ca, cb);
    assert IsChain(g, board, [ca, cb]) && IsChain(g, board, [cb, ca]);
    forall t | 0 <= t < |board| ensures Links(g, board, chains'[t], t, Root(uf', t)) {
      if Root(uf, t) == r {
      } else if Root(uf, t) == Root(uf, a) {
        Detour(g, board, chains[t], chains[a], chains[b], ca, cb, t, Root(uf, a), Root(uf, b));
      } else if Root(uf, t) == Root(uf, b) {
        Detour(g, board, chains[t], chains[b], chains[a], cb, ca, t, Root(uf, b), Root(uf, a));
      }
    }
  }

  /** uf2 never separates two tiles that uf keeps together. */
  ghost predicate Coarsens(uf: UF, uf2: UF) {
    && Valid(uf) && Valid(uf2) && uf2.Size() == uf.Size()
    && (forall x {:trigger Root(uf, x)} :: 0 <= x < uf.Size() ==> Root(uf2, x) == Root(uf2, Root(uf, x)))
  }

  lemma CoarsensSame(uf: UF, uf2: UF, x: nat, y: nat)
    requires Coarsens(uf, uf2) && x < uf.Size() && y < uf.Size() && Root(uf, x) == Root(uf, y)
    ensures Root(uf2, x) == Root(uf2, y)
  {
  }

  lemma MergedCoarsens(uf: UF, uf': UF, a: nat, b: nat)
    requires Valid(uf) && a < uf.Size() && b < uf.Size() && Merged(uf, uf', a, b)
    ensures Coarsens(uf, uf')
  {
    forall x | 0 <= x < uf.Size() ensures Root(uf', x) == Root(uf', Root(uf, x)) {
      RootIdempotent(uf, x);
    }
  }

  /** Scan invariant for cell c: if its right-hand neighbour is mated to
      it, their tiles already share a root. */
  ghost predicate ScannedRight(g: Grid, board: seq<nat>, uf: UF, c: nat)
    requires g.Valid() && Valid(uf) && uf.Size() == |board|
    requires forall i :: 0 <= i < |board| ==> board[i] < |board|
  {
    c < |board| && IndexToRowCol(g, c).col + 1 < g.cols && c + 1 < |board| && IsMatedPair(g, board, c, c + 1)
    ==> Root(uf, board[c]) == Root(uf, board[c + 1])
  }

  /** Scan invariant for cell c: if its lower neighbour is mated to it,
      their tiles already share a root. */
  ghost predicate ScannedDown(g: Grid, board: seq<nat>, uf: UF, c: nat)
    requires g.Valid() && Valid(uf) && uf.Size() == |board|
    requires forall i :: 0 <= i < |board| ==> board[i] < |board|
  {
    c < |board| && c + g.cols < |board| && IsMatedPair(g, board, c, c + g.cols)
    ==> Root(uf, board[c]) == Root(uf, board[c + g.cols])
  }

  ghost predicate Scanned(g: Grid, board: seq<nat>, uf: UF, c: nat)
    requires g.Valid() && Valid(uf) && uf.Size() == |board|
    requires forall i :: 0 <= i < |board| ==> board[i] < |board|
  {
    ScannedRight(g, board, uf, c) && ScannedDown(g, board, uf, c)
  }

  lemma ScannedCoarsen(g: Grid, board: seq<nat>, uf: UF, uf2: UF, c: nat)
    requires g.Valid() && Coarsens(uf, uf2) && uf.Size() == |board|
    requires forall i :: 0 <= i < |board| ==> board[i] < |board|
    ensures ScannedRight(g, board, uf, c) ==> ScannedRight(g, board, uf2, c)
    ensures ScannedDown(g, board, uf, c) ==> ScannedDown(g, board, uf2, c)
  {
    if c + 1 < |board| && Root(uf, board[c]) == Root(uf, board[c + 1]) {
      CoarsensSame(uf, uf2, board[c], board[c + 1]);
    }
    if c + g.cols < |board| && Root(uf, board[c]) == Root(uf, board[c + g.cols]) {
      CoarsensSame(uf, uf2, board[c], board[c + g.cols]);
    }
  }

  /** union(board[ca], board[cb]) for mated cells ca, cb: keeps every
      chain invariant, merges the two tiles and separates nothing. */
  method UnionCells(g: Grid, board: seq<nat>, uf: UF, ghost chains: seq<seq<nat>>, ca: nat, cb: nat)
    returns (uf': UF, ghost chains': seq<seq<nat>>)
    requires g.Valid() && ChainsTo(g, board, uf, chains) && ca < |board| && cb < |board|
    requires Distinct(board) && IsMatedPair(g, board, ca, cb)
    ensures ChainsTo(g, board, uf', chains')
    ensures Coarsens(uf, uf')
    ensures Root(uf', board[ca]) == Root(uf', board[cb])
  {
    uf' := Union(uf, board[ca], board[cb]);
    RelinkOk(g, board, uf, uf', chains, ca, cb);
    MergedCoarsens(uf, uf', board[ca], board[cb]);
    chains' := Relink(g, board, uf, uf', chains, ca, cb);
  }

  /** The body shared by both halves of a scan step: union the tiles on
      cells ca and cb exactly when the cells are mated. */
  method UnionIfMated(g: Grid, board: seq<nat>, uf: UF, ghost chains: seq<seq<nat>>, ca: nat, cb: nat)
    returns (uf': UF, ghost chains': seq<seq<nat>>)
    requires g.Valid() && ChainsTo(g, board, uf, chains) && ca < |board| && cb < |board|
    requires Distinct(board)
    ensures ChainsTo(g, board, uf', chains')
    ensures Coarsens(uf, uf')
    ensures IsMatedPair(g, board, ca, cb) ==> Root(uf', board[ca]) == Root(uf', board[cb])
  {
    uf', chains' := uf, chains;
    if IsMatedPair(g, board, ca, cb) {
      uf', chains' := UnionCells(g, board, uf, chains, ca, cb);
    }
  }

  lemma NextRowIndex(g: Grid, c: Cell)
    requires g.Valid()
    ensures RowColToIndex(g, Cell(c.row + 1, c.col)) == RowColToIndex(g, c) + g.cols
  {
    assert (c.row + 1) * g.cols == c.row * g.cols + g.cols;
  }

  /** The neighbour of cell a that b is, in index terms. */
  lemma NeighbourIndex(g: Grid, a: nat, b: nat)
    requires g.Valid() && Adjacent(IndexToRowCol(g, a), IndexToRowCol(g, b))
    ensures || (IndexToRowCol(g, a).col + 1 < g.cols && b == a + 1)
            || (IndexToRowCol(g, b).col + 1 < g.cols && a == b + 1)
            || b == a + g.cols
            || a == b + g.cols
  {
    var ca := IndexToRowCol(g, a);
    var cb := IndexToRowCol(g, b);
    IndexRoundTrip(g, a);
    IndexRoundTrip(g, b);
    if ca.row == cb.row {
      assert RowColToIndex(g, cb) - RowColToIndex(g, ca) == cb.col - ca.col;
    } else if cb.row == ca.row + 1 {
      NextRowIndex(g, ca);
    } else {
      NextRowIndex(g, cb);
    }
  }

  /** Once every cell has been scanned, every mated pair (in either
      orientation) shares a root. */
  lemma ScanSound(g: Grid, board: seq<nat>, uf: UF, a: nat, b: nat)
    requires g.Valid() && Valid(uf) && uf.Size() == |board| && |board| == g.Size()
    requires forall i :: 0 <= i < |board| ==> board[i] < |board|
    requires forall c :: 0 <= c < |board| ==> Scanned(g, board, uf, c)
    requires a < |board| && b < |board| && IsMatedPair(g, board, a, b)
    ensures Root(uf, board[a]) == Root(uf, board[b])
  {
    NeighbourIndex(g, a, b);
    MatedSymmetric(g, board, a, b);
    assert Scanned(g, board, uf, a);
    assert Scanned(g, board, uf, b);
  }

  /** The tile ids below k whose root is r, in ascending order. */
  ghost function MembersBelow(roots: seq<nat>, r: nat, k: nat): seq<nat>
    requires k <= |roots|
  {
    if k == 0 then []
    else if roots[k - 1] == r then MembersBelow(roots, r, k - 1) + [k - 1]
    else MembersBelow(roots, r, k - 1)
  }

  lemma {:induction false} MembersBelowSpec(roots: seq<nat>, r: nat, k: nat)
    requires k <= |roots|
    ensures StrictlyIncreasing(MembersBelow(roots, r, k))
    ensures forall i :: 0 <= i < |MembersBelow(roots, r, k)| ==>
              MembersBelow(roots, r, k)[i] < k && roots[MembersBelow(roots, r, k)[i]] == r
    ensures forall x :: 0 <= x < k && roots[x] == r ==> x in MembersBelow(roots, r, k)
  {
    if k > 0 {
      MembersBelowSpec(roots, r, k - 1);
    }
  }

  /** Cell (row, col) has index row * cols + col, and it has a lower
      neighbour exactly when that index plus one row is still on the board. */
  lemma ScanIndex(g: Grid, row: nat, col: nat, index: nat)
    requires g.Valid() && row < g.rows && col < g.cols && index == row * g.cols + col
    ensures IndexToRowCol(g, index) == Cell(row, col)
    ensures row + 1 < g.rows <==> index + g.cols < g.Size()
    ensures index < g.Size() && (col + 1 < g.cols ==> index + 1 < g.Size())
  {
    CellRoundTrip(g, Cell(row, col));
    IndexBound(g, Cell(row, col));
    IndexBound(g, Cell(row, col + 1));
    NextRowIndex(g, Cell(row, col));
    if row + 1 < g.rows {
      IndexBound(g, Cell(row + 1, col));
    } else {
      MulMonotone(g.rows, row + 1, g.cols);
    }
  }

  lemma {:induction false} MembersBelowNone(roots: seq<nat>, r: nat, k: nat)
    requires k <= |roots| && forall x :: 0 <= x < k ==> roots[x] != r
    ensures MembersBelow(roots, r, k) == []
  {
    if k > 0 {
      MembersBelowNone(roots, r, k - 1);
    }
  }

  /** First half of one scan step: union the cell at (row, col) with its
      right-hand neighbour when there is one and they are mated. */
  method ScanRight(g: Grid, board: seq<nat>, uf: UF, ghost chains: seq<seq<nat>>, row: nat, col: nat, index: nat)
    returns (uf': UF, ghost chains': seq<seq<nat>>)
    requires g.Valid() && IsPermutation(board, g.Size()) && ChainsTo(g, board, uf, chains)
    requires row < g.rows && col < g.cols && index == row * g.cols + col
    ensures ChainsTo(g, board, uf', chains')
    ensures Coarsens(uf, uf')
    ensures ScannedRight(g, board, uf', index)
  {
    ScanIndex(g, row, col, index);
    uf', chains' := uf, chains;
    if col + 1 < g.cols {
      uf', chains' := UnionIfMated(g, board, uf, chains, index, index + 1);
    }
  }

  /** Second half of one scan step: union the cell at (row, col) with its
      lower neighbour when there is one and they are mated. */
  method ScanDown(g: Grid, board: seq<nat>, uf: UF, ghost chains: seq<seq<nat>>, row: nat, col: nat, index: nat)
    returns (uf': UF, ghost chains': seq<seq<nat>>)
    requires g.Valid() && IsPermutation(board, g.Size()) && ChainsTo(g, board, uf, chains)
    requires row < g.rows && col < g.cols && index == row * g.cols + col
    ensures ChainsTo(g, board, uf', chains')
    ensures Coarsens(uf, uf')
    ensures ScannedDown(g, board, uf', index)
  {
    ScanIndex(g, row, col, index);
    uf', chains' := uf, chains;
    if row + 1 < g.rows {
      uf', chains' := UnionIfMated(g, board, uf, chains, index, index + g.cols);
    }
  }

  /** One iteration of the row-major scan. */
  method ScanCell(g: Grid, board: seq<nat>, uf: UF, ghost chains: seq<seq<nat>>, row: nat, col: nat, index: nat)
    returns (uf': UF, ghost chains': seq<seq<nat>>)
    requires g.Valid() && IsPermutation(board, g.Size()) && ChainsTo(g, board, uf, chains)
    requires row < g.rows && col < g.cols && index == row * g.cols + col
    ensures ChainsTo(g, board, uf', chains')
    ensures Coarsens(uf, uf')
    ensures Scanned(g, board, uf', index)
  {
    var uf1, chains1 := ScanRight(g, board, uf, chains, row, col, index);
    uf', chains' := ScanDown(g, board, uf1, chains1, row, col, index);
    ScannedCoarsen(g, board, uf1, uf', index);
    CoarsensTrans(uf, uf1, uf');
  }

  lemma CoarsensTrans(a: UF, b: UF, c: UF)
    requires Coarsens(a, b) && Coarsens(b, c)
    ensures Coarsens(a, c)
  {
  }

  /** Every cell below k has been scanned. */
  ghost predicate ScannedBelow(g: Grid, board: seq<nat>, uf: UF, k: nat)
    requires g.Valid() && Valid(uf) && uf.Size() == |board|
    requires forall i :: 0 <= i < |board| ==> board[i] < |board|
  {
    forall c :: 0 <= c < k ==> Scanned(g, board, uf, c)
  }

  lemma ScannedBelowCoarsen(g: Grid, board: seq<nat>, uf: UF, uf2: UF, k: nat)
    requires g.Valid() && Coarsens(uf, uf2) && uf.Size() == |board|
    requires forall i :: 0 <= i < |board| ==> board[i] < |board|
    requires ScannedBelow(g, board, uf, k)
    ensures ScannedBelow(g, board, uf2, k)
  {
    forall c | 0 <= c < k ensures Scanned(g, board, uf2, c) {
      assert Scanned(g, board, uf, c);
      ScannedCoarsen(g, board, uf, uf2, c);
    }
  }

  /** One step of the row-major scan, with the scanned prefix extended. */
  method ScanNext(g: Grid, board: seq<nat>, uf: UF, ghost chains: seq<seq<nat>>, row: nat, col: nat, index: nat)
    returns (uf': UF, ghost chains': seq<seq<nat>>)
    requires g.Valid() && IsPermutation(board, g.Size()) && ChainsTo(g, board, uf, chains)
    requires row < g.rows && col < g.cols && index == row * g.cols + col
    requires ScannedBelow(g, board, uf, index)
    ensures ChainsTo(g, board, uf', chains')
    ensures ScannedBelow(g, board, uf', index + 1)
  {
    uf', chains' := ScanCell(g, board, uf, chains, row, col, index);
    ScannedBelowCoarsen(g, board, uf, uf', index);
  }

  /** The scan along one row. */
  method ScanRow(g: Grid, board: seq<nat>, uf: UF, ghost chains: seq<seq<nat>>, row: nat, done: nat)
    returns (uf': UF, ghost chains': seq<seq<nat>>)
    requires g.Valid() && IsPermutation(board, g.Size()) && ChainsTo(g, board, uf, chains)
    requires row < g.rows && done == row * g.cols
    requires ScannedBelow(g, board, uf, done)
    ensures ChainsTo(g, board, uf', chains')
    ensures ScannedBelow(g, board, uf', done + g.cols)
  {
    uf', chains' := uf, chains;
    var col := 0;
    while col < g.cols
      invariant 0 <= col <= g.cols
      invariant ChainsTo(g, board, uf', chains')
      invariant ScannedBelow(g, board, uf', done + col)
    {
      uf', chains' := ScanNext(g, board, uf', chains', row, col, done + col);
      col := col + 1;
    }
  }

  /** Before the scan every tile is its own root, reached by the one-cell
      chain of its own cell. */
  lemma InitialChains(g: Grid, board: seq<nat>) returns (chains: seq<seq<nat>>)
    requires g.Valid() && IsPermutation(board, g.Size())
    ensures ChainsTo(g, board, Init(g.Size()), chains)
  {
    var n := g.Size();
    var pos := TileIndexMap(board);
    var uf := Init(n);
    chains := seq(n, t requires 0 <= t < n => [pos[t]]);
    forall t | 0 <= t < n ensures Links(g, board, chains[t], t, Root(uf, t)) {
      assert chains[t] == [pos[t]];
    }
  }

  /** The row-major scan over all cells. */
  method ScanGrid(g: Grid, board: seq<nat>) returns (uf: UF, ghost chains: seq<seq<nat>>)
    requires g.Valid() && IsPermutation(board, g.Size())
    ensures ChainsTo(g, board, uf, chains)
    ensures ScannedBelow(g, board, uf, |board|)
  {
    uf := Init(g.Size());
    chains := InitialChains(g, board);
    var row := 0;
    var done := 0;
    while row < g.rows
      invariant 0 <= row <= g.rows && done == row * g.cols
      invariant ChainsTo(g, board, uf, chains)
      invariant ScannedBelow(g, board, uf, done)
    {
      uf, chains := ScanRow(g, board, uf, chains, row, done);
      row := row + 1;
      done := done + g.cols;
    }
  }

  ghost function RootsOf(uf: UF): (roots: seq<nat>)
    requires Valid(uf)
    ensures |roots| == uf.Size()
    ensures forall x :: 0 <= x < uf.Size() ==> roots[x] == Root(uf, x)
  {
    seq(uf.Size(), x requires 0 <= x < uf.Size() => Root(uf, x))
  }

  /** Grouping invariant after the tile ids below k have been appended. */
  ghost predicate GroupedBelow(roots: seq<nat>, members: map<nat, seq<nat>>, k: nat)
    requires k <= |roots|
  {
    && (forall x :: 0 <= x < k ==> roots[x] in members)
    && (forall r :: r in members ==> members[r] == MembersBelow(roots, r, k) && |members[r]| > 0)
  }

  /** Appending tile k to the list of its root keeps the grouping invariant. */
  lemma GroupStep(roots: seq<nat>, members: map<nat, seq<nat>>, k: nat)
    requires k < |roots| && GroupedBelow(roots, members, k)
    ensures var list := if roots[k] in members then members[roots[k]] else [];
            GroupedBelow(roots, members[roots[k] := list + [k]], k + 1)
  {
    var root := roots[k];
    var list := if root in members then members[root] else [];
    assert list == MembersBelow(roots, root, k) by {
      if root !in members {
        MembersBelowNone(roots, root, k);
      }
    }
    var after := members[root := list + [k]];
    assert after.Keys == members.Keys + {root};
    forall x | 0 <= x < k + 1 ensures roots[x] in after {
      if x < k {
        assert roots[x] in members.Keys;
      }
    }
    forall r | r in after ensures after[r] == MembersBelow(roots, r, k + 1) && |after[r]| > 0 {
      if r != root {
        assert after[r] == members[r];
      }
    }
  }

  /** A complete grouping of idempotent root labels is a partition. */
  lemma GroupedPartition(roots: seq<nat>, members: map<nat, seq<nat>>)
    requires GroupedBelow(roots, members, |roots|)
    requires forall x :: 0 <= x < |roots| ==> roots[x] < |roots| && roots[roots[x]] == roots[x]
    ensures Partition(ClusterState(roots, members), |roots|)
  {
    var n := |roots|;
    forall r | r in members
      ensures r < n && roots[r] == r
      ensures StrictlyIncreasing(members[r])
      ensures forall i :: 0 <= i < |members[r]| ==> members[r][i] < n && roots[members[r][i]] == r
    {
      MembersBelowSpec(roots, r, n);
      var m := members[r];
      assert roots[m[0]] == r;
    }
    forall t | 0 <= t < n ensures t in members[roots[t]] {
      MembersBelowSpec(roots, roots[t], n);
    }
  }

  /** One step of the grouping pass: find the root of tileId and append
      tileId to its root's list. */
  method GroupTile(forest: UF, ghost roots: seq<nat>, rootByTileId: seq<nat>,
                   membersByRoot: map<nat, seq<nat>>, tileId: nat)
    returns (forest': UF, rootByTileId': seq<nat>, membersByRoot': map<nat, seq<nat>>)
    requires Valid(forest) && tileId < forest.Size() && |roots| == forest.Size()
    requires forall y :: 0 <= y < forest.Size() ==> Root(forest, y) == roots[y]
    requires rootByTileId == roots[..tileId] && GroupedBelow(roots, membersByRoot, tileId)
    ensures Valid(forest') && forest'.Size() == forest.Size()
    ensures forall y :: 0 <= y < forest.Size() ==> Root(forest', y) == roots[y]
    ensures rootByTileId' == roots[..tileId + 1] && GroupedBelow(roots, membersByRoot', tileId + 1)
  {
    var root, next := Find(forest, tileId);
    assert root == roots[tileId];
    GroupStep(roots, membersByRoot, tileId);
    forest' := next;
    assert roots[..tileId + 1] == roots[..tileId] + [root];
    rootByTileId' := rootByTileId + [root];
    var list := if root in membersByRoot then membersByRoot[root] else [];
    membersByRoot' := membersByRoot[root := list + [tileId]];
  }

  /** The grouping pass: resolve every tile's root with find and append the
      tile to its root's member list. */
  method GroupByRoot(uf: UF) returns (cs: ClusterState)
    requires Valid(uf)
    ensures |cs.rootByTileId| == uf.Size()
    ensures forall t :: 0 <= t < uf.Size() ==> cs.rootByTileId[t] == Root(uf, t)
    ensures Partition(cs, uf.Size())
  {
    var n := uf.Size();
    ghost var roots := RootsOf(uf);
    var forest := uf;
    var rootByTileId: seq<nat> := [];
    var membersByRoot: map<nat, seq<nat>> := map[];
    var tileId := 0;
    while tileId < n
      invariant 0 <= tileId <= n
      invariant Valid(forest) && forest.Size() == n
      invariant forall y :: 0 <= y < n ==> Root(forest, y) == roots[y]
      invariant rootByTileId == roots[..tileId]
      invariant GroupedBelow(roots, membersByRoot, tileId)
    {
      forest, rootByTileId, membersByRoot := GroupTile(forest, roots, rootByTileId, membersByRoot, tileId);
      tileId := tileId + 1;
    }
    cs := ClusterState(rootByTileId, membersByRoot);
    assert rootByTileId == roots;
    GroupedPartition(roots, membersByRoot);
  }

  /** The scan's chains witness completeness of labels that are the
      forest's roots. */
  lemma ChainsComplete(g: Grid, board: seq<nat>, uf: UF, chains: seq<seq<nat>>, cs: ClusterState)
    requires g.Valid() && IsPermutation(board, g.Size()) && ChainsTo(g, board, uf, chains)
    requires |cs.rootByTileId| == |board|
    requires forall t :: 0 <= t < |board| ==> cs.rootByTileId[t] == Root(uf, t)
    ensures Complete(g, board, cs)
  {
    forall t | 0 <= t < |board| ensures Connected(g, board, t, cs.rootByTileId[t]) {
      assert Links(g, board, chains[t], t, Root(uf, t));
    }
  }

  /** A fully scanned forest puts every mated pair's tiles under one root. */
  lemma ScannedSound(g: Grid, board: seq<nat>, uf: UF, cs: ClusterState)
    requires g.Valid() && IsPermutation(board, g.Size()) && Valid(uf) && uf.Size() == |board|
    requires ScannedBelow(g, board, uf, |board|)
    requires |cs.rootByTileId| == |board|
    requires forall t :: 0 <= t < |board| ==> cs.rootByTileId[t] == Root(uf, t)
    ensures Sound(g, board, cs)
  {
    forall a, b | 0 <= a < |board| && 0 <= b < |board| && IsMatedPair(g, board, a, b)
      ensures cs.rootByTileId[board[a]] == cs.rootByTileId[board[b]]
    {
      ScanSound(g, board, uf, a, b);
    }
  }

  /** recomputeClusters: union every mated right/down neighbour pair in a
      row-major scan, then group the tile ids by root. The result is the
      partition of the tiles into the connected components of the mated
      relation. */
  method RecomputeClusters(g: Grid, board: seq<nat>) returns (cs: ClusterState)
    requires g.Valid() && IsPermutation(board, g.Size())
    ensures ClustersOf(g, board, cs)
  {
    var uf, chains := ScanGrid(g, board);
    cs := GroupByRoot(uf);
    ScannedSound(g, board, uf, cs);
    ChainsComplete(g, board, uf, chains, cs);
  }
}
