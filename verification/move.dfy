/** tryRigidTranslateSwap: drag a whole cluster so that the dragged tile
    lands on the drop cell. Every member shifts by the same (dRow, dCol);
    the tiles on the newly covered cells are moved, in ascending cell order,
    into the cells the cluster left, also in ascending order. The move is
    all-or-nothing: it either yields a whole new board or is refused. */
module Move {
  import opened Grid
  import opened Seqs
  import opened Boards
  import opened Clusters
  import opened ClusterFacts

  /** Why a move was refused. tryRigidTranslateSwap in app.js only answers
      false; the reason is carried so that the refusal paths can be told
      apart. */
  datatype Rejection =
    | EmptyCluster
    | ClusterLocked
    | ZeroTranslation
    | OffGrid
    | DuplicateDestination
    | DisplacesLocked
    | CountMismatch
    | LockedTileMoved

  datatype MoveResult = Rejected(why: Rejection) | Moved(board: seq<nat>)

  /** The cell reached from cell index by the translation delta. */
  function Shifted(g: Grid, index: nat, delta: Cell): Cell
    requires g.Valid()
  {
    Add(IndexToRowCol(g, index), delta)
  }

  /** Shifting by a common vector keeps distinct cells distinct. */
  lemma ShiftInjective(g: Grid, a: nat, b: nat, delta: Cell)
    requires g.Valid() && InGrid(g, Shifted(g, a, delta)) && InGrid(g, Shifted(g, b, delta))
    ensures RowColToIndex(g, Shifted(g, a, delta)) == RowColToIndex(g, Shifted(g, b, delta)) <==> a == b
  {
    IndexRoundTrip(g, a);
    IndexRoundTrip(g, b);
    IndexInjective(g, Shifted(g, a, delta), Shifted(g, b, delta));
  }

  // ---------------------------------------------------------------------
  // Footprint

  /** The source and destination cells of the moving members, or the
      reason the footprint could not be built. */
  datatype Placement = Blocked(why: Rejection) | Cells(src: seq<nat>, dst: seq<nat>)

  /** The footprint loop: for each member in order, its current cell and
      its shifted cell; refused at the first member whose shifted cell is
      off the grid or already taken by an earlier member. */
  function Footprint(g: Grid, pos: seq<nat>, members: seq<nat>, delta: Cell): (f: Placement)
    requires g.Valid() && forall i :: 0 <= i < |members| ==> members[i] < |pos|
    ensures f.Cells? ==>
              && |f.src| == |members| && |f.dst| == |members| && Distinct(f.dst)
              && forall i :: 0 <= i < |members| ==>
                   && f.src[i] == pos[members[i]]
                   && InGrid(g, Shifted(g, f.src[i], delta))
                   && f.dst[i] == RowColToIndex(g, Shifted(g, f.src[i], delta))
    ensures f.Blocked? ==> f.why == OffGrid || f.why == DuplicateDestination
    decreases |members|
  {
    if |members| == 0 then Cells([], [])
    else
      var k := |members| - 1;
      match Footprint(g, pos, members[..k], delta)
      case Blocked(why) => Blocked(why)
      case Cells(src, dst) =>
        var s := pos[members[k]];
        var c := Shifted(g, s, delta);
        if !InGrid(g, c) then Blocked(OffGrid)
        else
          var d := RowColToIndex(g, c) as nat;
          if d in dst then Blocked(DuplicateDestination)
          else Cells(src + [s], dst + [d])
  }

  /** For distinct members on distinct cells the footprint is refused only
      for a member shifted off the grid, and exactly then: the duplicate
      destination check never fires. */
  lemma {:induction false} FootprintOutcome(g: Grid, pos: seq<nat>, members: seq<nat>, delta: Cell)
    requires g.Valid() && Distinct(pos) && Distinct(members)
    requires forall i :: 0 <= i < |members| ==> members[i] < |pos|
    ensures Footprint(g, pos, members, delta).Cells? <==>
              forall i :: 0 <= i < |members| ==> InGrid(g, Shifted(g, pos[members[i]], delta))
    ensures Footprint(g, pos, members, delta).Blocked? ==> Footprint(g, pos, members, delta).why == OffGrid
    decreases |members|
  {
    if |members| > 0 {
      var k := |members| - 1;
      var prefix := members[..k];
      FootprintOutcome(g, pos, prefix, delta);
      match Footprint(g, pos, prefix, delta)
      case Blocked(_) =>
        assert forall i :: 0 <= i < k ==> prefix[i] == members[i];
      case Cells(src, dst) =>
        var s := pos[members[k]];
        if InGrid(g, Shifted(g, s, delta)) {
          var d := RowColToIndex(g, Shifted(g, s, delta)) as nat;
          forall j | 0 <= j < k ensures dst[j] != d {
            ShiftInjective(g, src[j], s, delta);
          }
        }
    }
  }

  // ---------------------------------------------------------------------
  // Vacated and newly covered cells

  /** Cells the cluster leaves: source cells that are not destinations. */
  function Vacated(src: seq<nat>, dst: seq<nat>): (v: seq<nat>)
    ensures forall x :: x in v <==> x in src && x !in dst
  {
    FilterOut(src, Elems(src) * Elems(dst))
  }

  /** Cells the cluster newly covers: destinations that are not sources. */
  function NewOnly(src: seq<nat>, dst: seq<nat>): (w: seq<nat>)
    ensures forall x :: x in w <==> x in dst && x !in src
  {
    FilterOut(dst, Elems(src) * Elems(dst))
  }

  /** The vacated and newly covered cells are the two set differences of
      the footprint, and for equally many distinct sources and destinations
      they are equally many: the count check never fires. */
  lemma VacatedNewOnly(src: seq<nat>, dst: seq<nat>)
    requires Distinct(src) && Distinct(dst) && |src| == |dst|
    ensures Elems(Vacated(src, dst)) == Elems(src) - Elems(dst)
    ensures Elems(NewOnly(src, dst)) == Elems(dst) - Elems(src)
    ensures Distinct(Vacated(src, dst)) && Distinct(NewOnly(src, dst))
    ensures |Vacated(src, dst)| == |NewOnly(src, dst)|
  {
    var overlap := Elems(src) * Elems(dst);
    FilterOutCard(src, overlap);
    FilterOutCard(dst, overlap);
    DistinctCard(src);
    DistinctCard(dst);
    assert Elems(src) - overlap == Elems(src) - Elems(dst);
    assert Elems(dst) - overlap == Elems(dst) - Elems(src);
    assert |Elems(src) - Elems(dst)| == |Elems(src)| - |overlap| by {
      assert Elems(src) == (Elems(src) - Elems(dst)) + overlap;
    }
    assert |Elems(dst) - Elems(src)| == |Elems(dst)| - |overlap| by {
      assert Elems(dst) == (Elems(dst) - Elems(src)) + overlap;
    }
  }

  // ---------------------------------------------------------------------
  // Building the new board

  /** The two write passes on a copy of the board: each member's tile onto
      its destination, then the displaced tiles (read from the old board)
      into the vacated cells, pairwise. */
  function Rearrange(board: seq<nat>, src: seq<nat>, dst: seq<nat>, vacated: seq<nat>, newOnly: seq<nat>)
    : seq<nat>
    requires |src| == |dst| && |vacated| == |newOnly|
    requires forall i :: 0 <= i < |src| ==> src[i] < |board| && dst[i] < |board|
    requires forall j :: 0 <= j < |vacated| ==> vacated[j] < |board| && newOnly[j] < |board|
  {
    var moved := WriteAll(board, dst, seq(|src|, i requires 0 <= i < |src| => board[src[i]]));
    WriteAll(moved, vacated, seq(|newOnly|, j requires 0 <= j < |newOnly| => board[newOnly[j]]))
  }

  /** The cell whose old tile ends up on cell c. */
  ghost function Origin(src: seq<nat>, dst: seq<nat>, vacated: seq<nat>, newOnly: seq<nat>, c: nat): nat
    requires |src| == |dst| && |vacated| == |newOnly|
  {
    if c in dst then src[IndexOf(dst, c)]
    else if c in vacated then newOnly[IndexOf(vacated, c)]
    else c
  }

  /** The footprint shape Rearrange is used on. */
  ghost predicate Shape(n: nat, src: seq<nat>, dst: seq<nat>, vacated: seq<nat>, newOnly: seq<nat>) {
    && |src| == |dst| && |vacated| == |newOnly|
    && Distinct(src) && Distinct(dst) && Distinct(vacated) && Distinct(newOnly)
    && (forall i :: 0 <= i < |src| ==> src[i] < n && dst[i] < n)
    && Elems(vacated) == Elems(src) - Elems(dst)
    && Elems(newOnly) == Elems(dst) - Elems(src)
  }

  /** Distinct cells draw their tiles from distinct cells. */
  lemma OriginInjective(n: nat, src: seq<nat>, dst: seq<nat>, vacated: seq<nat>, newOnly: seq<nat>, c1: nat, c2: nat)
    requires Shape(n, src, dst, vacated, newOnly) && c1 != c2
    ensures Origin(src, dst, vacated, newOnly, c1) != Origin(src, dst, vacated, newOnly, c2)
  {
    assert c1 in Elems(dst) <==> c1 in dst;
    assert c2 in Elems(dst) <==> c2 in dst;
    assert c1 in Elems(vacated) <==> c1 in vacated;
    assert c2 in Elems(vacated) <==> c2 in vacated;
    var o1 := Origin(src, dst, vacated, newOnly, c1);
    var o2 := Origin(src, dst, vacated, newOnly, c2);
    assert c1 in dst ==> o1 in Elems(src);
    assert c2 in dst ==> o2 in Elems(src);
    assert c1 !in dst && c1 in vacated ==> o1 in Elems(newOnly);
    assert c2 !in dst && c2 in vacated ==> o2 in Elems(newOnly);
  }

  /** What the two write passes produce, cell by cell. */
  lemma RearrangeCells(board: seq<nat>, src: seq<nat>, dst: seq<nat>, vacated: seq<nat>, newOnly: seq<nat>)
    requires Shape(|board|, src, dst, vacated, newOnly)
    ensures forall j :: 0 <= j < |vacated| ==> vacated[j] < |board| && newOnly[j] < |board|
    ensures var b := Rearrange(board, src, dst, vacated, newOnly);
            && |b| == |board|
            && (forall i :: 0 <= i < |dst| ==> b[dst[i]] == board[src[i]])
            && (forall j :: 0 <= j < |vacated| ==> b[vacated[j]] == board[newOnly[j]])
            && (forall c :: 0 <= c < |board| && c !in src && c !in dst ==> b[c] == board[c])
            && (forall c :: 0 <= c < |board| ==>
                  Origin(src, dst, vacated, newOnly, c) < |board| &&
                  b[c] == board[Origin(src, dst, vacated, newOnly, c)])
  {
    forall j | 0 <= j < |vacated| ensures vacated[j] < |board| && newOnly[j] < |board| {
      assert vacated[j] in Elems(vacated);
      assert newOnly[j] in Elems(newOnly);
    }
    var b := Rearrange(board, src, dst, vacated, newOnly);
    forall i | 0 <= i < |dst| ensures dst[i] !in vacated {
      assert dst[i] in Elems(dst);
    }
    forall c | 0 <= c < |board| && c !in src && c !in dst ensures c !in vacated {
      assert c !in Elems(src);
      assert c !in Elems(vacated);
    }
    forall c | 0 <= c < |board|
      ensures Origin(src, dst, vacated, newOnly, c) < |board| && b[c] == board[Origin(src, dst, vacated, newOnly, c)]
    {
      if c !in dst && c !in vacated {
        assert c !in Elems(src) by {
          assert c !in Elems(vacated);
        }
      }
    }
  }

  /** The rearranged board is again a permutation. */
  lemma RearrangePermutation(board: seq<nat>, src: seq<nat>, dst: seq<nat>, vacated: seq<nat>, newOnly: seq<nat>)
    requires IsPermutation(board, |board|) && Shape(|board|, src, dst, vacated, newOnly)
    ensures forall j :: 0 <= j < |vacated| ==> vacated[j] < |board| && newOnly[j] < |board|
    ensures IsPermutation(Rearrange(board, src, dst, vacated, newOnly), |board|)
  {
    RearrangeCells(board, src, dst, vacated, newOnly);
    var b := Rearrange(board, src, dst, vacated, newOnly);
    forall c1, c2 | 0 <= c1 < c2 < |b| ensures b[c1] != b[c2] {
      OriginInjective(|board|, src, dst, vacated, newOnly, c1, c2);
    }
  }

  /** Vacated and newly covered cells, sorted or not, are board cells. */
  lemma PlanBounds(n: nat, src: seq<nat>, dst: seq<nat>)
    requires |src| == |dst| && forall i :: 0 <= i < |src| ==> src[i] < n && dst[i] < n
    ensures forall j :: 0 <= j < |Vacated(src, dst)| ==> Vacated(src, dst)[j] < n
    ensures forall j :: 0 <= j < |NewOnly(src, dst)| ==> NewOnly(src, dst)[j] < n
    ensures |Sort(Vacated(src, dst))| == |Vacated(src, dst)|
    ensures |Sort(NewOnly(src, dst))| == |NewOnly(src, dst)|
    ensures forall j :: 0 <= j < |Sort(Vacated(src, dst))| ==> Sort(Vacated(src, dst))[j] < n
    ensures forall j :: 0 <= j < |Sort(NewOnly(src, dst))| ==> Sort(NewOnly(src, dst))[j] < n
  {
    var v := Vacated(src, dst);
    var w := NewOnly(src, dst);
    forall j | 0 <= j < |v| ensures v[j] < n {
      assert v[j] in v;
    }
    forall j | 0 <= j < |w| ensures w[j] < n {
      assert w[j] in w;
    }
    SortBound(v, n);
    SortBound(w, n);
  }

  // ---------------------------------------------------------------------
  // The validator

  /** Some newly covered cell holds a locked tile that is not moving. */
  predicate DisplacesLockedTile(board: seq<nat>, locked: set<nat>, members: seq<nat>, newOnly: seq<nat>)
    requires forall x :: x in newOnly ==> x < |board|
  {
    exists x :: x in newOnly && board[x] !in members && board[x] in locked
  }

  /** Some locked tile would leave its cell. */
  predicate MovesLockedTile(board: seq<nat>, next: seq<nat>, locked: set<nat>)
    requires |next| == |board|
  {
    exists c :: 0 <= c < |board| && board[c] in locked && next[c] != board[c]
  }

  /** The second half of the validator, once the footprint is known: the
      locked-displacement check, the count check, the two write passes and
      the final locked-integrity check. */
  function Relocate(board: seq<nat>, locked: set<nat>, members: seq<nat>, src: seq<nat>, dst: seq<nat>)
    : MoveResult
    requires |src| == |dst| && forall i :: 0 <= i < |src| ==> src[i] < |board| && dst[i] < |board|
  {
    PlanBounds(|board|, src, dst);
    var vacated := Vacated(src, dst);
    var newOnly := NewOnly(src, dst);
    if DisplacesLockedTile(board, locked, members, newOnly) then Rejected(DisplacesLocked)
    else if |vacated| != |newOnly| then Rejected(CountMismatch)
    else
      var next := Rearrange(board, src, dst, Sort(vacated), Sort(newOnly));
      if MovesLockedTile(board, next, locked) then Rejected(LockedTileMoved)
      else Moved(next)
  }

  /** The translation that carries the dragged tile onto the drop cell. */
  function Translation(g: Grid, board: seq<nat>, draggedTileId: nat, dropCellIndex: nat): Cell
    requires g.Valid() && IsPermutation(board, |board|) && draggedTileId < |board|
  {
    var anchorSrc := IndexToRowCol(g, TileIndexMap(board)[draggedTileId]);
    var anchorDst := IndexToRowCol(g, dropCellIndex);
    Sub(anchorDst, anchorSrc)
  }

  /** The validator for a given member list. */
  function MoveCluster(g: Grid, board: seq<nat>, locked: set<nat>, members: seq<nat>,
                       draggedTileId: nat, dropCellIndex: nat): MoveResult
    requires g.Valid() && IsPermutation(board, g.Size()) && draggedTileId < g.Size()
    requires forall i :: 0 <= i < |members| ==> members[i] < g.Size()
  {
    if |members| == 0 then Rejected(EmptyCluster)
    else if ClusterHasLockedTile(members, locked) then Rejected(ClusterLocked)
    else
      var pos := TileIndexMap(board);
      var delta := Translation(g, board, draggedTileId, dropCellIndex);
      if delta == Cell(0, 0) then Rejected(ZeroTranslation)
      else
        match Footprint(g, pos, members, delta)
        case Blocked(why) => Rejected(why)
        case Cells(src, dst) => Relocate(board, locked, members, src, dst)
  }

  /** The member list of the dragged tile's cluster, empty when its root
      has none. */
  function DraggedMembers(cs: ClusterState, draggedTileId: nat): (members: seq<nat>)
    requires draggedTileId < |cs.rootByTileId|
    ensures Partition(cs, |cs.rootByTileId|) ==>
              && Distinct(members) && draggedTileId in members
              && forall i :: 0 <= i < |members| ==> members[i] < |cs.rootByTileId|
  {
    var root := cs.rootByTileId[draggedTileId];
    if root in cs.membersByRoot then cs.membersByRoot[root] else []
  }

  /** tryRigidTranslateSwap(draggedTileId, dropCellIndex) on the given
      board, cluster state and lock set. */
  function TryRigidTranslateSwap(g: Grid, board: seq<nat>, cs: ClusterState, locked: set<nat>,
                                 draggedTileId: nat, dropCellIndex: nat): MoveResult
    requires g.Valid() && IsPermutation(board, g.Size()) && Partition(cs, g.Size())
    requires draggedTileId < g.Size()
  {
    MoveCluster(g, board, locked, DraggedMembers(cs, draggedTileId), draggedTileId, dropCellIndex)
  }

  // ---------------------------------------------------------------------
  // Correctness of the second half

  /** The footprint a successful first half hands over: members sit on
      their source cells and land on distinct destination cells. */
  ghost predicate GoodFootprint(board: seq<nat>, locked: set<nat>, members: seq<nat>, src: seq<nat>, dst: seq<nat>) {
    && IsPermutation(board, |board|) && Distinct(members)
    && |src| == |members| && |dst| == |members| && Distinct(dst)
    && (forall i :: 0 <= i < |members| ==>
          src[i] < |board| && dst[i] < |board| && board[src[i]] == members[i] && members[i] !in locked)
  }

  /** The cells a good footprint leaves behind are distinct too. */
  lemma SourcesDistinct(board: seq<nat>, locked: set<nat>, members: seq<nat>, src: seq<nat>, dst: seq<nat>)
    requires GoodFootprint(board, locked, members, src, dst)
    ensures Distinct(src)
    ensures forall c :: c in src ==> board[c] in members
  {
  }

  /** Looking only at the newly covered cells, as app.js does, finds a
      locked non-member exactly when some destination holds one: a
      destination that is also a source holds a member. */
  lemma DisplacesIff(board: seq<nat>, locked: set<nat>, members: seq<nat>, src: seq<nat>, dst: seq<nat>)
    requires GoodFootprint(board, locked, members, src, dst)
    ensures DisplacesLockedTile(board, locked, members, NewOnly(src, dst)) <==>
            exists i :: 0 <= i < |dst| && board[dst[i]] !in members && board[dst[i]] in locked
  {
    SourcesDistinct(board, locked, members, src, dst);
    VacatedNewOnly(src, dst);
    PlanBounds(|board|, src, dst);
    var w := NewOnly(src, dst);
    if exists i :: 0 <= i < |dst| && board[dst[i]] !in members && board[dst[i]] in locked {
      var i :| 0 <= i < |dst| && board[dst[i]] !in members && board[dst[i]] in locked;
      assert dst[i] in w;
    }
  }

  /** Everything a successful move promises about the new board. */
  ghost predicate RelocatedWell(board: seq<nat>, locked: set<nat>, members: seq<nat>,
                                src: seq<nat>, dst: seq<nat>, next: seq<nat>)
    requires |src| == |dst| && |dst| == |members|
  {
    && IsPermutation(next, |board|)
    && (forall i :: 0 <= i < |dst| ==> dst[i] < |next| && next[dst[i]] == members[i])
    && (forall c :: 0 <= c < |board| && c !in src && c !in dst ==> next[c] == board[c])
    && (forall c :: 0 <= c < |board| && board[c] in locked ==> next[c] == board[c])
    && var vs := Sort(Vacated(src, dst));
       var ns := Sort(NewOnly(src, dst));
       && |vs| == |ns|
       && (forall j :: 0 <= j < |vs| ==> vs[j] < |next| && ns[j] < |board| && next[vs[j]] == board[ns[j]])
  }

  /** The second half on a good footprint: refused only for a displaced
      locked tile, so the count check and the final integrity check never
      fire; on success the new board is everything RelocatedWell says. */
  lemma RelocateOutcome(board: seq<nat>, locked: set<nat>, members: seq<nat>, src: seq<nat>, dst: seq<nat>)
    requires GoodFootprint(board, locked, members, src, dst)
    ensures Relocate(board, locked, members, src, dst).Moved? <==>
              forall i :: 0 <= i < |dst| ==> board[dst[i]] in members || board[dst[i]] !in locked
    ensures Relocate(board, locked, members, src, dst).Rejected? ==>
              Relocate(board, locked, members, src, dst).why == DisplacesLocked
    ensures Relocate(board, locked, members, src, dst).Moved? ==>
              RelocatedWell(board, locked, members, src, dst, Relocate(board, locked, members, src, dst).board)
  {
    SourcesDistinct(board, locked, members, src, dst);
    VacatedNewOnly(src, dst);
    PlanBounds(|board|, src, dst);
    DisplacesIff(board, locked, members, src, dst);
    var v := Vacated(src, dst);
    var w := NewOnly(src, dst);
    if !DisplacesLockedTile(board, locked, members, w) {
      var vs := Sort(v);
      var ns := Sort(w);
      SortDistinct(v);
      SortDistinct(w);
      assert Shape(|board|, src, dst, vs, ns);
      RearrangeCells(board, src, dst, vs, ns);
      RearrangePermutation(board, src, dst, vs, ns);
      var next := Rearrange(board, src, dst, vs, ns);
      forall c | 0 <= c < |board| && board[c] in locked ensures next[c] == board[c] {
        assert c !in src;
        assert c !in dst;
      }
      assert !MovesLockedTile(board, next, locked);
    }
  }

  // ---------------------------------------------------------------------
  // Correctness of the whole validator

  /** The cell tile t lands on under the translation delta. */
  function Destination(g: Grid, board: seq<nat>, t: nat, delta: Cell): Cell
    requires g.Valid() && IsPermutation(board, |board|) && t < |board|
  {
    Shifted(g, TileIndexMap(board)[t], delta)
  }

  /** When a move is legal, stated without the validator's intermediate
      lists: a non-empty cluster with no locked member, a non-zero
      translation, every member landing on the grid, and every landing cell
      holding a member or an unlocked tile. */
  ghost predicate Acceptable(g: Grid, board: seq<nat>, locked: set<nat>, members: seq<nat>,
                             draggedTileId: nat, dropCellIndex: nat)
    requires g.Valid() && IsPermutation(board, g.Size()) && draggedTileId < g.Size()
    requires forall i :: 0 <= i < |members| ==> members[i] < g.Size()
  {
    var delta := Translation(g, board, draggedTileId, dropCellIndex);
    && |members| > 0
    && (forall i :: 0 <= i < |members| ==> members[i] !in locked)
    && delta != Cell(0, 0)
    && LandsOnGrid(g, board, members, delta)
    && LandsFree(g, board, locked, members, delta)
  }

  /** Every member's destination is on the grid. */
  ghost predicate LandsOnGrid(g: Grid, board: seq<nat>, members: seq<nat>, delta: Cell)
    requires g.Valid() && IsPermutation(board, g.Size())
    requires forall i :: 0 <= i < |members| ==> members[i] < g.Size()
  {
    forall i :: 0 <= i < |members| ==> InGrid(g, Destination(g, board, members[i], delta))
  }

  /** Every on-grid destination holds a member or an unlocked tile. */
  ghost predicate LandsFree(g: Grid, board: seq<nat>, locked: set<nat>, members: seq<nat>, delta: Cell)
    requires g.Valid() && IsPermutation(board, g.Size())
    requires forall i :: 0 <= i < |members| ==> members[i] < g.Size()
  {
    forall i :: 0 <= i < |members| && InGrid(g, Destination(g, board, members[i], delta)) ==>
      var d := RowColToIndex(g, Destination(g, board, members[i], delta)) as nat;
      board[d] in members || board[d] !in locked
  }

  /** LandsFree read off the footprint's destination list. */
  lemma LandsFreeIff(g: Grid, board: seq<nat>, locked: set<nat>, members: seq<nat>, delta: Cell, dst: seq<nat>)
    requires g.Valid() && IsPermutation(board, g.Size())
    requires forall i :: 0 <= i < |members| ==> members[i] < g.Size()
    requires LandsOnGrid(g, board, members, delta) && |dst| == |members|
    requires forall i :: 0 <= i < |dst| ==> dst[i] < g.Size()
    requires forall i :: 0 <= i < |members| ==> dst[i] == RowColToIndex(g, Destination(g, board, members[i], delta))
    ensures LandsFree(g, board, locked, members, delta) <==>
              forall i :: 0 <= i < |dst| ==> board[dst[i]] in members || board[dst[i]] !in locked
  {
    if LandsFree(g, board, locked, members, delta) {
      forall i | 0 <= i < |dst| ensures board[dst[i]] in members || board[dst[i]] !in locked {
        assert InGrid(g, Destination(g, board, members[i], delta));
      }
    }
  }

  /** The cells the cluster occupies before the move. */
  ghost function Sources(board: seq<nat>, members: seq<nat>): set<nat>
    requires IsPermutation(board, |board|) && forall i :: 0 <= i < |members| ==> members[i] < |board|
  {
    set i | 0 <= i < |members| :: TileIndexMap(board)[members[i]]
  }

  /** The cells the cluster occupies after the move. */
  ghost function Targets(g: Grid, board: seq<nat>, members: seq<nat>, delta: Cell): set<nat>
    requires g.Valid() && IsPermutation(board, |board|)
    requires forall i :: 0 <= i < |members| ==> members[i] < |board|
  {
    set i | 0 <= i < |members| && InGrid(g, Destination(g, board, members[i], delta))
      :: RowColToIndex(g, Destination(g, board, members[i], delta)) as nat
  }

  /** Unfolds a successful first half into the footprint it produced. */
  lemma FirstHalf(g: Grid, board: seq<nat>, locked: set<nat>, members: seq<nat>,
                  draggedTileId: nat, dropCellIndex: nat)
    returns (src: seq<nat>, dst: seq<nat>)
    requires g.Valid() && IsPermutation(board, g.Size()) && draggedTileId < g.Size()
    requires Distinct(members) && forall i :: 0 <= i < |members| ==> members[i] < g.Size()
    requires |members| > 0 && !ClusterHasLockedTile(members, locked)
    requires Footprint(g, TileIndexMap(board), members, Translation(g, board, draggedTileId, dropCellIndex)).Cells?
    ensures Footprint(g, TileIndexMap(board), members, Translation(g, board, draggedTileId, dropCellIndex))
            == Cells(src, dst)
    ensures GoodFootprint(board, locked, members, src, dst)
    ensures Elems(src) == Sources(board, members)
    ensures Elems(dst) == Targets(g, board, members, Translation(g, board, draggedTileId, dropCellIndex))
    ensures forall i :: 0 <= i < |members| ==>
              dst[i] == RowColToIndex(g, Destination(g, board, members[i], Translation(g, board, draggedTileId, dropCellIndex)))
  {
    var pos := TileIndexMap(board);
    var delta := Translation(g, board, draggedTileId, dropCellIndex);
    var f := Footprint(g, pos, members, delta);
    src, dst := f.src, f.dst;
    assert Elems(src) == Sources(board, members) by {
      forall x | x in Sources(board, members) ensures x in Elems(src) {
        var i :| 0 <= i < |members| && x == pos[members[i]];
        assert src[i] == x;
      }
    }
    assert Elems(dst) == Targets(g, board, members, delta) by {
      forall x | x in Targets(g, board, members, delta) ensures x in Elems(dst) {
        var i :| 0 <= i < |members| && InGrid(g, Destination(g, board, members[i], delta))
                 && x == RowColToIndex(g, Destination(g, board, members[i], delta)) as nat;
        assert dst[i] == x;
      }
    }
  }

  /** A move succeeds exactly when it is Acceptable; refusals come only from
      the empty-cluster, locked-member, zero-translation, off-grid and
      locked-displacement checks, so the duplicate-destination, count and
      final locked-integrity checks can never fire. */
  lemma MoveAcceptedIff(g: Grid, board: seq<nat>, cs: ClusterState, locked: set<nat>,
                        draggedTileId: nat, dropCellIndex: nat)
    requires g.Valid() && IsPermutation(board, g.Size()) && Partition(cs, g.Size())
    requires draggedTileId < g.Size()
    ensures TryRigidTranslateSwap(g, board, cs, locked, draggedTileId, dropCellIndex).Moved? <==>
            Acceptable(g, board, locked, DraggedMembers(cs, draggedTileId), draggedTileId, dropCellIndex)
    ensures TryRigidTranslateSwap(g, board, cs, locked, draggedTileId, dropCellIndex).Rejected? ==>
              TryRigidTranslateSwap(g, board, cs, locked, draggedTileId, dropCellIndex).why
                !in {DuplicateDestination, CountMismatch, LockedTileMoved}
  {
    var members := DraggedMembers(cs, draggedTileId);
    assert TryRigidTranslateSwap(g, board, cs, locked, draggedTileId, dropCellIndex)
        == MoveCluster(g, board, locked, members, draggedTileId, dropCellIndex);
    if |members| > 0 && !ClusterHasLockedTile(members, locked) {
      var delta := Translation(g, board, draggedTileId, dropCellIndex);
      if delta != Cell(0, 0) {
        SecondHalfIff(g, board, locked, members, draggedTileId, dropCellIndex);
      }
    }
  }

  /** MoveAcceptedIff past the first three checks. */
  lemma SecondHalfIff(g: Grid, board: seq<nat>, locked: set<nat>, members: seq<nat>,
                      draggedTileId: nat, dropCellIndex: nat)
    requires g.Valid() && IsPermutation(board, g.Size()) && draggedTileId < g.Size()
    requires Distinct(members) && forall i :: 0 <= i < |members| ==> members[i] < g.Size()
    requires |members| > 0 && !ClusterHasLockedTile(members, locked)
    requires Translation(g, board, draggedTileId, dropCellIndex) != Cell(0, 0)
    ensures MoveCluster(g, board, locked, members, draggedTileId, dropCellIndex).Moved? <==>
            Acceptable(g, board, locked, members, draggedTileId, dropCellIndex)
    ensures MoveCluster(g, board, locked, members, draggedTileId, dropCellIndex).Rejected? ==>
              MoveCluster(g, board, locked, members, draggedTileId, dropCellIndex).why == OffGrid ||
              MoveCluster(g, board, locked, members, draggedTileId, dropCellIndex).why == DisplacesLocked
  {
    var pos := TileIndexMap(board);
    var delta := Translation(g, board, draggedTileId, dropCellIndex);
    FootprintOutcome(g, pos, members, delta);
    if Footprint(g, pos, members, delta).Cells? {
      FootprintFitsIff(g, board, locked, members, draggedTileId, dropCellIndex);
    }
  }

  /** SecondHalfIff once every member lands on the grid. */
  lemma FootprintFitsIff(g: Grid, board: seq<nat>, locked: set<nat>, members: seq<nat>,
                         draggedTileId: nat, dropCellIndex: nat)
    requires g.Valid() && IsPermutation(board, g.Size()) && draggedTileId < g.Size()
    requires Distinct(members) && forall i :: 0 <= i < |members| ==> members[i] < g.Size()
    requires |members| > 0 && !ClusterHasLockedTile(members, locked)
    requires Translation(g, board, draggedTileId, dropCellIndex) != Cell(0, 0)
    requires Footprint(g, TileIndexMap(board), members, Translation(g, board, draggedTileId, dropCellIndex)).Cells?
    ensures MoveCluster(g, board, locked, members, draggedTileId, dropCellIndex).Moved? <==>
            Acceptable(g, board, locked, members, draggedTileId, dropCellIndex)
    ensures MoveCluster(g, board, locked, members, draggedTileId, dropCellIndex).Rejected? ==>
              MoveCluster(g, board, locked, members, draggedTileId, dropCellIndex).why == DisplacesLocked
  {
    var src, dst := SecondHalfOutcome(g, board, locked, members, draggedTileId, dropCellIndex);
    var delta := Translation(g, board, draggedTileId, dropCellIndex);
    LandsFreeIff(g, board, locked, members, delta, dst);
  }

  /** The validator's result once every member lands on the grid is the
      second half's result on the footprint. */
  lemma SecondHalfOutcome(g: Grid, board: seq<nat>, locked: set<nat>, members: seq<nat>,
                          draggedTileId: nat, dropCellIndex: nat)
    returns (src: seq<nat>, dst: seq<nat>)
    requires g.Valid() && IsPermutation(board, g.Size()) && draggedTileId < g.Size()
    requires Distinct(members) && forall i :: 0 <= i < |members| ==> members[i] < g.Size()
    requires |members| > 0 && !ClusterHasLockedTile(members, locked)
    requires Translation(g, board, draggedTileId, dropCellIndex) != Cell(0, 0)
    requires Footprint(g, TileIndexMap(board), members, Translation(g, board, draggedTileId, dropCellIndex)).Cells?
    ensures GoodFootprint(board, locked, members, src, dst)
    ensures Elems(src) == Sources(board, members)
    ensures Elems(dst) == Targets(g, board, members, Translation(g, board, draggedTileId, dropCellIndex))
    ensures forall i :: 0 <= i < |members| ==>
              dst[i] == RowColToIndex(g, Destination(g, board, members[i], Translation(g, board, draggedTileId, dropCellIndex)))
    ensures MoveCluster(g, board, locked, members, draggedTileId, dropCellIndex).Moved? <==>
              forall i :: 0 <= i < |dst| ==> board[dst[i]] in members || board[dst[i]] !in locked
    ensures MoveCluster(g, board, locked, members, draggedTileId, dropCellIndex).Rejected? ==>
              MoveCluster(g, board, locked, members, draggedTileId, dropCellIndex).why == DisplacesLocked
    ensures MoveCluster(g, board, locked, members, draggedTileId, dropCellIndex).Moved? ==>
              RelocatedWell(board, locked, members, src, dst,
                            MoveCluster(g, board, locked, members, draggedTileId, dropCellIndex).board)
  {
    src, dst := FirstHalf(g, board, locked, members, draggedTileId, dropCellIndex);
    RelocateOutcome(board, locked, members, src, dst);
    assert MoveCluster(g, board, locked, members, draggedTileId, dropCellIndex)
        == Relocate(board, locked, members, src, dst);
  }

  // ---------------------------------------------------------------------
  // The board after a successful move

  /** What a successful move does to the board, stated through the members'
      cells rather than the validator's lists: a permutation again, every
      member on its translated cell, every cell outside the old and new
      footprint untouched, and every locked tile where it was. */
  ghost predicate MovedWell(g: Grid, board: seq<nat>, locked: set<nat>, members: seq<nat>, delta: Cell, next: seq<nat>)
    requires g.Valid() && IsPermutation(board, g.Size())
    requires forall i :: 0 <= i < |members| ==> members[i] < g.Size()
  {
    && IsPermutation(next, |board|)
    && (forall i :: 0 <= i < |members| ==>
          && InGrid(g, Destination(g, board, members[i], delta))
          && next[RowColToIndex(g, Destination(g, board, members[i], delta))] == members[i])
    && (forall c :: 0 <= c < |board| && c !in Sources(board, members) && c !in Targets(g, board, members, delta)
          ==> next[c] == board[c])
    && (forall c :: 0 <= c < |board| && board[c] in locked ==> next[c] == board[c])
  }

  /** The footprint behind a successful move and what the second half made
      of it. */
  lemma MovedFootprint(g: Grid, board: seq<nat>, cs: ClusterState, locked: set<nat>,
                       draggedTileId: nat, dropCellIndex: nat)
    returns (src: seq<nat>, dst: seq<nat>)
    requires g.Valid() && IsPermutation(board, g.Size()) && Partition(cs, g.Size())
    requires draggedTileId < g.Size()
    requires TryRigidTranslateSwap(g, board, cs, locked, draggedTileId, dropCellIndex).Moved?
    ensures GoodFootprint(board, locked, DraggedMembers(cs, draggedTileId), src, dst)
    ensures Elems(src) == Sources(board, DraggedMembers(cs, draggedTileId))
    ensures Elems(dst) == Targets(g, board, DraggedMembers(cs, draggedTileId), Translation(g, board, draggedTileId, dropCellIndex))
    ensures forall i :: 0 <= i < |DraggedMembers(cs, draggedTileId)| ==>
              dst[i] == RowColToIndex(g, Destination(g, board, DraggedMembers(cs, draggedTileId)[i],
                                                     Translation(g, board, draggedTileId, dropCellIndex)))
    ensures RelocatedWell(board, locked, DraggedMembers(cs, draggedTileId), src, dst,
                          TryRigidTranslateSwap(g, board, cs, locked, draggedTileId, dropCellIndex).board)
    ensures LandsOnGrid(g, board, DraggedMembers(cs, draggedTileId), Translation(g, board, draggedTileId, dropCellIndex))
  {
    var members := DraggedMembers(cs, draggedTileId);
    var delta := Translation(g, board, draggedTileId, dropCellIndex);
    assert TryRigidTranslateSwap(g, board, cs, locked, draggedTileId, dropCellIndex)
        == MoveCluster(g, board, locked, members, draggedTileId, dropCellIndex);
    assert |members| > 0 && !ClusterHasLockedTile(members, locked) && delta != Cell(0, 0);
    assert Footprint(g, TileIndexMap(board), members, delta).Cells?;
    FootprintOutcome(g, TileIndexMap(board), members, delta);
    src, dst := SecondHalfOutcome(g, board, locked, members, draggedTileId, dropCellIndex);
  }

  /** A successful move leaves the board MovedWell. */
  lemma MovedBoard(g: Grid, board: seq<nat>, cs: ClusterState, locked: set<nat>,
                   draggedTileId: nat, dropCellIndex: nat)
    requires g.Valid() && IsPermutation(board, g.Size()) && Partition(cs, g.Size())
    requires draggedTileId < g.Size()
    requires TryRigidTranslateSwap(g, board, cs, locked, draggedTileId, dropCellIndex).Moved?
    ensures MovedWell(g, board, locked, DraggedMembers(cs, draggedTileId), Translation(g, board, draggedTileId, dropCellIndex),
                      TryRigidTranslateSwap(g, board, cs, locked, draggedTileId, dropCellIndex).board)
  {
    var members := DraggedMembers(cs, draggedTileId);
    var delta := Translation(g, board, draggedTileId, dropCellIndex);
    var next := TryRigidTranslateSwap(g, board, cs, locked, draggedTileId, dropCellIndex).board;
    var src, dst := MovedFootprint(g, board, cs, locked, draggedTileId, dropCellIndex);
    forall c | 0 <= c < |board| && c !in Sources(board, members) && c !in Targets(g, board, members, delta)
      ensures next[c] == board[c]
    {
      assert c !in Elems(src) && c !in Elems(dst);
    }
  }

  /** The occupants displaced by a successful move fill the vacated cells
      pairwise in ascending order: the k-th smallest vacated cell receives
      the tile from the k-th smallest newly covered cell. */
  lemma MovedPairing(g: Grid, board: seq<nat>, cs: ClusterState, locked: set<nat>,
                     draggedTileId: nat, dropCellIndex: nat, vs: seq<nat>, ns: seq<nat>)
    requires g.Valid() && IsPermutation(board, g.Size()) && Partition(cs, g.Size())
    requires draggedTileId < g.Size()
    requires TryRigidTranslateSwap(g, board, cs, locked, draggedTileId, dropCellIndex).Moved?
    requires StrictlyIncreasing(vs) &&
             Elems(vs) == Sources(board, DraggedMembers(cs, draggedTileId)) -
                          Targets(g, board, DraggedMembers(cs, draggedTileId), Translation(g, board, draggedTileId, dropCellIndex))
    requires StrictlyIncreasing(ns) &&
             Elems(ns) == Targets(g, board, DraggedMembers(cs, draggedTileId), Translation(g, board, draggedTileId, dropCellIndex)) -
                          Sources(board, DraggedMembers(cs, draggedTileId))
    ensures |vs| == |ns|
    ensures forall j :: 0 <= j < |vs| ==>
              && vs[j] < |TryRigidTranslateSwap(g, board, cs, locked, draggedTileId, dropCellIndex).board|
              && ns[j] < |board|
              && TryRigidTranslateSwap(g, board, cs, locked, draggedTileId, dropCellIndex).board[vs[j]] == board[ns[j]]
  {
    var src, dst := MovedFootprint(g, board, cs, locked, draggedTileId, dropCellIndex);
    SourcesDistinct(board, locked, DraggedMembers(cs, draggedTileId), src, dst);
    VacatedNewOnly(src, dst);
    SortDistinct(Vacated(src, dst));
    SortDistinct(NewOnly(src, dst));
    AscendingUnique(vs, Sort(Vacated(src, dst)));
    AscendingUnique(ns, Sort(NewOnly(src, dst)));
  }
}
