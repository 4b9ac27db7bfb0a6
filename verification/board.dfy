/** The board: a permutation mapping each cell index to the id of the tile
    occupying it. Tile t belongs in cell t, so the solved board is the
    identity permutation. */
module Boards {
  import opened Grid
  import opened Seqs

  /** A board over n cells: length n, every entry a tile id below n, no tile
      twice. */
  predicate IsPermutation(b: seq<nat>, n: nat) {
    && |b| == n
    && (forall i :: 0 <= i < |b| ==> b[i] < n)
    && Distinct(b)
  }

  predicate Solved(b: seq<nat>) {
    forall i :: 0 <= i < |b| ==> b[i] == i
  }

  function Identity(n: nat): seq<nat> {
    seq(n, i => i)
  }

  /** initializeSolvedBoard: the board of a rows x cols grid with every
      tile in its own cell. */
  function InitializeSolvedBoard(g: Grid): (b: seq<nat>)
    ensures IsPermutation(b, g.Size())
    ensures Solved(b)
  {
    Identity(g.Size())
  }

  /** There is exactly one solved board of each size. */
  lemma SolvedIffIdentity(b: seq<nat>)
    ensures Solved(b) <==> b == Identity(|b|)
  {
  }

  /** isSolved: scans the cells in ascending order and stops at the first
      cell whose tile is not its own. */
  method IsSolved(b: seq<nat>) returns (solved: bool)
    ensures solved <==> Solved(b)
  {
    var i := 0;
    while i < |b|
      invariant 0 <= i <= |b|
      invariant forall j :: 0 <= j < i ==> b[j] == j
    {
      if b[i] != i {
        return false;
      }
      i := i + 1;
    }
    return true;
  }

  /** Exchanges the tiles of cells i and j. */
  function Swap(b: seq<nat>, i: nat, j: nat): (r: seq<nat>)
    requires i < |b| && j < |b|
    ensures |r| == |b|
    ensures forall n: nat :: IsPermutation(b, n) ==> IsPermutation(r, n)
    ensures r[i] == b[j] && r[j] == b[i]
    ensures forall k :: 0 <= k < |b| && k != i && k != j ==> r[k] == b[k]
  {
    b[i := b[j]][j := b[i]]
  }

  lemma SubsetSameCard(a: set<nat>, b: set<nat>)
    requires a <= b && |a| == |b|
    ensures a == b
  {
    assert b == a + (b - a);
    assert a * (b - a) == {};
    assert |b - a| == 0;
  }

  /** Pigeonhole: a permutation of [0, n) holds every tile id below n. */
  lemma PermutationCovers(b: seq<nat>, n: nat)
    requires IsPermutation(b, n)
    ensures forall t :: 0 <= t < n ==> t in b
  {
    var ids := Identity(n);
    DistinctCard(b);
    DistinctCard(ids);
    assert Elems(b) <= Elems(ids) by {
      forall x | x in Elems(b) ensures x in Elems(ids) {
        assert ids[x] == x;
      }
    }
    SubsetSameCard(Elems(b), Elems(ids));
    forall t | 0 <= t < n ensures t in b {
      assert ids[t] == t;
      assert t in Elems(ids);
    }
  }

  /** buildTileIndexMap: the inverse permutation, giving for each tile id
      the cell it currently occupies; filled by one pass over the cells. */
  function TileIndexMap(b: seq<nat>): (pos: seq<nat>)
    requires IsPermutation(b, |b|)
    ensures |pos| == |b|
    ensures forall i :: 0 <= i < |b| ==> pos[b[i]] == i
    ensures forall t :: 0 <= t < |b| ==> pos[t] < |b| && b[pos[t]] == t
    ensures IsPermutation(pos, |b|)
  {
    var pos := WriteAll(seq(|b|, _ => 0), b, Identity(|b|));
    PermutationCovers(b, |b|);
    assert forall t :: 0 <= t < |b| ==> pos[t] < |b| && b[pos[t]] == t by {
      forall t | 0 <= t < |b| ensures pos[t] < |b| && b[pos[t]] == t {
        var i := IndexOf(b, t);
        assert pos[b[i]] == i;
      }
    }
    pos
  }
}
