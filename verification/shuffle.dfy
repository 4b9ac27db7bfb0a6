/** shuffleBoard: scramble a solved board by random transpositions. The
    random draws are a parameter: the pairs of distinct cells app.js's
    rejection loop would have produced. */
module Shuffle {
  import opened Grid
  import opened Boards

  /** How many transpositions a board of n cells receives. */
  function SwapCount(n: nat): (k: nat)
    ensures k >= 200 && k >= 30 * n
    ensures k == 200 || k == 30 * n
  {
    if 200 >= n * 30 then 200 else n * 30
  }

  /** A draw of transpositions on n cells: each pair names two different
      cells. */
  predicate ValidDraws(swaps: seq<(nat, nat)>, n: nat) {
    forall i :: 0 <= i < |swaps| ==> swaps[i].0 < n && swaps[i].1 < n && swaps[i].0 != swaps[i].1
  }

  /** The board after applying the first transpositions in order. */
  function ApplySwaps(b: seq<nat>, swaps: seq<(nat, nat)>): (r: seq<nat>)
    requires ValidDraws(swaps, |b|)
    ensures |r| == |b|
    ensures forall n: nat :: IsPermutation(b, n) ==> IsPermutation(r, n)
    decreases |swaps|
  {
    if |swaps| == 0 then b
    else ApplySwaps(Swap(b, swaps[0].0, swaps[0].1), swaps[1..])
  }

  /** The loop of app.js, one transposition per iteration, followed by the
      fix-up that swaps cells 0 and 1 when the draws happened to restore
      the solved board. The lock set is cleared. */
  method ShuffleBoard(g: Grid, swaps: seq<(nat, nat)>) returns (board: seq<nat>, locked: set<nat>)
    requires g.Valid()
    requires |swaps| == SwapCount(g.Size()) && ValidDraws(swaps, g.Size())
    ensures IsPermutation(board, g.Size())
    ensures !Solved(board)
    ensures locked == {}
    ensures Solved(ApplySwaps(InitializeSolvedBoard(g), swaps)) ==>
              board == Swap(ApplySwaps(InitializeSolvedBoard(g), swaps), 0, 1)
    ensures !Solved(ApplySwaps(InitializeSolvedBoard(g), swaps)) ==>
              board == ApplySwaps(InitializeSolvedBoard(g), swaps)
  {
    board := InitializeSolvedBoard(g);
    var i := 0;
    while i < |swaps|
      invariant 0 <= i <= |swaps|
      invariant IsPermutation(board, g.Size())
      invariant ApplySwaps(board, swaps[i..]) == ApplySwaps(InitializeSolvedBoard(g), swaps)
    {
      var a, b := swaps[i].0, swaps[i].1;
      assert swaps[i..][0] == swaps[i] && swaps[i..][1..] == swaps[i + 1..];
      board := board[a := board[b]][b := board[a]];
      i := i + 1;
    }
    assert swaps[i..] == [];
    var solved := IsSolved(board);
    if solved {
      // Two distinct cells exist, so the swap of cells 0 and 1 is in range.
      assert swaps[0].0 != swaps[0].1;
      board := board[0 := board[1]][1 := board[0]];
      assert board[0] == 1;
    }
    locked := {};
  }
}
