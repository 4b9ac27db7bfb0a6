/** The lock set: tile ids that have been seen in their own cell after a
    successful move. Locked tiles can no longer be dragged or displaced. */
module Locking {
  import opened Boards

  /** The tiles currently sitting in their own cell. */
  function AtHome(board: seq<nat>): (home: set<nat>)
    ensures forall t: nat :: t in home <==> t < |board| && board[t] == t
  {
    set i | 0 <= i < |board| && board[i] == i
  }

  /** Every locked tile sits in its own cell. */
  predicate LockedAtHome(board: seq<nat>, locked: set<nat>) {
    forall t: nat :: t in locked ==> t < |board| && board[t] == t
  }

  /** lockCorrectTilesNow: one ascending pass over the cells, adding the
      tile of every cell that holds its own tile. The lock set only grows,
      every tile at home ends up locked, so a second pass over the same
      board adds nothing, and the pass keeps every locked tile at home. */
  method LockCorrectTilesNow(board: seq<nat>, locked: set<nat>) returns (locked': set<nat>)
    ensures locked' == locked + AtHome(board)
    ensures locked <= locked' && locked' + AtHome(board) == locked'
    ensures LockedAtHome(board, locked) <==> LockedAtHome(board, locked')
  {
    locked' := locked;
    var index := 0;
    while index < |board|
      invariant 0 <= index <= |board|
      invariant locked' == locked + set i | 0 <= i < index && board[i] == i
    {
      var tileId := board[index];
      if tileId == index {
        locked' := locked' + {tileId};
      }
      index := index + 1;
    }
  }
}
