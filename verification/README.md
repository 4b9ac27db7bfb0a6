# Phuzzle puzzle engine in Dafny

Phuzzle is a browser jigsaw game. A photo is cut into a `rows x cols` grid of
tiles, and the board records which tile sits in each cell. The player drags a
tile and drops it on a cell. The whole **cluster** of the dragged tile moves
rigidly by the drag's translation. A cluster is a group of tiles already
joined to their true neighbours ("mated"). The tiles it lands on move into the
cells it left. Tiles seen in their own cell after a move become **locked**:
they can no longer be dragged or displaced. The game is won when every cell
holds its own tile.

This project models that engine as pure Dafny functions and methods over
immutable values, and proves what the engine promises.

- `grid.dfy` (`Grid`): the grid, the index and (row, col) conversions,
  4-neighbour adjacency.
- `seqs.dfy` (`Seqs`): sequence helpers.
  - Distinctness and insertion sort (the numeric `sort`).
  - Filtering, and writing a list of values into a list of cells.
- `board.dfy` (`Boards`):
  - The board as a permutation.
  - The solved board and the solved test.
  - `buildTileIndexMap` as the inverse permutation.
  - Transposition.
- `unionfind.dfy` (`UnionFind`): the union-find of `recomputeClusters`.
  - `find` with path halving.
  - `union` by rank, with equal ranks linking b's root under a's root.
  - The roots it denotes.
- `clusters.dfy` (`Clusters`): `isMatedPair` and `recomputeClusters`.
  - The scan over right and down neighbours.
  - The grouping pass.
  - The proof that the result is exactly the connected components of the
    mated relation.
- `cluster_facts.dfy` (`ClusterFacts`):
  - `getClusterFromIndex` and `clusterHasLockedTile`.
  - Clusters are rigid.
  - The solved board is one cluster.
- `move.dfy` (`Move`): `tryRigidTranslateSwap`.
  - The validator as a function returning either the new board or the check
    that refused.
  - Its correctness.
- `locking.dfy` (`Locking`): `lockCorrectTilesNow`.
- `shuffle.dfy` (`Shuffle`): the board and lock-set part of `shuffleBoard`.
- `session.dfy` (`Session`):
  - Starting a game.
  - `completeMoveIfNeeded`, with the invariant that every reachable state
    keeps.
- `settings.dfy` (`Settings`): `setDifficulty`, `difficultyKey`,
  `formatTime` and `stepPhoto`.
- `scenario.dfy` (`Scenario`): a small worked example on a 2x2 board.

Some decisions about how the model is shaped:

- **Refusal reasons.** `tryRigidTranslateSwap` returns `false` at eight
  points. The model returns `Rejected(reason)`, naming which of those
  points refused. The reasons are a modelling aid: app.js does not
  expose them.
- **Destination cells.** app.js computes each member's destination as
  `anchorDst + (srcCell - anchorSrc)`. That is the same cell as
  `srcCell + (anchorDst - anchorSrc)`, and the model uses the second form
  (`Shifted`).
- **Indices.** Cell indices and tile ids are `nat`. Every division and
  remainder in the core is on non-negative values, so Dafny's `/` and `%`
  agree with app.js's `Math.floor` and `%`. The one exception is
  `stepPhoto`, which has its own JavaScript remainder (`JsRem`).
- **Randomness.** `shuffleBoard` draws its random transpositions from
  `Math.random`. The model takes the drawn pairs as a parameter.

## Model

| member | source | states |
|---|---|---|
| Grid.IndexToRowCol | app.js:209-211 | the cell of an index has a non-negative row and a column inside the grid |
| Grid.IndexRoundTrip | app.js:209-215 | rowColToIndex undoes indexToRowCol for every index |
| Grid.CellRoundTrip | app.js:209-215 | indexToRowCol undoes rowColToIndex for every cell with a non-negative row and an in-range column |
| Grid.IndexInGrid | app.js:209-211 | an index is below rows*cols exactly when its cell is on the grid |
| Grid.IndexInjective | app.js:213-215 | two on-grid cells share an index exactly when they are the same cell |
| Boards.InitializeSolvedBoard | app.js:194-196 | the fresh board is a permutation of the rows*cols tiles and is solved |
| Boards.IsSolved | app.js:198-203 | the scan answers true exactly when every cell holds its own tile |
| Boards.SolvedIffIdentity | app.js:194-203 | the solved board of each size is exactly the identity board that initializeSolvedBoard builds |
| Boards.Swap | app.js:441-444 | a transposition keeps a permutation a permutation, exchanges the two cells and changes no other |
| Boards.PermutationCovers | app.js:291-297 | every tile id below n occurs on a board of n cells, so the index map has no holes |
| Boards.TileIndexMap | app.js:291-297 | the index map is the inverse permutation: composing it with the board either way gives the identity |
| UnionFind.Init | app.js:233-234 | before any union every element is its own root |
| UnionFind.HalvingStep | app.js:238-241 | one path-halving assignment keeps the forest well-formed and leaves every element's root unchanged |
| UnionFind.Find | app.js:236-243 | find returns the root of x, and path halving leaves every element's root unchanged |
| UnionFind.Link | app.js:250-258 | linking root lo under root hi relabels exactly lo's set with hi |
| UnionFind.Union | app.js:245-259 | after union(a, b) the sets of a and b are one set whose root is one of the two old roots, and every other set is unchanged |
| Clusters.IsMatedPair | app.js:217-229 | mated cells are 4-neighbours |
| Clusters.MatedIffSameDisplacement | app.js:217-229 | two cells are mated exactly when they are neighbours whose tiles are displaced from home by the same vector |
| Clusters.MatedSymmetric | app.js:217-229 | matedness does not depend on the order of the two cells |
| Clusters.ScanGrid | app.js:261-277 | after the row-major scan every mated right or down pair shares a root, and every tile reaches its root through a chain of mated cells |
| Clusters.GroupByRoot | app.js:279-286 | each tile's recorded root is its find root, and the member lists partition the tiles in ascending order |
| Clusters.RecomputeClusters | app.js:231-289 | the cluster state partitions the tiles, puts mated tiles together, and joins only tiles linked by a chain of mated cells |
| ClusterFacts.SameRootIffConnected | app.js:231-289 | two tiles share a root exactly when a chain of mated neighbours joins them |
| ClusterFacts.ClustersUnique | app.js:231-289 | any two cluster states of the same board group the tiles identically |
| ClusterFacts.ClusterIsRigid | app.js:217-289 | all members of a cluster are displaced from their home cells by the same vector |
| ClusterFacts.GetClusterFromIndex | app.js:299-304 | on a partition, the tile under the cell is a member of the returned cluster |
| ClusterFacts.ClusterIsComponent | app.js:299-304 | the returned members are exactly the tiles connected to the tile under the cell |
| ClusterFacts.ClusterHasLockedTile | app.js:306-311 | true exactly when some member is in the lock set |
| ClusterFacts.IdentityOneCluster | app.js:194-196 | on the solved board every tile shares tile 0's root, so the whole picture is one cluster |
| Move.DraggedMembers | app.js:314-316 | on a partition the member list is duplicate-free, in range, and holds the dragged tile |
| Move.ShiftInjective | app.js:337-349 | translating two cells by the same vector maps them to the same index exactly when they are the same cell |
| Move.Footprint | app.js:337-360 | a built footprint lists each member's current cell and its on-grid translated cell, with no destination twice |
| Move.FootprintOutcome | app.js:337-360 | the footprint is built exactly when every member lands on the grid, so the duplicate-destination check never fires |
| Move.VacatedNewOnly | app.js:362-379 | vacated is source minus destination, newOnly is destination minus source, both duplicate-free and of equal length |
| Move.RearrangePermutation | app.js:394-412 | the two write passes turn a permutation into a permutation |
| Move.DisplacesIff | app.js:381-388 | the displacement check refuses exactly when a newly covered cell holds a locked non-member |
| Move.RelocateOutcome | app.js:381-426 | the second half refuses only for a locked displaced tile, and its board puts each member on its destination and keeps locked tiles in place |
| Move.FirstHalf | app.js:313-360 | past the first checks, the footprint's source and destination cells are the members' current and translated cells |
| Move.LandsFreeIff | app.js:381-388 | every landing cell holds a member or an unlocked tile, stated over the destination list or over the translated cells |
| Move.SecondHalfIff | app.js:337-426 | past the first three checks, the move succeeds exactly when it is acceptable, and refuses only as off-grid or locked-displacement |
| Move.FootprintFitsIff | app.js:362-426 | once the footprint is built, the move succeeds exactly when no landing cell holds a locked non-member |
| Move.SecondHalfOutcome | app.js:362-426 | once the footprint is built, the refusals and the resulting board are both described in terms of the translated cells |
| Move.MoveAcceptedIff | app.js:313-426 | a drag succeeds exactly when the cluster is non-empty and unlocked, the translation is non-zero, every member lands on the grid, and no landing cell holds a locked non-member; the duplicate, count and final locked-integrity checks never fire |
| Move.MovedFootprint | app.js:313-426 | a successful move's footprint consists of the members' current and translated cells |
| Move.MovedBoard | app.js:313-426 | a successful move yields a permutation with each member on its translated cell, every cell outside the old and new footprint unchanged, and every locked tile in place |
| Move.MovedPairing | app.js:392-412 | the k-th smallest vacated cell receives the tile of the k-th smallest newly covered cell |
| Locking.LockCorrectTilesNow | app.js:429-434 | the new lock set is the old one plus exactly the tiles now at home: it only grows, a second pass adds nothing, and locked tiles stay at home exactly when they were before |
| Shuffle.SwapCount | app.js:438 | at least 200 and at least 30 per cell, and equal to one of the two |
| Shuffle.ApplySwaps | app.js:439-445 | applying transpositions keeps a permutation a permutation |
| Shuffle.ShuffleBoard | app.js:436-452 | the shuffled board is a permutation that is never solved, the lock set is empty, and the fix-up swap happens exactly when the draws restored the solved board |
| Session.CornerLeaves | app.js:337-345 | any non-zero translation pushes some corner cell off the grid |
| Session.SolvedClusterIsEverything | app.js:314-316 | on the solved board the dragged tile's cluster holds every tile |
| Session.SolvedRefusesMoves | app.js:313-345 | on the solved board every drag is refused |
| Session.NewGame | app.js:436-457 | a new game is consistent, with no locks, no moves and the solved flag down |
| Session.CompleteMove | app.js:1055-1088 | consistency is preserved. A drop commits the validator's board, counts the move, locks exactly the tiles at home and regroups. A drag that is inactive, off-board or refused changes nothing. The lock set only grows. A solved game accepts no move |
| Settings.Decimal | app.js:124 | `String(n)` is a non-empty digit string that starts with '0' exactly when n is 0, so it has no leading zero |
| Settings.ParseDecimalOf | app.js:120-125 | reading back the decimal text of a number gives the number |
| Settings.LeadingZero | app.js:124 | a leading zero does not change a digit string's value |
| Settings.PadStart2 | app.js:124 | padding a digit string to two characters keeps its value |
| Settings.FormatTime | app.js:120-125 | the text is digits, a colon and two digits. Read back, minutes times 60 plus seconds is the whole seconds elapsed. Seconds stay below 60. The text is five characters exactly below 100 minutes, and from 100 minutes on the minutes carry no leading zero |
| Settings.SetDifficulty | app.js:188-192 | the chosen grid is a valid square grid of side 3 to 6, and 4x4 for any other value |
| Settings.DifficultyKey | app.js:112-114 | the key contains the separator x |
| Settings.DifficultyRoundTrip | app.js:112-114 | each menu value is the key of the grid it selects, and the key of a selected grid selects it again |
| Settings.JsRem | app.js:1175 | JavaScript's remainder keeps the dividend's sign, stays below the divisor in size, and differs from the dividend by a multiple of the divisor, which fixes its value (JsRemUnique) |
| Settings.JsRemUnique | app.js:1175 | any value with the sign, size bound and divisibility of JsRem's contract is JsRem's value, so the contract pins JavaScript's `%` |
| Settings.StepPhoto | app.js:1172-1177 | an empty list leaves the index alone; otherwise, whenever photoIndex + delta + total >= 0 (always so for the ±1 buttons from an in-range index), the next index is in range |
| Settings.StepPhotoIsMod | app.js:1172-1177 | stepping is addition modulo the list length |
| Settings.StepPhotoBackAndForth | app.js:1172-1177 | the next and previous buttons wrap at both ends and undo each other |
| Settings.StepBackFromFirst | app.js:1-27 | with the 22 built-in photos, stepping back from the first reaches the last |
| Scenario.SwappedBoard | app.js:194-203 | the board [1, 0, 2, 3] on a 2x2 grid is a permutation and not solved |
| Scenario.SwappedPositions | app.js:291-297 | the index map of [1, 0, 2, 3] is the board itself, since swapping two tiles is its own inverse |
| Scenario.SwappedUnmated | app.js:217-229 | on a 2x2 grid, cells 0 and 1 of [1, 0, 2, 3] have no mated neighbour |
| Scenario.HomeCellsMated | app.js:217-229 | on a 2x2 grid, cells 2 and 3 of [1, 0, 2, 3] are mated |
| Scenario.Isolated | app.js:217-289 | the tile on a cell with no mated neighbour is connected to nothing but itself |
| Scenario.SwappedClusters | app.js:231-289 | any cluster state of [1, 0, 2, 3] on a 2x2 grid keeps tiles 0 and 1 each alone and puts tiles 2 and 3 together |
| Scenario.TileOneAlone | app.js:314-316 | on the clusters of [1, 0, 2, 3], dragging tile 1 moves only tile 1 |
| Scenario.HomePairTogether | app.js:314-316 | on the clusters of [1, 0, 2, 3], dragging tile 2 moves tiles 2 and 3 |
| Scenario.DragDown | app.js:325-331 | dropping tile 1, which sits on cell 0, onto cell 2 is a translation of one row down and no columns |
| Scenario.SwapWithTileTwo | app.js:362-426 | with tile 1 alone leaving cell 0 for cell 2, tile 2 moves to cell 0 and the board becomes [2, 0, 1, 3] |

## Left out

- Drawing is not modelled: canvas, animation, confetti, overlays, watermarks and the lock overlay.
- Pointer handling (`beginDrag`, `moveDrag`, `endDrag`, `boardIndexFromPoint`) is not modelled.
  - `Drag` carries only what `completeMoveIfNeeded` reads.
  - An off-board pointer is `targetIndex = -1`.
- The timer and pause state, `Date.now`, best-time storage and `navigator.vibrate` are not modelled. They are I/O and clock access, and none of them affects the board.
- Photo loading, `randomPhoto` and the photo file names are not modelled. Only the number of photos enters `stepPhoto`.
- Shuffle.ShuffleBoard takes the random cell pairs as a parameter in place of `Math.random`. The pairs must be distinct, as the redraw loop of app.js ensures. On a one-cell board that loop never ends, so the model has no shuffle for it.
- Settings.SetDifficulty treats every value other than the four menu keys as unknown. In app.js, a property name inherited from `Object.prototype` (such as `"constructor"`) is found on the table and yields an undefined size. That cannot come from the menu.
- Settings.PadStart2 only covers strings of digits, which are the only strings `formatTime` pads.
- Scenario.SwapWithTileTwo: proved for the second half of the validator (the relocation from the footprint onward), not for the whole of `tryRigidTranslateSwap(1, 2)`. The members [1] (`TileOneAlone`) and the translation (`DragDown`) are proved separately. The footprint step between them needs the cell arithmetic of a concrete 2x2 grid, and that proof runs out of resource. The general lemmas in `Move` cover the footprint for every board.
