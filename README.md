# Edge-matching puzzle solver

This project models the backtracking solver of an edge-matching puzzle in
Dafny. The program reads square tiles whose four edges carry labels, where
`"pasture"` is the blank label. It places the tiles on an R x C board in
input order so that every shared edge shows equal, non-blank labels and no
non-blank edge is left facing an empty cell or the border. Optionally it
also tries each tile under rotations of 90, 180 and 270 degrees. It looks
either for the first solution or for all of them.

The model keeps the solver's imperative form:

- **`Tiles`**: a tile is four stored labels. A rotation is a value in
  {0, 90, 180, 270} kept in the placement. `Rotate` computes the rotated view
  as a pure function, so no tile carries hidden rotation state.
- **`Boards`**: cells, locations and the board as a value (`Grid`). This
  module also holds the reference predicates for a placed solution.
  - `IsSolution`: every tile is placed once, on the board, with all shared
    edges equal and non-blank and no loose edge.
  - `Reflects`: links the board to the placement sequence.
  - The per-step predicates the code checks: `Compatible` (match) and
    `NoLooseEdges` (the completion check).
- **`Frontiers`**: the frontier `FindNearby` computes, as a row-major scan
  written as functions. Lemmas prove what the scan yields.
- **`SearchTree`**: the search tree as ghost functions.
  - `Completions(tiles, g, locs, allowRotations)` lists, in depth-first
    order, every completion the search reaches from a partial placement.
  - The first-solution search returns its first element. The all-solutions
    search returns all of it.
  - Lemmas prove that every element is a solution extending the placement,
    and that no element occurs twice.
- **`EdgeMatch`**: the class `Solver`.
  - Fields: the board as an `array2<Cell>` (with a ghost `Grid` mirror), the
    `locations` sequence the search pushes and pops, and the `solutions` list.
  - Methods with loops and frames for `NotInVector`, `FindNearby`,
    `NotLoose`, `match`, `FindSolution`, `FindSolutionR`, `FindAllSolutions`
    and `FindAllSolutionsR`.
  - The module-level driver `SolvePuzzle` stands for the board-size guard and
    the four search modes of `main`.

Where the code does something its authors evidently did not intend, the
model follows the intended behaviour. A comment at the place in the Dafny
records each such deviation, and "Left out" lists them.

## Model

| member | source | states |
|---|---|---|
| EdgeMatch.NotInVector | main.cpp:125-131 | returns false exactly when some entry names cell (r, c), and true otherwise |
| EdgeMatch.Solver.constructor | main.cpp:736-738 | a fresh empty board of R x C cells that matches its ghost mirror, with no locations and no solutions |
| EdgeMatch.Solver.OfferCell | main.cpp:143-158 | one neighbour test: (r, c) is appended unrotated exactly when it is on the board and named neither in the frontier so far nor in the placement (the reference `Offer`) |
| EdgeMatch.Solver.VisitCell | main.cpp:140-160 | an occupied cell offers its neighbours below, above, right and left, in that order; an empty cell offers nothing (the reference `Visit`) |
| EdgeMatch.Solver.ScanLine | main.cpp:139-160 | one row of the scan appends exactly what the reference row scan `ScanRow` appends, and notes whether an occupied cell has been seen so far |
| EdgeMatch.Solver.FindNearby | main.cpp:134-166 | the result is the reference frontier `Frontier(grid, locations)`: the row-major scan offering each occupied cell's neighbours in the order down, up, right, left, or the seed on an empty board |
| Frontiers.FrontierExact | main.cpp:138-162 | on a board with a tile, the frontier names each cell at most once, with rotation 0, and names exactly the on-board neighbours of occupied cells that are not yet in the placement. It does not test emptiness, just as main.cpp:143-158 tests only the placement |
| Frontiers.FrontierOfEmptyBoard | main.cpp:136-137 | on a board with no tile the frontier is the seed alone, which is (4, 4) on every board of at least 5 x 5 |
| Frontiers.Seed | main.cpp:163-165 | the seed is on the board and unrotated, and is (4, 4) whenever the board has at least five rows and five columns |
| Frontiers.FrontierFresh | main.cpp:138-165 | on a board that reflects the placement, every frontier cell is on the board, not yet in the placement and empty |
| Frontiers.FrontierDistinct | main.cpp:142-160 | the frontier never names a cell twice |
| EdgeMatch.Solver.NotLoose | main.cpp:168-201 | returns true exactly when no placed tile has a non-blank edge facing the border or an empty cell |
| EdgeMatch.Solver.CellCovered | main.cpp:172-199 | for one placed tile, true exactly when each of its non-blank rotated edges faces an occupied cell on the board |
| Boards.NoLooseIffSealed | main.cpp:168-201 | on a board that reflects the placement, the completion check holds exactly when every placed tile's non-blank edges face placed tiles (`Sealed`) |
| EdgeMatch.Solver.CompareSide | main.cpp:360-385 | the flag of one side is false exactly when the neighbour on that side is occupied and shows a different label on the shared edge; the side counts towards `level` exactly when that neighbour is occupied, agrees and the label is non-blank |
| EdgeMatch.Solver.CompareSides | main.cpp:214-400 | all four flags hold and `level` equals the number of occupied neighbours exactly when every occupied neighbour shows the same, non-blank label on the shared edge (`Compatible`) |
| Boards.SaturationCount | main.cpp:401-428 | the count of matched non-blank edges equals the number of occupied neighbours exactly when every occupied neighbour was matched |
| EdgeMatch.Solver.Saturated | main.cpp:214-428 | true exactly when every occupied on-board neighbour shows the same, non-blank label on the shared edge, that is, all flags hold and `level == NumTiles - NumNULL` |
| EdgeMatch.Solver.CountNeighbours | main.cpp:401-425 | `NumTiles - NumNULL` is the number of occupied cells among the on-board neighbours |
| EdgeMatch.Solver.ProbeLast | main.cpp:430-440 | the completion check runs with the last tile tentatively placed; afterwards the board is unchanged, so the cell is empty again |
| EdgeMatch.Solver.Match | main.cpp:203-445 | accepts exactly when the rotated tile is `Compatible` with its occupied neighbours and, for the last tile, the completion check passes with it placed; the board is unchanged and the cell (r, c) is empty on return |
| Boards.SetThenClear | main.cpp:431-438 | placing a tile on an empty cell and emptying it again gives back the same board |
| EdgeMatch.Solver.SetTile | main.cpp:464 | the board changes in cell (r, c) only |
| SearchTree.ChildInv | main.cpp:461-465 | a tile that match accepts at a free frontier cell keeps the search invariant: the board reflects the placement, shared edges fit, and a full placement is sealed |
| Boards.PlaceExtends | main.cpp:461-465 | putting a compatible tile on a free cell keeps the board reflecting the placement and every placed pair of neighbours fitting |
| EdgeMatch.Solver.TryAt | main.cpp:459-474 | one attempt: success exactly when the search tree below the candidate has a leaf, leaving its first leaf in `locations`; on failure the board and `locations` are as on entry |
| EdgeMatch.Solver.FindSolution | main.cpp:449-476 | true exactly when the search tree (rotation 0 only) has a leaf. On true, `locations` is its first leaf, extends the entry placement and is a solution, so every `tiles[k]` sits at `locations[k]`. On false, the board and `locations` are exactly as on entry |
| EdgeMatch.Solver.TryRotations | main.cpp:488-557 | tries the rotations 0, 90, 180 and 270 at one cell in that order and succeeds with the first leaf below them, restoring board and `locations` on failure |
| EdgeMatch.Solver.FindSolutionR | main.cpp:478-560 | the same contract as FindSolution over the search tree that tries the four rotations at each frontier cell |
| SearchTree.CandidatesFixed | main.cpp:459-461 | without rotations the search tries each frontier cell once, in frontier order, under rotation 0 |
| SearchTree.CandidatesRotating | main.cpp:487-557 | with rotations the search tries, cell by cell in frontier order, rotations 0, 90, 180, 270 each |
| SearchTree.CompletionsSound | main.cpp:449-476 | every leaf of the search tree is a solution (`IsSolution`: length `tiles.size()`, each cell used once, all edges matched, none loose) that extends the placement it grew from |
| SearchTree.FirstSound | main.cpp:449-452 | the first leaf, when there is one, is a solution extending the placement |
| SearchTree.ScanHit | main.cpp:459-475 | when no leaf lies below the frontier cells tried so far and one lies below the next, the first leaf of the whole search is the first below that cell |
| SearchTree.FixedInRotating | main.cpp:459-491 | every completion the fixed-orientation search reaches is also reached by the rotating search, since rotation 0 is tried first at every frontier cell |
| SearchTree.ScanMiss | main.cpp:459-475 | when no leaf lies below the first i frontier cells nor below cell i, then no leaf lies below the first i + 1 cells either, so the loop goes on with an empty result |
| SearchTree.BranchesHas | main.cpp:459-475 | a leaf below any one candidate of a level is a leaf of that level |
| SearchTree.CompletionsNoDup | main.cpp:562-693 | the enumeration lists each of its solutions once |
| SearchTree.CandidatesNoDup | main.cpp:459-557 | the candidate lists the search loops try (one per frontier cell, or four rotations per cell) have no repeats when the frontier has none, which the `NotInVector(Nearby, …)` tests at main.cpp:142-160 ensure |
| EdgeMatch.Solver.EnumerateAt | main.cpp:670-690 | appends to `solutions` exactly the leaves below one candidate, in order, and leaves the board and `locations` as on entry |
| EdgeMatch.Solver.EnumerateBelow | main.cpp:674-686 | puts the accepted tile down, appends every completion below it and takes it off again |
| EdgeMatch.Solver.FindAllSolutions | main.cpp:662-693 | appends every leaf of the search tree (rotation 0 only) to `solutions` in search order, each a solution of length `tiles.size()`, and leaves the board and `locations` as on entry |
| EdgeMatch.Solver.EnumerateRotations | main.cpp:570-657 | appends, for rotations 0, 90, 180, 270 in order, the leaves below each, restoring board and `locations` |
| EdgeMatch.Solver.FindAllSolutionsR | main.cpp:562-660 | the same contract as FindAllSolutions over the rotating search tree |
| EdgeMatch.SolvePuzzle | main.cpp:711-827 | refuses a board exactly when it has no rows, no columns or fewer cells than tiles. Every reported placement is a solution and none is reported twice. The all-solutions modes report the whole enumeration, the first-solution modes its first element or nothing |
| Tiles.QuarterTurn | main.cpp:212 | a quarter turn moves the label of each side to the next side clockwise |
| Tiles.RotateMovesEdges | main.cpp:212 | under rotation r, the label stored on side d is shown on side d turned r/90 quarters clockwise |
| Tiles.RotateCompose | main.cpp:497-503 | rotating a rotated view composes the rotations modulo a full turn, so a view never depends on an earlier rotation beyond their sum |
| Tiles.RotateInverse | main.cpp:497-503 | every rotation is undone by its complement, the role `rotate(0)` plays in the source |

## Left out

- Command-line handling, usage messages and `exit` (main.cpp:24-101) are not modelled. They are I/O; `SolvePuzzle` takes the two options as parameters.
- Reading the tile file (main.cpp:105-122) is not modelled, because it is file I/O. The tiles are a parameter.
- `RandomlyPlaceTiles` (main.cpp:40-59) is left out, since it is a random demonstration with no matching logic.
- All printing is left out: debug traces, solution output and the ASCII board.
- `new`/`delete` of tiles is left out, because memory management is outside the model.
- The headers of `Tile`, `Board` and `Location` are not part of this model. Tiles are four labels, and `Rotate` turns them a quarter clockwise per 90 degrees. The direction is an assumption, since the header is not available.
- Seed: the source always seeds (4, 4) (main.cpp:164), which is off the board on boards with fewer than five rows or columns. The model seeds (min(4, R-1), min(4, C-1)), which is (4, 4) on every board of at least 5 x 5.
- EdgeMatch.Solver.NotLoose: the loop counter the source leaves uninitialised (main.cpp:170) starts at 0. The bounds tests `row + 1 > numRows` and `column + 1 > numColumns` (main.cpp:181, 193) are taken as `>=`, so an edge facing the bottom or right border is loose instead of being read off the board.
- EdgeMatch.Solver.NotLoose requires every placed cell to hold a tile, which the source needs in order to dereference it. EdgeMatch.Solver.Match requires a state the modelled search produces at every call: the board reflects the earlier locations, and the cell is free and on the board. The source's first-solution searches produce such states on boards of at least 5 x 5. Two source paths call match outside them, as the Seed and FindAllSolutions lines record. One is the off-board seed (main.cpp:164). The other is the all-solutions code (main.cpp:575-587, 675-687), whose board still holds tiles that `locations` no longer names.
- EdgeMatch.Solver.CompareSides: the source's eight border cases (main.cpp:214-359) go wrong on one-row or one-column boards, in two ways. Their reads leave the board. Also, two cases fire for the same cell: on one row, `r==0 && c==0` (main.cpp:215) and `r==numRows()-1 && c==0` (main.cpp:258) both hold. The shared east edge is then counted twice in `level` (main.cpp:222-227 and 265-270), so the saturation test `level == NumTiles-NumNULL` (main.cpp:428) fails for any matched non-blank edge. The model checks each neighbour once, exactly when it is on the board. This is what the interior case does and what the cases evidently intend.
- EdgeMatch.Solver.FindAllSolutions and EdgeMatch.Solver.FindAllSolutionsR model the enumeration that the option promises, not the code as written. The source (main.cpp:575-587, 675-687) delegates each accepted candidate to the first-solution search. After recording a solution it pops one location and never clears the board, so later candidates run on a board and a placement that disagree. The model explores every candidate to the end and undoes it.
- Zero tiles: the model reports the single empty placement. The source's first-solution search returns true at once (main.cpp:450). Its all-solutions searches have no such test on entry (main.cpp:562-571, 662-672). They push the seed, and `match` reads `tiles[0]` of the empty vector (main.cpp:211-212). The model's all-solutions methods record a full placement instead, as the first-solution search does.
- The search is only as complete as the source's strategy. Tile k always goes to a cell adjacent to an earlier tile or to the seed, so a solution the frontier never reaches is not found. The model proves soundness, order and absence of duplicates, not completeness.
- SolvePuzzle: the guard `rows * columns < tiles.size()` (main.cpp:711) multiplies two `int`s, which is undefined behaviour once the product passes 2^31 - 1. The model's product is unbounded.
- The tile-rotation state the source mutates and resets by hand (main.cpp:212, 497, 503) has no counterpart, because rotation lives in the placement.
