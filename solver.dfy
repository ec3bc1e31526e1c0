/**
 * The backtracking solver.
 *
 * A `Solver` owns the board (an R x C array of cells), the placement
 * sequence `locations` that the search grows with each committed tile and
 * shrinks on backtracking, and the list `solutions` that the all-solutions
 * search appends to. Tiles are placed in input order: entry k of
 * `locations` is always where input tile k went.
 */
module EdgeMatch {
  import opened Tiles
  import opened Boards
  import opened Frontiers
  import opened SearchTree

  /** Whether no entry of `v` names the cell (r, c). */
  method NotInVector(v: seq<Location>, r: int, c: int) returns (absent: bool)
    ensures absent <==> !Reserved(v, r, c)
  {
    for i := 0 to |v|
      invariant forall k :: 0 <= k < i ==> v[k].row != r || v[k].column != c
    {
      if r == v[i].row && c == v[i].column {
        return false;
      }
    }
    return true;
  }

  class Solver {
    const tiles: seq<Tile>
    const rows: nat
    const cols: nat
    /** The board: cell (i, j) is empty or holds a tile index and the rotation it was placed under. */
    const board: array2<Cell>
    /** The board's cells as a value, kept equal to `board`. */
    ghost var grid: Grid
    var locations: seq<Location>
    var solutions: seq<seq<Location>>

    ghost predicate Shaped()
      reads this, board
    {
      && rows >= 1 && cols >= 1
      && board.Length0 == rows && board.Length1 == cols
      && grid.rows == rows && grid.cols == cols && grid.Wf()
      && forall i, j :: 0 <= i < rows && 0 <= j < cols ==> board[i, j] == grid.cells[i][j]
    }

    ghost predicate Valid()
      reads this, board
    {
      Shaped() && Inv(tiles, grid, locations)
    }

    /** An empty board of the given extent, nothing placed and nothing found. */
    constructor (tiles: seq<Tile>, rows: nat, cols: nat)
      requires rows >= 1 && cols >= 1
      ensures Valid() && fresh(board)
      ensures this.tiles == tiles && this.rows == rows && this.cols == cols
      ensures grid == EmptyGrid(rows, cols) && locations == [] && solutions == []
    {
      this.tiles := tiles;
      this.rows := rows;
      this.cols := cols;
      board := new Cell[rows, cols]((i, j) => Empty);
      grid := EmptyGrid(rows, cols);
      locations := [];
      solutions := [];
    }

    /** Put `x` into cell (r, c); no other cell changes. */
    method SetTile(r: int, c: int, x: Cell)
      requires Shaped() && InBounds(rows, cols, r, c)
      modifies board, this`grid
      ensures Shaped() && grid == old(grid).Set(r, c, x)
    {
      board[r, c] := x;
      grid := grid.Set(r, c, x);
    }

    /** One neighbour test of FindNearby: append (r, c) if it is on the board and in neither list. */
    method OfferCell(nearby: seq<Location>, r: int, c: int) returns (result: seq<Location>)
      requires Shaped()
      ensures result == Offer(grid, locations, nearby, r, c)
    {
      result := nearby;
      if 0 <= r < rows && 0 <= c < cols {
        var inNearby := NotInVector(nearby, r, c);
        var inLocations := NotInVector(locations, r, c);
        if inNearby && inLocations {
          result := nearby + [Location(r, c, 0)];
        }
      }
    }

    /** The body of FindNearby's scan at (i, j): an occupied cell offers its neighbours below, above, right and left. */
    method VisitCell(nearby: seq<Location>, i: int, j: int) returns (result: seq<Location>)
      requires Shaped() && InBounds(rows, cols, i, j)
      ensures result == Visit(grid, locations, nearby, i, j)
    {
      result := nearby;
      if board[i, j] != Empty {
        assert grid.cells[i][j] == board[i, j];
        result := OfferCell(result, i + 1, j);
        result := OfferCell(result, i - 1, j);
        result := OfferCell(result, i, j + 1);
        result := OfferCell(result, i, j - 1);
      } else {
        assert grid.cells[i][j] == board[i, j];
      }
    }

    /** One row of FindNearby's scan, which also notes whether any occupied cell was seen. */
    method ScanLine(before: seq<Location>, wasEmpty: bool, i: int) returns (nearby: seq<Location>, empty: bool)
      requires Shaped() && 0 <= i < rows
      requires wasEmpty <==> NoneBefore(grid, i, 0)
      ensures nearby == ScanRow(grid, locations, before, i, cols)
      ensures empty <==> NoneBefore(grid, i, cols)
    {
      ghost var g, locs := grid, locations;
      nearby, empty := before, wasEmpty;
      for j := 0 to cols
        invariant nearby == ScanRow(g, locs, before, i, j)
        invariant empty <==> NoneBefore(g, i, j)
      {
        NoneBeforeNext(g, i, j);
        if board[i, j] != Empty {
          empty := false;
        }
        nearby := VisitCell(nearby, i, j);
      }
    }

    /**
     * The cells the next tile may go to, in the order the search tries
     * them: a row-major scan offering, for each occupied cell, its
     * neighbours below, above, right and left; the seed on an empty board.
     */
    method FindNearby() returns (nearby: seq<Location>)
      requires Shaped()
      ensures nearby == Frontier(grid, locations)
    {
      var empty := true;
      nearby := [];
      NoneBeforeStart(grid);
      for i := 0 to rows
        invariant nearby == ScanRows(grid, locations, i)
        invariant empty <==> NoneBefore(grid, i, 0)
      {
        nearby, empty := ScanLine(nearby, empty, i);
        NoneBeforeNextRow(grid, i);
      }
      NoneBeforeEnd(grid);
      if empty {
        // The source seeds (4, 4) on every board (main.cpp:164); see `Seed`.
        nearby := nearby + [Location(Min(4, rows - 1), Min(4, cols - 1), 0)];
      }
    }

    /**
     * The completion check: every non-blank edge of every placed tile faces
     * an occupied cell on the board.
     */
    method NotLoose() returns (ok: bool)
      requires Shaped()
      requires forall k :: 0 <= k < |locations| ==>
        grid.Occ(locations[k].row, locations[k].column)
        && grid.cells[locations[k].row][locations[k].column].tile < |tiles|
      ensures ok == NoLooseEdges(grid, tiles, locations)
    {
      // The source leaves this loop counter uninitialised (main.cpp:170); it starts at 0 here.
      ghost var g, locs := grid, locations;
      for i := 0 to |locations|
        invariant forall k :: 0 <= k < i ==> Covered(g, tiles, locs[k].row, locs[k].column)
      {
        ok := CellCovered(locations[i].row, locations[i].column);
        if !ok {
          return;
        }
        assert Covered(g, tiles, locs[i].row, locs[i].column);
      }
      return true;
    }

    /** The body of the completion loop for one placed tile: none of its non-blank edges is loose. */
    method CellCovered(r: int, c: int) returns (ok: bool)
      requires Shaped() && grid.Occ(r, c) && grid.cells[r][c].tile < |tiles|
      ensures ok == Covered(grid, tiles, r, c)
    {
      var cell := board[r, c];
      assert cell == grid.cells[r][c];
      var temp := Rotate(tiles[cell.tile], cell.rotation);
      if temp.north != Pasture {
        if r - 1 < 0 {
          return false;
        } else if board[r - 1, c] == Empty {
          return false;
        }
      }
      if temp.south != Pasture {
        // The source tests `r + 1 > numRows` (main.cpp:181), which lets the last row through to an off-board read.
        if r + 1 >= rows {
          return false;
        } else if board[r + 1, c] == Empty {
          return false;
        }
      }
      if temp.west != Pasture {
        if c - 1 < 0 {
          return false;
        } else if board[r, c - 1] == Empty {
          return false;
        }
      }
      if temp.east != Pasture {
        // The source tests `c + 1 > numColumns` (main.cpp:193), the same off-by-one as for the south edge.
        if c + 1 >= cols {
          return false;
        } else if board[r, c + 1] == Empty {
          return false;
        }
      }
      return true;
    }

    /**
     * One neighbour test of match: `agrees` is false when the neighbour on
     * side d is occupied and shows a different label on the shared edge;
     * `saturated` says that it is occupied, agrees, and the label is not blank.
     */
    method CompareSide(temp: Tile, r: int, c: int, d: Dir) returns (agrees: bool, saturated: bool)
      requires Shaped() && Indexed(grid, |tiles|)
      ensures !agrees <==>
        grid.Occ(StepRow(r, d), StepCol(c, d))
        && Edge(temp, d) != Edge(CellView(tiles, grid.cells[StepRow(r, d)][StepCol(c, d)]), Opposite(d))
      ensures saturated <==> grid.Occ(StepRow(r, d), StepCol(c, d)) && agrees && Edge(temp, d) != Pasture
      ensures AgreesDir(grid, tiles, temp, r, c, d) <==> agrees && (grid.Occ(StepRow(r, d), StepCol(c, d)) ==> saturated)
    {
      var nr, nc := StepRow(r, d), StepCol(c, d);
      agrees, saturated := true, false;
      if 0 <= nr < rows && 0 <= nc < cols && board[nr, nc].Occupied? {
        var nb := board[nr, nc];
        assert nb == grid.cells[nr][nc];
        if Edge(temp, d) != Edge(Rotate(tiles[nb.tile], nb.rotation), Opposite(d)) {
          agrees := false;
        } else if Edge(temp, d) != Pasture {
          saturated := true;
        }
      }
    }

    /**
     * The four neighbour tests of match, north, south, east and west:
     * `agree` says no occupied neighbour shows a different label on the
     * shared edge, and `level` counts the matched non-blank edges. The tile
     * fits exactly when all agree and every occupied neighbour was counted.
     */
    method CompareSides(temp: Tile, r: int, c: int) returns (agree: bool, level: int)
      requires Shaped() && Indexed(grid, |tiles|)
      ensures Compatible(grid, tiles, temp, r, c) <==> agree && level == OccupiedNeighbours(grid, r, c)
    {
      // The source splits the border cells into eight cases (main.cpp:214-359). On
      // one-row or one-column boards their reads leave the board, and two cases fire
      // for the same corner (main.cpp:215 and 258 when r == 0 == numRows() - 1), so
      // a shared edge is counted twice in level. Here each neighbour is checked once,
      // exactly when it is on the board, as in the interior case.
      Steps(r, c);
      var north, upN := CompareSide(temp, r, c, North);
      var south, upS := CompareSide(temp, r, c, South);
      var east, upE := CompareSide(temp, r, c, East);
      var west, upW := CompareSide(temp, r, c, West);
      level := (if upN then 1 else 0) + (if upS then 1 else 0) + (if upE then 1 else 0) + (if upW then 1 else 0);
      agree := north && south && east && west;
      SaturationCount(grid, r, c, upN, upS, upE, upW);
    }

    /**
     * The saturation count of match: `numTiles` neighbours of (r, c) lie on
     * the board and `numNull` of them are empty.
     */
    method CountNeighbours(r: int, c: int) returns (numNull: int, numTiles: int)
      requires Shaped() && InBounds(rows, cols, r, c)
      ensures numTiles - numNull == OccupiedNeighbours(grid, r, c)
    {
      numNull, numTiles := 0, 4;
      if r + 1 < rows {
        if board[r + 1, c] == Empty {
          numNull := numNull + 1;
        }
      } else {
        numTiles := numTiles - 1;
      }
      if r - 1 >= 0 {
        if board[r - 1, c] == Empty {
          numNull := numNull + 1;
        }
      } else {
        numTiles := numTiles - 1;
      }
      if c + 1 < cols {
        if board[r, c + 1] == Empty {
          numNull := numNull + 1;
        }
      } else {
        numTiles := numTiles - 1;
      }
      if c - 1 >= 0 {
        if board[r, c - 1] == Empty {
          numNull := numNull + 1;
        }
      } else {
        numTiles := numTiles - 1;
      }
    }

    /**
     * The completion check for the last tile: put it on the board, run the
     * check, and empty its cell again.
     */
    method ProbeLast(r: int, c: int) returns (ok: bool)
      requires Shaped() && 1 <= |locations| <= |tiles|
      requires locations[|locations| - 1].row == r && locations[|locations| - 1].column == c
      requires InBounds(rows, cols, r, c)
      requires Reflects(grid, locations[..|locations| - 1])
      requires !Reserved(locations[..|locations| - 1], r, c)
      modifies board, this`grid
      ensures Shaped() && grid == old(grid)
      ensures ok == NoLooseEdges(grid.Set(r, c, Occupied(|locations| - 1, locations[|locations| - 1].rotation)), tiles, locations)
    {
      var n := |locations| - 1;
      ghost var g := grid;
      assert !g.Occ(r, c);
      var x := Occupied(n, locations[n].rotation);
      PlaceReflects(g, locations[..n], locations[n]);
      assert locations[..n] + [locations[n]] == locations;
      SetTile(r, c, x);
      ok := NotLoose();
      SetTile(r, c, Empty);
      SetThenClear(g, r, c, x);
    }

    /**
     * Whether input tile n = |locations| - 1, under the rotation of the last
     * location, may go to (r, c): every occupied neighbour on the board must
     * show the same label on the shared edge, and that label must not be
     * blank. For the last tile the placement must also pass the completion
     * check, run with the tile tentatively on the board and taken off again.
     */
    method Match(r: int, c: int) returns (accepted: bool)
      requires Shaped() && 1 <= |locations| <= |tiles|
      requires locations[|locations| - 1].row == r && locations[|locations| - 1].column == c
      requires InBounds(rows, cols, r, c)
      requires Reflects(grid, locations[..|locations| - 1])
      requires !Reserved(locations[..|locations| - 1], r, c)
      modifies board, this`grid
      ensures Shaped() && grid == old(grid) && grid.cells[r][c] == Empty
      ensures accepted == Accepts(tiles, grid, locations)
    {
      var n := |locations| - 1;
      ghost var g, locs := grid, locations;
      assert !g.Occ(r, c);
      var temp := Rotate(tiles[n], locations[n].rotation);
      ReflectsIndexed(g, locs[..n], |tiles|);
      AcceptsParts(tiles, g, locs, temp, r, c);
      var fits := Saturated(temp, r, c);
      if !fits {
        accepted := false;
      } else if |locations| == |tiles| {
        accepted := ProbeLast(r, c);
      } else {
        accepted := true;
      }
    }

    /**
     * The neighbour tests and the saturation count of match: every flag
     * holds and `level` equals the number of occupied neighbours.
     */
    method Saturated(temp: Tile, r: int, c: int) returns (fits: bool)
      requires Shaped() && Indexed(grid, |tiles|) && InBounds(rows, cols, r, c)
      ensures fits == Compatible(grid, tiles, temp, r, c)
    {
      var agree, level := CompareSides(temp, r, c);
      if !agree {
        return false;
      }
      var numNull, numTiles := CountNeighbours(r, c);
      fits := level == numTiles - numNull;
    }

    // -------------------------------------------------------------------------
    // First-solution search

    /**
     * Try input tile |locations| at `cand`: push the location, ask match,
     * and on acceptance put the tile down and search on. A failed attempt
     * leaves the board and the placement as they were.
     */
    method TryAt(cand: Location, allowRotations: bool) returns (found: bool)
      requires Valid() && |locations| < |tiles| && FreshCell(grid, locations, cand)
      modifies this`locations, this`grid, board
      ensures Valid()
      ensures found <==> Branch(tiles, old(grid), old(locations), allowRotations, cand) != []
      ensures found ==> locations == Branch(tiles, old(grid), old(locations), allowRotations, cand)[0]
      ensures !found ==> locations == old(locations) && grid == old(grid)
      decreases |tiles| - |locations|, 0
    {
      ghost var g0, locs0 := grid, locations;
      var x := Occupied(|locations|, cand.rotation);
      locations := locations + [cand];
      assert locations[..|locations| - 1] == locs0;
      var ok := Match(cand.row, cand.column);
      ghost var below := Branch(tiles, g0, locs0, allowRotations, cand);
      if ok {
        ChildInv(tiles, g0, locs0, cand);
        assert below == Completions(tiles, g0.Set(cand.row, cand.column, x), locations, allowRotations);
        SetTile(cand.row, cand.column, x);
        if allowRotations {
          found := FindSolutionR();
        } else {
          found := FindSolution();
        }
        if !found {
          SetTile(cand.row, cand.column, Empty);
          SetThenClear(g0, cand.row, cand.column, x);
          locations := locations[..|locations| - 1];
        }
      } else {
        assert below == [];
        locations := locations[..|locations| - 1];
        found := false;
      }
    }

    /**
     * Depth-first search for one solution, every tile under rotation 0:
     * succeed at once when every tile is placed, otherwise try the next tile
     * at each frontier cell in turn. Success leaves the solution in
     * `locations` and on the board; failure restores both.
     */
    method FindSolution() returns (found: bool)
      requires Valid()
      modifies this`locations, this`grid, board
      ensures Valid()
      ensures found <==> Completions(tiles, old(grid), old(locations), false) != []
      ensures found ==> locations == Completions(tiles, old(grid), old(locations), false)[0]
      ensures found ==> IsSolution(tiles, rows, cols, locations) && old(locations) <= locations
      ensures !found ==> locations == old(locations) && grid == old(grid)
      decreases |tiles| - |locations|, 2
    {
      ghost var g0, locs0 := grid, locations;
      if |locations| == |tiles| {
        FirstSound(tiles, g0, locs0, false);
        return true;
      }
      var nearby := FindNearby();
      FrontierFresh(g0, locs0);
      ScanAll(tiles, g0, locs0, false, nearby);
      ScanStart(tiles, g0, locs0, false, nearby);
      for i := 0 to |nearby|
        invariant Valid() && grid == g0 && locations == locs0
        invariant Scanned(tiles, g0, locs0, false, nearby, i) == []
      {
        AtCellFixed(tiles, g0, locs0, nearby[i]);
        found := TryAt(Location(nearby[i].row, nearby[i].column, 0), false);
        if found {
          ScanHit(tiles, g0, locs0, false, nearby, i);
          FirstSound(tiles, g0, locs0, false);
          return;
        }
        ScanMiss(tiles, g0, locs0, false, nearby, i);
      }
      found := false;
    }

    /**
     * The four attempts of the rotating search at one frontier cell: the
     * next tile under 0, 90, 180 and 270 degrees, stopping at the first
     * that leads to a solution.
     */
    method TryRotations(cell: Location) returns (found: bool)
      requires Valid() && |locations| < |tiles| && FreshCell(grid, locations, cell)
      modifies this`locations, this`grid, board
      ensures Valid()
      ensures found <==> Branches(tiles, old(grid), old(locations), true, Variants(cell, true)) != []
      ensures found ==> locations == Branches(tiles, old(grid), old(locations), true, Variants(cell, true))[0]
      ensures !found ==> locations == old(locations) && grid == old(grid)
      decreases |tiles| - |locations|, 1
    {
      ghost var g0, locs0 := grid, locations;
      ghost var vs := Variants(cell, true);
      for q := 0 to |AllRotations|
        invariant Valid() && grid == g0 && locations == locs0
        invariant Branches(tiles, g0, locs0, true, vs[..q]) == []
      {
        var cand := Location(cell.row, cell.column, AllRotations[q]);
        assert vs[..q + 1] == vs[..q] + [cand];
        BranchesSnoc(tiles, g0, locs0, true, vs[..q], cand);
        found := TryAt(cand, true);
        if found {
          FirstLeaf(tiles, g0, locs0, true, vs, vs[..q], cand);
          return;
        }
      }
      assert vs[..|AllRotations|] == vs;
      found := false;
    }

    /**
     * The same search with rotations: at each frontier cell the next tile is
     * tried under 0, 90, 180 and 270 degrees, in that order.
     */
    method FindSolutionR() returns (found: bool)
      requires Valid()
      modifies this`locations, this`grid, board
      ensures Valid()
      ensures found <==> Completions(tiles, old(grid), old(locations), true) != []
      ensures found ==> locations == Completions(tiles, old(grid), old(locations), true)[0]
      ensures found ==> IsSolution(tiles, rows, cols, locations) && old(locations) <= locations
      ensures !found ==> locations == old(locations) && grid == old(grid)
      decreases |tiles| - |locations|, 2
    {
      ghost var g0, locs0 := grid, locations;
      if |locations| == |tiles| {
        FirstSound(tiles, g0, locs0, true);
        return true;
      }
      var nearby := FindNearby();
      FrontierFresh(g0, locs0);
      ScanAll(tiles, g0, locs0, true, nearby);
      ScanStart(tiles, g0, locs0, true, nearby);
      for i := 0 to |nearby|
        invariant Valid() && grid == g0 && locations == locs0
        invariant Scanned(tiles, g0, locs0, true, nearby, i) == []
      {
        found := TryRotations(nearby[i]);
        if found {
          ScanHit(tiles, g0, locs0, true, nearby, i);
          FirstSound(tiles, g0, locs0, true);
          return;
        }
        ScanMiss(tiles, g0, locs0, true, nearby, i);
      }
      found := false;
    }

    /**
     * The all-solutions search at one candidate: place the next tile there
     * if match accepts it, record every completion below it, and always undo
     * the placement afterwards.
     */
    method EnumerateAt(cand: Location, allowRotations: bool)
      requires Valid() && |locations| < |tiles| && FreshCell(grid, locations, cand)
      modifies this`locations, this`grid, board, this`solutions
      ensures Valid() && locations == old(locations) && grid == old(grid)
      ensures solutions == old(solutions) + Branch(tiles, old(grid), old(locations), allowRotations, cand)
      decreases |tiles| - |locations|, 1
    {
      ghost var g0, locs0 := grid, locations;
      locations := locations + [cand];
      assert locations[..|locations| - 1] == locs0;
      var ok := Match(cand.row, cand.column);
      ghost var below := Branch(tiles, g0, locs0, allowRotations, cand);
      if ok {
        ChildInv(tiles, g0, locs0, cand);
        assert below == Completions(tiles, g0.Set(cand.row, cand.column, Occupied(|locs0|, cand.rotation)), locations, allowRotations);
        EnumerateBelow(cand, allowRotations);
      } else {
        assert below == [];
      }
      locations := locations[..|locations| - 1];
    }

    /**
     * The accepted branch of the all-solutions search: put the tile `cand`
     * names on the board, enumerate below it, and take it off again.
     */
    method EnumerateBelow(cand: Location, allowRotations: bool)
      requires Shaped() && 1 <= |locations| <= |tiles| && cand == locations[|locations| - 1]
      requires InBounds(rows, cols, cand.row, cand.column) && grid.cells[cand.row][cand.column] == Empty
      requires NonEmptyBoard(grid.Set(cand.row, cand.column, Occupied(|locations| - 1, cand.rotation)))
      requires Inv(tiles, grid.Set(cand.row, cand.column, Occupied(|locations| - 1, cand.rotation)), locations)
      modifies this`locations, this`grid, board, this`solutions
      ensures Shaped() && locations == old(locations) && grid == old(grid)
      ensures solutions == old(solutions)
        + Completions(tiles, old(grid).Set(cand.row, cand.column, Occupied(|old(locations)| - 1, cand.rotation)), old(locations), allowRotations)
      decreases |tiles| - |locations| + 1, 0
    {
      ghost var g0, locs0, sols0 := grid, locations, solutions;
      var x := Occupied(|locations| - 1, cand.rotation);
      ghost var child := g0.Set(cand.row, cand.column, x);
      SetTile(cand.row, cand.column, x);
      assert grid == child;
      if allowRotations {
        FindAllSolutionsR();
      } else {
        FindAllSolutions();
      }
      assert solutions == sols0 + Completions(tiles, child, locs0, allowRotations);
      SetTile(cand.row, cand.column, Empty);
      SetThenClear(g0, cand.row, cand.column, x);
      assert grid == g0;
    }

    /**
     * Every solution extending the current placement, tiles under rotation
     * 0, appended to `solutions` in search order; the placement and the
     * board are left as they were.
     *
     * The source (main.cpp:575-587, 675-687) instead hands each accepted candidate to
     * the first-solution search, records what that search leaves behind,
     * pops only one location after recording it and never clears the board
     * cells of the recorded solution; it then carries on with a board and a
     * placement that no longer agree. Here each candidate is explored to the
     * end and undone, which is the enumeration the command-line option
     * promises.
     */
    method FindAllSolutions()
      requires Valid()
      modifies this`locations, this`grid, board, this`solutions
      ensures Valid() && locations == old(locations) && grid == old(grid)
      ensures solutions == old(solutions) + Completions(tiles, old(grid), old(locations), false)
      decreases |tiles| - |locations|, 3
    {
      ghost var g0, locs0, sols0 := grid, locations, solutions;
      // No counterpart in the source, which always searches the frontier; a full placement is recorded here.
      if |locations| == |tiles| {
        solutions := solutions + [locations];
        return;
      }
      var nearby := FindNearby();
      FrontierFresh(g0, locs0);
      ScanAll(tiles, g0, locs0, false, nearby);
      ScanStart(tiles, g0, locs0, false, nearby);
      for i := 0 to |nearby|
        invariant Valid() && grid == g0 && locations == locs0
        invariant solutions == sols0 + Scanned(tiles, g0, locs0, false, nearby, i)
      {
        ghost var done, here := Scanned(tiles, g0, locs0, false, nearby, i), AtCell(tiles, g0, locs0, false, nearby[i]);
        var cand := Location(nearby[i].row, nearby[i].column, 0);
        ScanNext(tiles, g0, locs0, false, nearby, i);
        AtCellFixed(tiles, g0, locs0, nearby[i]);
        AppendAssoc(sols0, done, here);
        EnumerateAt(cand, false);
      }
    }

    /** The four attempts of the rotating enumeration at one frontier cell, under 0, 90, 180 and 270 degrees. */
    method EnumerateRotations(cell: Location)
      requires Valid() && |locations| < |tiles| && FreshCell(grid, locations, cell)
      modifies this`locations, this`grid, board, this`solutions
      ensures Valid() && locations == old(locations) && grid == old(grid)
      ensures solutions == old(solutions) + Branches(tiles, old(grid), old(locations), true, Variants(cell, true))
      decreases |tiles| - |locations|, 2
    {
      ghost var g0, locs0, sols0 := grid, locations, solutions;
      ghost var vs := Variants(cell, true);
      assert Subtrees(tiles, g0, locs0, true, vs[..0]) == [];
      for q := 0 to |AllRotations|
        invariant Valid() && grid == g0 && locations == locs0
        invariant solutions == sols0 + Branches(tiles, g0, locs0, true, vs[..q])
      {
        var cand := Location(cell.row, cell.column, AllRotations[q]);
        assert vs[..q + 1] == vs[..q] + [cand];
        BranchesSnoc(tiles, g0, locs0, true, vs[..q], cand);
        AppendAssoc(sols0, Branches(tiles, g0, locs0, true, vs[..q]), Branch(tiles, g0, locs0, true, cand));
        EnumerateAt(cand, true);
      }
      assert vs[..|AllRotations|] == vs;
    }

    /** Every solution extending the current placement, each tile under every rotation in turn. */
    method FindAllSolutionsR()
      requires Valid()
      modifies this`locations, this`grid, board, this`solutions
      ensures Valid() && locations == old(locations) && grid == old(grid)
      ensures solutions == old(solutions) + Completions(tiles, old(grid), old(locations), true)
      decreases |tiles| - |locations|, 3
    {
      ghost var g0, locs0, sols0 := grid, locations, solutions;
      // No counterpart in the source, which always searches the frontier; a full placement is recorded here.
      if |locations| == |tiles| {
        solutions := solutions + [locations];
        return;
      }
      var nearby := FindNearby();
      FrontierFresh(g0, locs0);
      ScanAll(tiles, g0, locs0, true, nearby);
      ScanStart(tiles, g0, locs0, true, nearby);
      for i := 0 to |nearby|
        invariant Valid() && grid == g0 && locations == locs0
        invariant solutions == sols0 + Scanned(tiles, g0, locs0, true, nearby, i)
      {
        ghost var done, here := Scanned(tiles, g0, locs0, true, nearby, i), AtCell(tiles, g0, locs0, true, nearby[i]);
        ScanNext(tiles, g0, locs0, true, nearby, i);
        AppendAssoc(sols0, done, here);
        EnumerateRotations(nearby[i]);
      }
    }
  }

  /** What the program reports for one puzzle. */
  datatype Report = BoardTooSmall | Solutions(found: seq<seq<Location>>)

  /**
   * The driver: refuse a board that cannot hold every tile, otherwise run
   * the search the two options select on an empty board. The first-solution
   * searches report at most one solution, the all-solutions searches every
   * one they enumerate.
   */
  method SolvePuzzle(tiles: seq<Tile>, rows: int, cols: int, allSolutions: bool, allowRotations: bool)
    returns (report: Report)
    ensures report.BoardTooSmall? <==> rows < 1 || cols < 1 || rows * cols < |tiles|
    ensures report.Solutions? ==> forall s :: s in report.found ==> IsSolution(tiles, rows, cols, s)
    ensures report.Solutions? ==> NoDup(report.found)
    ensures report.Solutions? && allSolutions ==>
      report.found == Completions(tiles, EmptyGrid(rows, cols), [], allowRotations)
    ensures report.Solutions? && !allSolutions ==>
      report.found == (var all := Completions(tiles, EmptyGrid(rows, cols), [], allowRotations);
                       if all == [] then [] else [all[0]])
  {
    if rows < 1 || cols < 1 || rows * cols < |tiles| {
      return BoardTooSmall;
    }
    var solver := new Solver(tiles, rows, cols);
    CompletionsSound(tiles, solver.grid, [], allowRotations);
    CompletionsNoDup(tiles, solver.grid, [], allowRotations);
    if allSolutions {
      if allowRotations {
        solver.FindAllSolutionsR();
      } else {
        solver.FindAllSolutions();
      }
      return Solutions(solver.solutions);
    }
    var found;
    if allowRotations {
      found := solver.FindSolutionR();
    } else {
      found := solver.FindSolution();
    }
    if found {
      return Solutions([solver.locations]);
    }
    return Solutions([]);
  }
}
