/**
 * Board cells, the placement sequence, and what makes a placement a solution.
 *
 * The board is an R x C grid whose cells are empty or hold the index of an
 * input tile together with the rotation it was placed under. A placement
 * sequence lists one `Location` per placed tile: entry k says where input
 * tile k went and under which rotation.
 */
module Boards {
  import opened Tiles

  datatype Cell = Empty | Occupied(tile: nat, rotation: Rotation)

  datatype Location = Location(row: int, column: int, rotation: Rotation)

  function StepRow(r: int, d: Dir): int
  {
    match d
    case North => r - 1
    case South => r + 1
    case _ => r
  }

  function StepCol(c: int, d: Dir): int
  {
    match d
    case East => c + 1
    case West => c - 1
    case _ => c
  }

  /** The neighbours of (r, c) on each side. */
  lemma Steps(r: int, c: int)
    ensures StepRow(r, North) == r - 1 && StepCol(c, North) == c
    ensures StepRow(r, South) == r + 1 && StepCol(c, South) == c
    ensures StepRow(r, East) == r && StepCol(c, East) == c + 1
    ensures StepRow(r, West) == r && StepCol(c, West) == c - 1
  {
  }

  /** Stepping to a neighbour and back to the opposite side returns to the start. */
  lemma StepBack(r: int, c: int, d: Dir)
    ensures StepRow(StepRow(r, d), Opposite(d)) == r && StepCol(StepCol(c, d), Opposite(d)) == c
  {
  }

  predicate InBounds(rows: int, cols: int, r: int, c: int)
  {
    0 <= r < rows && 0 <= c < cols
  }

  /** Some entry of `v` names the cell (r, c). */
  predicate Reserved(v: seq<Location>, r: int, c: int)
  {
    exists k :: 0 <= k < |v| && v[k].row == r && v[k].column == c
  }

  /** A snapshot of the board's cells, row by row. */
  datatype Grid = Grid(rows: nat, cols: nat, cells: seq<seq<Cell>>)
  {
    predicate Wf()
    {
      |cells| == rows && forall i :: 0 <= i < rows ==> |cells[i]| == cols
    }

    /** The cell (r, c) is on the board and holds a tile. */
    predicate Occ(r: int, c: int)
      requires Wf()
    {
      InBounds(rows, cols, r, c) && cells[r][c].Occupied?
    }

    /** The board with cell (r, c) set to `x` and every other cell as it was. */
    function Set(r: int, c: int, x: Cell): (h: Grid)
      requires Wf() && InBounds(rows, cols, r, c)
      ensures h.Wf() && h.rows == rows && h.cols == cols && h.cells[r][c] == x
      ensures forall i, j :: InBounds(rows, cols, i, j) && (i != r || j != c) ==> h.cells[i][j] == cells[i][j]
    {
      Grid(rows, cols, cells[r := cells[r][c := x]])
    }
  }

  /** An R x C board with no tile on it. */
  function EmptyGrid(rows: nat, cols: nat): (g: Grid)
    ensures g.Wf() && g.rows == rows && g.cols == cols
    ensures forall i, j :: InBounds(rows, cols, i, j) ==> g.cells[i][j] == Empty
  {
    Grid(rows, cols, seq(rows, i => seq(cols, j => Empty)))
  }

  /** Filling an empty cell and emptying it again gives the board back. */
  lemma SetThenClear(g: Grid, r: int, c: int, x: Cell)
    requires g.Wf() && InBounds(g.rows, g.cols, r, c) && g.cells[r][c] == Empty
    ensures g.Set(r, c, x).Set(r, c, Empty) == g
  {
    var h := g.Set(r, c, x).Set(r, c, Empty);
    assert h.cells[r] == g.cells[r];
    assert h.cells == g.cells;
  }

  // ---------------------------------------------------------------------------
  // Placement sequences

  /** The labels input tile k shows under the rotation of `locs[k]`. */
  function Placed(tiles: seq<Tile>, locs: seq<Location>, k: int): Tile
    requires 0 <= k < |locs| <= |tiles|
  {
    Rotate(tiles[k], locs[k].rotation)
  }

  /** Every location is on the board and no two share a cell. */
  predicate WellPlaced(rows: int, cols: int, locs: seq<Location>)
  {
    && (forall k :: 0 <= k < |locs| ==> InBounds(rows, cols, locs[k].row, locs[k].column))
    && (forall i, j :: 0 <= i < j < |locs| ==> locs[i].row != locs[j].row || locs[i].column != locs[j].column)
  }

  /**
   * If tile j sits next to tile i on side d of tile i, the two facing labels
   * are equal and not blank.
   */
  predicate FitsDir(tiles: seq<Tile>, locs: seq<Location>, i: int, j: int, d: Dir)
    requires 0 <= i < |locs| && 0 <= j < |locs| && |locs| <= |tiles|
  {
    locs[j].row == StepRow(locs[i].row, d) && locs[j].column == StepCol(locs[i].column, d)
    ==>
    Edge(Placed(tiles, locs, i), d) == Edge(Placed(tiles, locs, j), Opposite(d))
    && Edge(Placed(tiles, locs, i), d) != Pasture
  }

  predicate Fits(tiles: seq<Tile>, locs: seq<Location>, i: int, j: int)
    requires 0 <= i < |locs| && 0 <= j < |locs| && |locs| <= |tiles|
  {
    FitsDir(tiles, locs, i, j, North) && FitsDir(tiles, locs, i, j, East)
    && FitsDir(tiles, locs, i, j, South) && FitsDir(tiles, locs, i, j, West)
  }

  /** Every two adjacent placed tiles show equal, non-blank labels on their shared edge. */
  predicate Consistent(tiles: seq<Tile>, locs: seq<Location>)
    requires |locs| <= |tiles|
  {
    forall i, j :: 0 <= i < |locs| && 0 <= j < |locs| ==> Fits(tiles, locs, i, j)
  }

  /** If side d of placed tile k is not blank, it faces another placed tile. */
  predicate SealedDir(tiles: seq<Tile>, rows: int, cols: int, locs: seq<Location>, k: int, d: Dir)
    requires 0 <= k < |locs| <= |tiles|
  {
    Edge(Placed(tiles, locs, k), d) != Pasture
    ==>
    var r, c := StepRow(locs[k].row, d), StepCol(locs[k].column, d);
    InBounds(rows, cols, r, c) && Reserved(locs, r, c)
  }

  /** No placed tile has a non-blank edge facing the border or an empty cell. */
  predicate Sealed(tiles: seq<Tile>, rows: int, cols: int, locs: seq<Location>)
    requires |locs| <= |tiles|
  {
    forall k :: 0 <= k < |locs| ==>
      SealedDir(tiles, rows, cols, locs, k, North) && SealedDir(tiles, rows, cols, locs, k, East)
      && SealedDir(tiles, rows, cols, locs, k, South) && SealedDir(tiles, rows, cols, locs, k, West)
  }

  /** A solved puzzle: every tile placed once, on the board, all edges matched, no loose connector. */
  predicate IsSolution(tiles: seq<Tile>, rows: int, cols: int, locs: seq<Location>)
  {
    && |locs| == |tiles|
    && WellPlaced(rows, cols, locs)
    && Consistent(tiles, locs)
    && Sealed(tiles, rows, cols, locs)
  }

  // ---------------------------------------------------------------------------
  // Board and placement sequence together

  /**
   * The board holds exactly the placed tiles: location k's cell holds tile k
   * under location k's rotation, and every occupied cell is some location's.
   */
  ghost predicate Reflects(g: Grid, locs: seq<Location>)
    requires g.Wf()
  {
    && (forall k :: 0 <= k < |locs| ==>
          InBounds(g.rows, g.cols, locs[k].row, locs[k].column)
          && g.cells[locs[k].row][locs[k].column] == Occupied(k, locs[k].rotation))
    && (forall r, c :: g.Occ(r, c) ==> Reserved(locs, r, c))
  }

  /** The labels an occupied cell shows. */
  function CellView(tiles: seq<Tile>, x: Cell): Tile
    requires x.Occupied? && x.tile < |tiles|
  {
    Rotate(tiles[x.tile], x.rotation)
  }

  /** An occupied cell holds the tile of the location that names it. */
  lemma OccupiedByLocation(g: Grid, locs: seq<Location>, r: int, c: int)
    requires g.Wf() && Reflects(g, locs) && g.Occ(r, c)
    ensures g.cells[r][c].tile < |locs|
    ensures locs[g.cells[r][c].tile].row == r && locs[g.cells[r][c].tile].column == c
    ensures locs[g.cells[r][c].tile].rotation == g.cells[r][c].rotation
  {
    var k :| 0 <= k < |locs| && locs[k].row == r && locs[k].column == c;
    assert g.cells[r][c] == Occupied(k, locs[k].rotation);
  }

  /** A board that reflects a placement puts its tiles in distinct cells on the board. */
  lemma ReflectsWellPlaced(g: Grid, locs: seq<Location>)
    requires g.Wf() && Reflects(g, locs)
    ensures WellPlaced(g.rows, g.cols, locs)
  {
    forall i, j | 0 <= i < j < |locs|
      ensures locs[i].row != locs[j].row || locs[i].column != locs[j].column
    {
      assert g.cells[locs[i].row][locs[i].column].tile == i;
      assert g.cells[locs[j].row][locs[j].column].tile == j;
    }
  }

  /** Occupancy on such a board is membership in the placement. */
  lemma ReflectsOcc(g: Grid, locs: seq<Location>, r: int, c: int)
    requires g.Wf() && Reflects(g, locs)
    ensures g.Occ(r, c) <==> InBounds(g.rows, g.cols, r, c) && Reserved(locs, r, c)
  {
    if InBounds(g.rows, g.cols, r, c) && Reserved(locs, r, c) {
      var k :| 0 <= k < |locs| && locs[k].row == r && locs[k].column == c;
      assert g.cells[r][c] == Occupied(k, locs[k].rotation);
    }
  }

  /** Every occupied cell names one of the first `n` input tiles. */
  ghost predicate Indexed(g: Grid, n: int)
    requires g.Wf()
  {
    forall r, c :: g.Occ(r, c) ==> g.cells[r][c].tile < n
  }

  /** A board that reflects a placement of at most `n` tiles names only those tiles. */
  lemma ReflectsIndexed(g: Grid, locs: seq<Location>, n: int)
    requires g.Wf() && Reflects(g, locs) && |locs| <= n
    ensures Indexed(g, n)
  {
    forall r, c | g.Occ(r, c) ensures g.cells[r][c].tile < n {
      OccupiedByLocation(g, locs, r, c);
    }
  }

  /** A board with no occupied cell reflects only the empty placement. */
  lemma ReflectsNothing(g: Grid, locs: seq<Location>)
    requires g.Wf() && Reflects(g, locs)
    requires forall r, c :: !g.Occ(r, c)
    ensures locs == []
  {
    if locs != [] {
      assert g.Occ(locs[0].row, locs[0].column);
    }
  }

  // ---------------------------------------------------------------------------
  // Local compatibility and completion, as read off the board

  /**
   * If the neighbour of (r, c) on side d is occupied, a tile showing `v` at
   * (r, c) meets it with an equal label, and that label is not blank.
   */
  predicate AgreesDir(g: Grid, tiles: seq<Tile>, v: Tile, r: int, c: int, d: Dir)
    requires g.Wf()
  {
    var nr, nc := StepRow(r, d), StepCol(c, d);
    g.Occ(nr, nc) ==>
      && g.cells[nr][nc].tile < |tiles|
      && Edge(v, d) == Edge(CellView(tiles, g.cells[nr][nc]), Opposite(d))
      && Edge(v, d) != Pasture
  }

  /** A tile showing `v` may go to (r, c): it agrees with every occupied neighbour. */
  predicate Compatible(g: Grid, tiles: seq<Tile>, v: Tile, r: int, c: int)
    requires g.Wf()
  {
    AgreesDir(g, tiles, v, r, c, North) && AgreesDir(g, tiles, v, r, c, South)
    && AgreesDir(g, tiles, v, r, c, East) && AgreesDir(g, tiles, v, r, c, West)
  }

  /** If side d of the tile at (r, c) is not blank, it faces an occupied cell on the board. */
  predicate CoveredDir(g: Grid, tiles: seq<Tile>, r: int, c: int, d: Dir)
    requires g.Wf() && g.Occ(r, c) && g.cells[r][c].tile < |tiles|
  {
    Edge(CellView(tiles, g.cells[r][c]), d) != Pasture ==> g.Occ(StepRow(r, d), StepCol(c, d))
  }

  /** The cell (r, c) holds a tile none of whose non-blank edges is loose. */
  predicate Covered(g: Grid, tiles: seq<Tile>, r: int, c: int)
    requires g.Wf()
  {
    && g.Occ(r, c) && g.cells[r][c].tile < |tiles|
    && CoveredDir(g, tiles, r, c, North) && CoveredDir(g, tiles, r, c, South)
    && CoveredDir(g, tiles, r, c, West) && CoveredDir(g, tiles, r, c, East)
  }

  /** Every cell the placement names holds a tile with no loose edge. */
  predicate NoLooseEdges(g: Grid, tiles: seq<Tile>, locs: seq<Location>)
    requires g.Wf()
  {
    forall k :: 0 <= k < |locs| ==> Covered(g, tiles, locs[k].row, locs[k].column)
  }

  /** The completion check on the board says exactly that the placement is sealed. */
  lemma NoLooseIffSealed(g: Grid, tiles: seq<Tile>, locs: seq<Location>)
    requires g.Wf() && Reflects(g, locs) && |locs| <= |tiles|
    ensures NoLooseEdges(g, tiles, locs) <==> Sealed(tiles, g.rows, g.cols, locs)
  {
    forall k | 0 <= k < |locs|
      ensures Covered(g, tiles, locs[k].row, locs[k].column) <==>
        SealedDir(tiles, g.rows, g.cols, locs, k, North) && SealedDir(tiles, g.rows, g.cols, locs, k, East)
        && SealedDir(tiles, g.rows, g.cols, locs, k, South) && SealedDir(tiles, g.rows, g.cols, locs, k, West)
    {
      var r, c := locs[k].row, locs[k].column;
      assert g.Occ(r, c) && CellView(tiles, g.cells[r][c]) == Placed(tiles, locs, k);
      ReflectsOcc(g, locs, r - 1, c);
      ReflectsOcc(g, locs, r + 1, c);
      ReflectsOcc(g, locs, r, c - 1);
      ReflectsOcc(g, locs, r, c + 1);
    }
  }

  /** Putting the next tile into a free cell keeps the board in step with the placement. */
  lemma PlaceReflects(g: Grid, locs: seq<Location>, cand: Location)
    requires g.Wf() && Reflects(g, locs)
    requires InBounds(g.rows, g.cols, cand.row, cand.column) && !Reserved(locs, cand.row, cand.column)
    ensures Reflects(g.Set(cand.row, cand.column, Occupied(|locs|, cand.rotation)), locs + [cand])
  {
    var n := |locs|;
    var h := g.Set(cand.row, cand.column, Occupied(n, cand.rotation));
    var ext := locs + [cand];
    forall r, c | h.Occ(r, c) ensures Reserved(ext, r, c)
    {
      if r == cand.row && c == cand.column {
        assert ext[n].row == r && ext[n].column == c;
      } else {
        assert g.Occ(r, c);
        var k :| 0 <= k < |locs| && locs[k].row == r && locs[k].column == c;
        assert ext[k].row == r && ext[k].column == c;
      }
    }
  }

  /** The number of occupied cells among the four neighbours of (r, c). */
  function OccupiedNeighbours(g: Grid, r: int, c: int): nat
    requires g.Wf()
  {
    (if g.Occ(r + 1, c) then 1 else 0) + (if g.Occ(r - 1, c) then 1 else 0)
    + (if g.Occ(r, c + 1) then 1 else 0) + (if g.Occ(r, c - 1) then 1 else 0)
  }

  /**
   * Counting the matched non-blank edges against the occupied neighbours:
   * the counts agree exactly when every occupied neighbour was matched.
   */
  lemma SaturationCount(g: Grid, r: int, c: int, upN: bool, upS: bool, upE: bool, upW: bool)
    requires g.Wf()
    requires (upN ==> g.Occ(r - 1, c)) && (upS ==> g.Occ(r + 1, c))
    requires (upE ==> g.Occ(r, c + 1)) && (upW ==> g.Occ(r, c - 1))
    ensures ((if upN then 1 else 0) + (if upS then 1 else 0) + (if upE then 1 else 0) + (if upW then 1 else 0)
             == OccupiedNeighbours(g, r, c))
      <==>
      (g.Occ(r - 1, c) ==> upN) && (g.Occ(r + 1, c) ==> upS) && (g.Occ(r, c + 1) ==> upE) && (g.Occ(r, c - 1) ==> upW)
  {
  }

  /**
   * Placing the next tile where it is compatible keeps the board in step
   * with the placement and every shared edge matched.
   */
  lemma PlaceExtends(g: Grid, tiles: seq<Tile>, locs: seq<Location>, cand: Location)
    requires g.Wf() && Reflects(g, locs) && |locs| < |tiles| && Consistent(tiles, locs)
    requires InBounds(g.rows, g.cols, cand.row, cand.column) && !Reserved(locs, cand.row, cand.column)
    requires Compatible(g, tiles, Rotate(tiles[|locs|], cand.rotation), cand.row, cand.column)
    ensures Reflects(g.Set(cand.row, cand.column, Occupied(|locs|, cand.rotation)), locs + [cand])
    ensures Consistent(tiles, locs + [cand])
  {
    var ext := locs + [cand];
    PlaceReflects(g, locs, cand);
    forall i, j | 0 <= i < |ext| && 0 <= j < |ext|
      ensures Fits(tiles, ext, i, j)
    {
      forall d ensures FitsDir(tiles, ext, i, j, d) {
        FitsStep(g, tiles, locs, cand, i, j, d);
      }
    }
  }

  /** One side of one pair of tiles, for `PlaceExtends`. */
  lemma FitsStep(g: Grid, tiles: seq<Tile>, locs: seq<Location>, cand: Location, i: int, j: int, d: Dir)
    requires g.Wf() && Reflects(g, locs) && |locs| < |tiles| && Consistent(tiles, locs)
    requires InBounds(g.rows, g.cols, cand.row, cand.column) && !Reserved(locs, cand.row, cand.column)
    requires Compatible(g, tiles, Rotate(tiles[|locs|], cand.rotation), cand.row, cand.column)
    requires 0 <= i <= |locs| && 0 <= j <= |locs|
    ensures FitsDir(tiles, locs + [cand], i, j, d)
  {
    var n := |locs|;
    var ext := locs + [cand];
    var v := Rotate(tiles[n], cand.rotation);
    if ext[j].row == StepRow(ext[i].row, d) && ext[j].column == StepCol(ext[i].column, d) {
      if i < n && j < n {
        assert Fits(tiles, locs, i, j);
        assert Placed(tiles, ext, i) == Placed(tiles, locs, i);
        assert Placed(tiles, ext, j) == Placed(tiles, locs, j);
      } else if i == n && j < n {
        assert g.cells[locs[j].row][locs[j].column] == Occupied(j, locs[j].rotation);
        assert AgreesDir(g, tiles, v, cand.row, cand.column, d);
      } else if i < n && j == n {
        StepBack(locs[i].row, locs[i].column, d);
        assert g.cells[locs[i].row][locs[i].column] == Occupied(i, locs[i].rotation);
        assert AgreesDir(g, tiles, v, cand.row, cand.column, Opposite(d));
        OppositeIsHalfTurn(d);
      } else {
        assert false;
      }
    }
  }
}
