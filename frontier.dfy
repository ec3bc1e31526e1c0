/**
 * The frontier: the cells the next tile may go to.
 *
 * `Frontier` specifies the sequence FindNearby builds: a row-major scan of
 * the board that, for every occupied cell, offers its neighbours below,
 * above, to the right and to the left, skipping cells off the board, cells
 * already offered and cells the placement already names. A board with no
 * tile on it yields the single seed cell.
 */
module Frontiers {
  import opened Tiles
  import opened Boards

  /** (a, b) comes strictly before (i, j) in row-major order. */
  predicate Before(a: int, b: int, i: int, j: int)
  {
    a < i || (a == i && b < j)
  }

  /** (r, c) has an occupied orthogonal neighbour. */
  predicate HasOccupiedNeighbour(g: Grid, r: int, c: int)
    requires g.Wf()
  {
    g.Occ(r - 1, c) || g.Occ(r + 1, c) || g.Occ(r, c - 1) || g.Occ(r, c + 1)
  }

  /** (r, c) has an occupied neighbour that a row-major scan reaches before (i, j). */
  predicate SeenBefore(g: Grid, r: int, c: int, i: int, j: int)
    requires g.Wf()
  {
    || (g.Occ(r - 1, c) && Before(r - 1, c, i, j))
    || (g.Occ(r + 1, c) && Before(r + 1, c, i, j))
    || (g.Occ(r, c - 1) && Before(r, c - 1, i, j))
    || (g.Occ(r, c + 1) && Before(r, c + 1, i, j))
  }

  /** A cell the next tile may go to: on the board, not yet named, next to a placed tile. */
  predicate Eligible(g: Grid, locs: seq<Location>, r: int, c: int)
    requires g.Wf()
  {
    InBounds(g.rows, g.cols, r, c) && !Reserved(locs, r, c) && HasOccupiedNeighbour(g, r, c)
  }

  ghost predicate AnyOccupied(g: Grid)
    requires g.Wf()
  {
    exists r, c :: g.Occ(r, c)
  }

  function Min(a: int, b: int): int
  {
    if a < b then a else b
  }

  /**
   * The cell the first tile goes to. The source always seeds (4, 4), which
   * is off the board when it has fewer than five rows or columns; the model
   * moves the seed onto the last row or column in that case, and keeps
   * (4, 4) on every board of at least 5 x 5.
   */
  function Seed(g: Grid): (s: Location)
    requires g.rows >= 1 && g.cols >= 1
    ensures InBounds(g.rows, g.cols, s.row, s.column) && s.rotation == 0
    ensures g.rows >= 5 && g.cols >= 5 ==> s == Location(4, 4, 0)
  {
    Location(Min(4, g.rows - 1), Min(4, g.cols - 1), 0)
  }

  /** Append (r, c) when it is on the board and in neither list. */
  function Offer(g: Grid, locs: seq<Location>, acc: seq<Location>, r: int, c: int): seq<Location>
  {
    if InBounds(g.rows, g.cols, r, c) && !Reserved(acc, r, c) && !Reserved(locs, r, c)
    then acc + [Location(r, c, 0)]
    else acc
  }

  /** Visiting cell (i, j): an occupied cell offers its neighbours below, above, right and left. */
  function Visit(g: Grid, locs: seq<Location>, acc: seq<Location>, i: int, j: int): seq<Location>
    requires g.Wf() && InBounds(g.rows, g.cols, i, j)
  {
    if g.cells[i][j].Empty? then acc
    else Offer(g, locs, Offer(g, locs, Offer(g, locs, Offer(g, locs, acc, i + 1, j), i - 1, j), i, j + 1), i, j - 1)
  }

  /** Visiting the first `j` cells of row i, starting from `acc`. */
  function ScanRow(g: Grid, locs: seq<Location>, acc: seq<Location>, i: int, j: int): seq<Location>
    requires g.Wf() && 0 <= i < g.rows && 0 <= j <= g.cols
    decreases j
  {
    if j == 0 then acc else Visit(g, locs, ScanRow(g, locs, acc, i, j - 1), i, j - 1)
  }

  /** Visiting the first `i` rows. */
  function ScanRows(g: Grid, locs: seq<Location>, i: int): seq<Location>
    requires g.Wf() && 0 <= i <= g.rows
    decreases i
  {
    if i == 0 then [] else ScanRow(g, locs, ScanRows(g, locs, i - 1), i - 1, g.cols)
  }

  /** What FindNearby yields for board `g` and placement `locs`. */
  ghost function Frontier(g: Grid, locs: seq<Location>): seq<Location>
    requires g.Wf() && g.rows >= 1 && g.cols >= 1
  {
    var s := ScanRows(g, locs, g.rows);
    if AnyOccupied(g) then s else s + [Seed(g)]
  }

  // ---------------------------------------------------------------------------
  // What the scan yields

  /** No two entries name the same cell. */
  predicate Distinct(s: seq<Location>)
  {
    forall p, q :: 0 <= p < q < |s| ==> s[p].row != s[q].row || s[p].column != s[q].column
  }

  predicate Unrotated(s: seq<Location>)
  {
    forall p :: 0 <= p < |s| ==> s[p].rotation == 0
  }

  /** `s` names, once each, exactly the free cells with an occupied neighbour before (i, j). */
  ghost predicate Tracks(g: Grid, locs: seq<Location>, s: seq<Location>, i: int, j: int)
    requires g.Wf()
  {
    && Distinct(s) && Unrotated(s)
    && forall r, c :: Reserved(s, r, c) <==>
         InBounds(g.rows, g.cols, r, c) && !Reserved(locs, r, c) && SeenBefore(g, r, c, i, j)
  }

  lemma OfferReserved(g: Grid, locs: seq<Location>, acc: seq<Location>, a: int, b: int)
    requires Distinct(acc) && Unrotated(acc)
    ensures Distinct(Offer(g, locs, acc, a, b)) && Unrotated(Offer(g, locs, acc, a, b))
    ensures forall r, c :: Reserved(Offer(g, locs, acc, a, b), r, c) <==>
      Reserved(acc, r, c) || (r == a && c == b && InBounds(g.rows, g.cols, a, b) && !Reserved(locs, a, b))
  {
    var s := Offer(g, locs, acc, a, b);
    forall r, c ensures Reserved(s, r, c) <==>
      Reserved(acc, r, c) || (r == a && c == b && InBounds(g.rows, g.cols, a, b) && !Reserved(locs, a, b))
    {
      if Reserved(acc, r, c) {
        var k :| 0 <= k < |acc| && acc[k].row == r && acc[k].column == c;
        assert s[k] == acc[k];
      }
      if s != acc && r == a && c == b {
        assert s[|acc|].row == a && s[|acc|].column == b;
      }
      if Reserved(s, r, c) && !Reserved(acc, r, c) {
        var k :| 0 <= k < |s| && s[k].row == r && s[k].column == c;
        assert k == |acc|;
      }
    }
  }

  /** Visiting (i, j) extends what the scan has found to the cells it reaches from (i, j). */
  lemma VisitTracks(g: Grid, locs: seq<Location>, acc: seq<Location>, i: int, j: int)
    requires g.Wf() && InBounds(g.rows, g.cols, i, j) && Tracks(g, locs, acc, i, j)
    ensures Tracks(g, locs, Visit(g, locs, acc, i, j), i, j + 1)
  {
    var s := Visit(g, locs, acc, i, j);
    if g.cells[i][j].Occupied? {
      var s1 := Offer(g, locs, acc, i + 1, j);
      OfferReserved(g, locs, acc, i + 1, j);
      var s2 := Offer(g, locs, s1, i - 1, j);
      OfferReserved(g, locs, s1, i - 1, j);
      var s3 := Offer(g, locs, s2, i, j + 1);
      OfferReserved(g, locs, s2, i, j + 1);
      OfferReserved(g, locs, s3, i, j - 1);
    }
    forall r, c ensures Reserved(s, r, c) <==>
      InBounds(g.rows, g.cols, r, c) && !Reserved(locs, r, c) && SeenBefore(g, r, c, i, j + 1)
    {
      SeenNext(g, r, c, i, j);
    }
  }

  /** Moving the scan past (i, j) adds (i, j) itself as a possible neighbour. */
  lemma SeenNext(g: Grid, r: int, c: int, i: int, j: int)
    requires g.Wf()
    ensures SeenBefore(g, r, c, i, j + 1) <==>
      SeenBefore(g, r, c, i, j)
      || (g.Occ(i, j) && ((i == r - 1 && j == c) || (i == r + 1 && j == c) || (i == r && j == c - 1) || (i == r && j == c + 1)))
  {
  }

  lemma {:induction false} ScanRowTracks(g: Grid, locs: seq<Location>, acc: seq<Location>, i: int, j: int)
    requires g.Wf() && 0 <= i < g.rows && 0 <= j <= g.cols && Tracks(g, locs, acc, i, 0)
    ensures Tracks(g, locs, ScanRow(g, locs, acc, i, j), i, j)
    decreases j
  {
    if j > 0 {
      ScanRowTracks(g, locs, acc, i, j - 1);
      VisitTracks(g, locs, ScanRow(g, locs, acc, i, j - 1), i, j - 1);
    }
  }

  lemma {:induction false} ScanRowsTracks(g: Grid, locs: seq<Location>, i: int)
    requires g.Wf() && 0 <= i <= g.rows
    ensures Tracks(g, locs, ScanRows(g, locs, i), i, 0)
    decreases i
  {
    if i > 0 {
      ScanRowsTracks(g, locs, i - 1);
      ScanRowTracks(g, locs, ScanRows(g, locs, i - 1), i - 1, g.cols);
    }
  }

  /** The scan meets every free cell with an occupied neighbour exactly once, and nothing else. */
  lemma ScanFindsEligible(g: Grid, locs: seq<Location>)
    requires g.Wf()
    ensures Distinct(ScanRows(g, locs, g.rows)) && Unrotated(ScanRows(g, locs, g.rows))
    ensures forall r, c :: Reserved(ScanRows(g, locs, g.rows), r, c) <==> Eligible(g, locs, r, c)
  {
    ScanRowsTracks(g, locs, g.rows);
  }

  /**
   * On a board with a tile on it, the frontier names each cell that is on
   * the board, not in the placement and next to an occupied cell, once, and
   * names no other cell; every entry has rotation 0.
   */
  lemma FrontierExact(g: Grid, locs: seq<Location>)
    requires g.Wf() && g.rows >= 1 && g.cols >= 1 && AnyOccupied(g)
    ensures Distinct(Frontier(g, locs)) && Unrotated(Frontier(g, locs))
    ensures forall r, c :: Reserved(Frontier(g, locs), r, c) <==> Eligible(g, locs, r, c)
    ensures forall k :: 0 <= k < |Frontier(g, locs)| ==>
      Eligible(g, locs, Frontier(g, locs)[k].row, Frontier(g, locs)[k].column)
  {
    ScanFindsEligible(g, locs);
    var f := Frontier(g, locs);
    forall k | 0 <= k < |f| ensures Eligible(g, locs, f[k].row, f[k].column) {
      assert Reserved(f, f[k].row, f[k].column);
    }
  }

  /** On a board with no tile on it, the frontier is the seed alone: (4, 4) on boards of at least 5 x 5. */
  lemma FrontierOfEmptyBoard(g: Grid, locs: seq<Location>)
    requires g.Wf() && g.rows >= 1 && g.cols >= 1 && !AnyOccupied(g)
    ensures Frontier(g, locs) == [Seed(g)]
    ensures g.rows >= 5 && g.cols >= 5 ==> Frontier(g, locs) == [Location(4, 4, 0)]
  {
    var s := ScanRows(g, locs, g.rows);
    ScanFindsEligible(g, locs);
    if s != [] {
      assert Reserved(s, s[0].row, s[0].column);
      assert false;
    }
  }

  /** No occupied cell comes before (i, j) in row-major order. */
  ghost predicate NoneBefore(g: Grid, i: int, j: int)
    requires g.Wf()
  {
    forall a, b :: g.Occ(a, b) ==> !Before(a, b, i, j)
  }

  /** The frontier names only free cells on the board, whatever the board holds. */
  lemma FrontierFresh(g: Grid, locs: seq<Location>)
    requires g.Wf() && g.rows >= 1 && g.cols >= 1 && Reflects(g, locs)
    ensures forall k :: 0 <= k < |Frontier(g, locs)| ==>
      InBounds(g.rows, g.cols, Frontier(g, locs)[k].row, Frontier(g, locs)[k].column)
      && !Reserved(locs, Frontier(g, locs)[k].row, Frontier(g, locs)[k].column)
    ensures forall k :: 0 <= k < |Frontier(g, locs)| ==> !g.Occ(Frontier(g, locs)[k].row, Frontier(g, locs)[k].column)
  {
    if AnyOccupied(g) {
      FrontierExact(g, locs);
    } else {
      FrontierOfEmptyBoard(g, locs);
      ReflectsNothing(g, locs);
    }
  }

  lemma NoneBeforeStart(g: Grid)
    requires g.Wf()
    ensures NoneBefore(g, 0, 0)
  {
  }

  /** Moving the scan past (i, j) keeps `NoneBefore` exactly when (i, j) is empty. */
  lemma NoneBeforeNext(g: Grid, i: int, j: int)
    requires g.Wf() && InBounds(g.rows, g.cols, i, j)
    ensures NoneBefore(g, i, j + 1) <==> NoneBefore(g, i, j) && g.cells[i][j].Empty?
  {
    if !g.cells[i][j].Empty? {
      assert g.Occ(i, j);
    }
  }

  /** The end of one row is the start of the next. */
  lemma NoneBeforeNextRow(g: Grid, i: int)
    requires g.Wf()
    ensures NoneBefore(g, i, g.cols) <==> NoneBefore(g, i + 1, 0)
  {
  }

  /** After the whole board, `NoneBefore` says that no cell is occupied. */
  lemma NoneBeforeEnd(g: Grid)
    requires g.Wf()
    ensures NoneBefore(g, g.rows, 0) <==> !AnyOccupied(g)
  {
  }

  /** The frontier never names a cell twice. */
  lemma FrontierDistinct(g: Grid, locs: seq<Location>)
    requires g.Wf() && g.rows >= 1 && g.cols >= 1
    ensures Distinct(Frontier(g, locs))
  {
    if AnyOccupied(g) {
      FrontierExact(g, locs);
    } else {
      FrontierOfEmptyBoard(g, locs);
    }
  }
}
