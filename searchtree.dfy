/**
 * The search tree the backtracking solver walks.
 *
 * From a board and a placement the solver offers the next input tile at
 * each frontier cell in frontier order, under each rotation it allows;
 * every placement match accepts opens a subtree, and a placement of every
 * tile is a leaf. `Completions` lists the leaves in the order a
 * depth-first walk meets them: the first-solution search stops at the
 * first, the all-solutions search collects them all.
 */
module SearchTree {
  import opened Tiles
  import opened Boards
  import opened Frontiers

  /**
   * The board holds exactly the placed tiles, every two adjacent placed
   * tiles match on a non-blank label, and a full placement has no loose edge.
   */
  ghost predicate Inv(tiles: seq<Tile>, g: Grid, locs: seq<Location>)
    requires g.Wf()
  {
    && |locs| <= |tiles|
    && Reflects(g, locs)
    && Consistent(tiles, locs)
    && (|locs| == |tiles| ==> Sealed(tiles, g.rows, g.cols, locs))
  }

  /**
   * What match decides for the last entry of `locs` on board `g`, where that
   * entry's cell is still empty: the tile agrees with every occupied
   * neighbour, and the last tile of the puzzle, once put down, leaves no
   * loose edge anywhere.
   */
  predicate Accepts(tiles: seq<Tile>, g: Grid, locs: seq<Location>)
    requires g.Wf() && 1 <= |locs| <= |tiles|
    requires InBounds(g.rows, g.cols, locs[|locs| - 1].row, locs[|locs| - 1].column)
  {
    var n, r, c := |locs| - 1, locs[|locs| - 1].row, locs[|locs| - 1].column;
    && Compatible(g, tiles, Rotate(tiles[n], locs[n].rotation), r, c)
    && (|locs| == |tiles| ==> NoLooseEdges(g.Set(r, c, Occupied(n, locs[n].rotation)), tiles, locs))
  }

  /** The two tests of `Accepts`, for a rotated view `v` of the last tile computed beforehand. */
  lemma AcceptsParts(tiles: seq<Tile>, g: Grid, locs: seq<Location>, v: Tile, r: int, c: int)
    requires g.Wf() && 1 <= |locs| <= |tiles|
    requires r == locs[|locs| - 1].row && c == locs[|locs| - 1].column && InBounds(g.rows, g.cols, r, c)
    requires v == Rotate(tiles[|locs| - 1], locs[|locs| - 1].rotation)
    ensures Accepts(tiles, g, locs) <==>
      Compatible(g, tiles, v, r, c)
      && (|locs| == |tiles| ==> NoLooseEdges(g.Set(r, c, Occupied(|locs| - 1, locs[|locs| - 1].rotation)), tiles, locs))
  {
  }

  /** The placements tried at one frontier cell, in order: rotation 0 alone, or 0, 90, 180 and 270. */
  function Variants(cell: Location, allowRotations: bool): seq<Location>
  {
    var r, c := cell.row, cell.column;
    if allowRotations then [Location(r, c, 0), Location(r, c, 90), Location(r, c, 180), Location(r, c, 270)]
    else [Location(r, c, 0)]
  }

  /** Every placement one level of the search tries, in the order it tries them. */
  function Candidates(nearby: seq<Location>, allowRotations: bool): seq<Location>
    decreases |nearby|
  {
    if nearby == [] then []
    else Candidates(nearby[..|nearby| - 1], allowRotations) + Variants(nearby[|nearby| - 1], allowRotations)
  }

  /** The candidates for a prefix of the frontier are a prefix of all candidates. */
  lemma {:induction false} CandidatesPrefix(nearby: seq<Location>, i: int, allowRotations: bool)
    requires 0 <= i <= |nearby|
    ensures Candidates(nearby[..i], allowRotations) <= Candidates(nearby, allowRotations)
    decreases |nearby| - i
  {
    if i < |nearby| {
      CandidatesPrefix(nearby, i + 1, allowRotations);
      assert nearby[..i + 1][..i] == nearby[..i];
    } else {
      assert nearby[..i] == nearby;
    }
  }

  /** Without rotations the search tries each frontier cell once, in frontier order, under rotation 0. */
  lemma {:induction false} CandidatesFixed(nearby: seq<Location>)
    ensures |Candidates(nearby, false)| == |nearby|
    ensures forall i :: 0 <= i < |nearby| ==>
      Candidates(nearby, false)[i] == Location(nearby[i].row, nearby[i].column, 0)
    decreases |nearby|
  {
    if nearby != [] {
      CandidatesFixed(nearby[..|nearby| - 1]);
    }
  }

  /**
   * With rotations the search tries, frontier cell by frontier cell, the
   * rotations 0, 90, 180 and 270 in that order.
   */
  lemma {:induction false} CandidatesRotating(nearby: seq<Location>)
    ensures |Candidates(nearby, true)| == 4 * |nearby|
    ensures forall i, q :: 0 <= i < |nearby| && 0 <= q < 4 ==>
      Candidates(nearby, true)[4 * i + q] == Location(nearby[i].row, nearby[i].column, AllRotations[q])
    decreases |nearby|
  {
    if nearby != [] {
      var front := nearby[..|nearby| - 1];
      CandidatesRotating(front);
      var head := Candidates(front, true);
      var last := Variants(nearby[|nearby| - 1], true);
      var cs := Candidates(nearby, true);
      assert cs == head + last && |head| == 4 * |front|;
      forall i, q | 0 <= i < |nearby| && 0 <= q < 4
        ensures cs[4 * i + q] == Location(nearby[i].row, nearby[i].column, AllRotations[q])
      {
        if i < |front| {
          assert 4 * i + q < |head|;
          assert cs[4 * i + q] == head[4 * i + q];
          assert nearby[i] == front[i];
        } else {
          assert 4 * i + q == |head| + q;
          assert cs[4 * i + q] == last[q];
        }
      }
    }
  }

  /** A well-formed board with at least one row and one column, the boards the search runs on. */
  ghost predicate NonEmptyBoard(g: Grid)
  {
    g.Wf() && g.rows >= 1 && g.cols >= 1
  }

  /** The sequences of `xss`, one after the other. */
  function Concat<T>(xss: seq<seq<T>>): seq<T>
    decreases |xss|
  {
    if xss == [] then [] else Concat(xss[..|xss| - 1]) + xss[|xss| - 1]
  }

  lemma {:induction false} ConcatAppend<T>(a: seq<seq<T>>, b: seq<seq<T>>)
    ensures Concat(a + b) == Concat(a) + Concat(b)
    decreases |b|
  {
    if b == [] {
      assert a + b == a;
    } else {
      var init, last := b[..|b| - 1], b[|b| - 1];
      assert (a + b)[..|a + b| - 1] == a + init;
      assert (a + b)[|a + b| - 1] == last;
      calc {
        Concat(a + b);
        Concat(a + init) + last;
        { ConcatAppend(a, init); }
        Concat(a) + Concat(init) + last;
        Concat(a) + (Concat(init) + last);
      }
    }
  }

  lemma {:induction false} ConcatPrefix<T>(xss: seq<seq<T>>, i: int)
    requires 0 <= i <= |xss|
    ensures Concat(xss[..i]) <= Concat(xss)
    decreases |xss| - i
  {
    if i < |xss| {
      ConcatPrefix(xss, i + 1);
      assert xss[..i + 1][..i] == xss[..i];
    } else {
      assert xss[..i] == xss;
    }
  }

  /** Every element of one of the sequences is an element of their concatenation. */
  lemma {:induction false} ConcatHas<T>(xss: seq<seq<T>>, k: int, x: T)
    requires 0 <= k < |xss| && x in xss[k]
    ensures x in Concat(xss)
    decreases |xss|
  {
    if k < |xss| - 1 {
      var front := xss[..|xss| - 1];
      assert front[k] == xss[k];
      ConcatHas(front, k, x);
    }
  }

  lemma {:induction false} ConcatMember<T>(xss: seq<seq<T>>, x: T)
    requires x in Concat(xss)
    ensures exists k :: 0 <= k < |xss| && x in xss[k]
    decreases |xss|
  {
    var front := xss[..|xss| - 1];
    if x in Concat(front) {
      ConcatMember(front, x);
      var k :| 0 <= k < |front| && x in front[k];
      assert xss[k] == front[k];
    } else {
      assert x in xss[|xss| - 1];
    }
  }

  /** The leaves below board `g` and placement `locs`, in depth-first order. */
  ghost function Completions(tiles: seq<Tile>, g: Grid, locs: seq<Location>, allowRotations: bool): seq<seq<Location>>
    requires NonEmptyBoard(g) && |locs| <= |tiles|
    decreases |tiles| - |locs|, 1, 0, 0
  {
    if |locs| == |tiles| then [locs]
    else Branches(tiles, g, locs, allowRotations, Candidates(Frontier(g, locs), allowRotations))
  }

  /** The leaves below each of the placements `cands` in turn. */
  ghost function Branches(tiles: seq<Tile>, g: Grid, locs: seq<Location>, allowRotations: bool, cands: seq<Location>): seq<seq<Location>>
    requires NonEmptyBoard(g) && |locs| < |tiles|
    decreases |tiles| - |locs|, 0, |cands|, 1
  {
    Concat(Subtrees(tiles, g, locs, allowRotations, cands))
  }

  /** For each placement of `cands`, the leaves below it. */
  ghost function Subtrees(tiles: seq<Tile>, g: Grid, locs: seq<Location>, allowRotations: bool, cands: seq<Location>): seq<seq<seq<Location>>>
    requires NonEmptyBoard(g) && |locs| < |tiles|
    decreases |tiles| - |locs|, 0, |cands|, 0
  {
    seq(|cands|, k requires 0 <= k < |cands| => Branch(tiles, g, locs, allowRotations, cands[k]))
  }

  /** The leaves below placing the next tile as `cand`: none unless match accepts it. */
  ghost function Branch(tiles: seq<Tile>, g: Grid, locs: seq<Location>, allowRotations: bool, cand: Location): seq<seq<Location>>
    requires NonEmptyBoard(g) && |locs| < |tiles|
    decreases |tiles| - |locs|, 0, 0, 0
  {
    if InBounds(g.rows, g.cols, cand.row, cand.column) && Accepts(tiles, g, locs + [cand])
    then Completions(tiles, g.Set(cand.row, cand.column, Occupied(|locs|, cand.rotation)), locs + [cand], allowRotations)
    else []
  }

  /** Every candidate sits on a frontier cell. */
  lemma {:induction false} CandidatesCells(nearby: seq<Location>, allowRotations: bool)
    ensures forall k :: 0 <= k < |Candidates(nearby, allowRotations)| ==>
      Reserved(nearby, Candidates(nearby, allowRotations)[k].row, Candidates(nearby, allowRotations)[k].column)
    decreases |nearby|
  {
    if nearby != [] {
      var front := nearby[..|nearby| - 1];
      CandidatesCells(front, allowRotations);
      var head := Candidates(front, allowRotations);
      var last := Variants(nearby[|nearby| - 1], allowRotations);
      var cs := Candidates(nearby, allowRotations);
      assert cs == head + last;
      forall k | 0 <= k < |cs| ensures Reserved(nearby, cs[k].row, cs[k].column) {
        if k < |head| {
          assert Reserved(front, cs[k].row, cs[k].column);
          var p :| 0 <= p < |front| && front[p].row == cs[k].row && front[p].column == cs[k].column;
          assert nearby[p] == front[p];
        } else {
          assert cs[k] == last[k - |head|];
          assert nearby[|nearby| - 1].row == cs[k].row && nearby[|nearby| - 1].column == cs[k].column;
        }
      }
    }
  }

  /** (r, c) of `cand` is on the board and not yet in the placement. */
  ghost predicate FreshCell(g: Grid, locs: seq<Location>, cand: Location)
  {
    InBounds(g.rows, g.cols, cand.row, cand.column) && !Reserved(locs, cand.row, cand.column)
  }

  /** Every leaf is a solution that extends the placement it grew from. */
  lemma {:induction false} CompletionsSound(tiles: seq<Tile>, g: Grid, locs: seq<Location>, allowRotations: bool)
    requires NonEmptyBoard(g) && Inv(tiles, g, locs)
    ensures forall s :: s in Completions(tiles, g, locs, allowRotations) ==>
      IsSolution(tiles, g.rows, g.cols, s) && locs <= s
    decreases |tiles| - |locs|, 1, 0, 0
  {
    if |locs| == |tiles| {
      ReflectsWellPlaced(g, locs);
    } else {
      var nearby := Frontier(g, locs);
      var cands := Candidates(nearby, allowRotations);
      FrontierFresh(g, locs);
      CandidatesCells(nearby, allowRotations);
      forall k | 0 <= k < |cands| ensures FreshCell(g, locs, cands[k]) {
        assert Reserved(nearby, cands[k].row, cands[k].column);
        var p :| 0 <= p < |nearby| && nearby[p].row == cands[k].row && nearby[p].column == cands[k].column;
      }
      BranchesSound(tiles, g, locs, allowRotations, cands);
    }
  }

  lemma {:induction false} BranchesSound(tiles: seq<Tile>, g: Grid, locs: seq<Location>, allowRotations: bool, cands: seq<Location>)
    requires NonEmptyBoard(g) && Inv(tiles, g, locs) && |locs| < |tiles|
    requires forall k :: 0 <= k < |cands| ==> FreshCell(g, locs, cands[k])
    ensures forall s :: s in Branches(tiles, g, locs, allowRotations, cands) ==>
      IsSolution(tiles, g.rows, g.cols, s) && locs <= s
    decreases |tiles| - |locs|, 0, |cands|, 1
  {
    var ts := Subtrees(tiles, g, locs, allowRotations, cands);
    forall s | s in Concat(ts) ensures IsSolution(tiles, g.rows, g.cols, s) && locs <= s {
      ConcatMember(ts, s);
      var k :| 0 <= k < |ts| && s in ts[k];
      BranchSound(tiles, g, locs, allowRotations, cands[k]);
    }
  }

  lemma {:induction false} BranchSound(tiles: seq<Tile>, g: Grid, locs: seq<Location>, allowRotations: bool, cand: Location)
    requires NonEmptyBoard(g) && Inv(tiles, g, locs) && |locs| < |tiles| && FreshCell(g, locs, cand)
    ensures forall s :: s in Branch(tiles, g, locs, allowRotations, cand) ==>
      IsSolution(tiles, g.rows, g.cols, s) && locs <= s
    decreases |tiles| - |locs|, 0, 0, 0
  {
    var ext := locs + [cand];
    if Accepts(tiles, g, ext) {
      var h := g.Set(cand.row, cand.column, Occupied(|locs|, cand.rotation));
      ChildInv(tiles, g, locs, cand);
      CompletionsSound(tiles, h, ext, allowRotations);
      forall s | s in Completions(tiles, h, ext, allowRotations) ensures locs <= s {
        assert ext <= s;
        assert s[..|locs|] == ext[..|locs|] == locs;
      }
    }
  }

  /** A placement match accepts on a free cell keeps the search invariant. */
  lemma ChildInv(tiles: seq<Tile>, g: Grid, locs: seq<Location>, cand: Location)
    requires NonEmptyBoard(g) && Inv(tiles, g, locs) && |locs| < |tiles| && FreshCell(g, locs, cand)
    requires Accepts(tiles, g, locs + [cand])
    ensures NonEmptyBoard(g.Set(cand.row, cand.column, Occupied(|locs|, cand.rotation)))
    ensures Inv(tiles, g.Set(cand.row, cand.column, Occupied(|locs|, cand.rotation)), locs + [cand])
  {
    var ext := locs + [cand];
    var h := g.Set(cand.row, cand.column, Occupied(|locs|, cand.rotation));
    assert Compatible(g, tiles, Rotate(tiles[|locs|], cand.rotation), cand.row, cand.column);
    PlaceExtends(g, tiles, locs, cand);
    if |ext| == |tiles| {
      NoLooseIffSealed(h, tiles, ext);
    }
  }

  /** The leaves below a prefix of the candidates come first among all the leaves. */
  lemma BranchesPrefix(tiles: seq<Tile>, g: Grid, locs: seq<Location>, allowRotations: bool, cands: seq<Location>, i: int)
    requires NonEmptyBoard(g) && |locs| < |tiles| && 0 <= i <= |cands|
    ensures Branches(tiles, g, locs, allowRotations, cands[..i]) <= Branches(tiles, g, locs, allowRotations, cands)
  {
    var ts := Subtrees(tiles, g, locs, allowRotations, cands);
    assert Subtrees(tiles, g, locs, allowRotations, cands[..i]) == ts[..i];
    ConcatPrefix(ts, i);
  }

  /**
   * If no leaf lies below the candidates `done` and the next candidate has
   * one, the first leaf below all the candidates is the first leaf below it.
   */
  lemma FirstLeaf(tiles: seq<Tile>, g: Grid, locs: seq<Location>, allowRotations: bool,
                  cands: seq<Location>, done: seq<Location>, cand: Location)
    requires NonEmptyBoard(g) && |locs| < |tiles| && done + [cand] <= cands
    requires Branches(tiles, g, locs, allowRotations, done) == []
    requires Branch(tiles, g, locs, allowRotations, cand) != []
    ensures Branches(tiles, g, locs, allowRotations, cands) != []
    ensures Branches(tiles, g, locs, allowRotations, cands)[0] == Branch(tiles, g, locs, allowRotations, cand)[0]
  {
    var k := |done| + 1;
    assert cands[..k] == done + [cand];
    BranchesSnoc(tiles, g, locs, allowRotations, done, cand);
    BranchesPrefix(tiles, g, locs, allowRotations, cands, k);
  }

  /** One more frontier cell adds its placements at the end of the candidates. */
  lemma CandidatesSnoc(nearby: seq<Location>, i: int, allowRotations: bool)
    requires 0 <= i < |nearby|
    ensures Candidates(nearby[..i + 1], allowRotations) == Candidates(nearby[..i], allowRotations) + Variants(nearby[i], allowRotations)
  {
    assert nearby[..i + 1][..i] == nearby[..i];
  }

  /** One more candidate adds the leaves below it at the end. */
  lemma BranchesSnoc(tiles: seq<Tile>, g: Grid, locs: seq<Location>, allowRotations: bool, done: seq<Location>, cand: Location)
    requires NonEmptyBoard(g) && |locs| < |tiles|
    ensures Branches(tiles, g, locs, allowRotations, done + [cand])
      == Branches(tiles, g, locs, allowRotations, done) + Branch(tiles, g, locs, allowRotations, cand)
  {
    var ts := Subtrees(tiles, g, locs, allowRotations, done + [cand]);
    assert ts == Subtrees(tiles, g, locs, allowRotations, done) + [Branch(tiles, g, locs, allowRotations, cand)];
    assert ts[..|done|] == Subtrees(tiles, g, locs, allowRotations, done);
  }

  /** The first leaf is a solution extending the placement. */
  lemma FirstSound(tiles: seq<Tile>, g: Grid, locs: seq<Location>, allowRotations: bool)
    requires NonEmptyBoard(g) && Inv(tiles, g, locs) && Completions(tiles, g, locs, allowRotations) != []
    ensures IsSolution(tiles, g.rows, g.cols, Completions(tiles, g, locs, allowRotations)[0])
    ensures locs <= Completions(tiles, g, locs, allowRotations)[0]
  {
    CompletionsSound(tiles, g, locs, allowRotations);
    assert Completions(tiles, g, locs, allowRotations)[0] in Completions(tiles, g, locs, allowRotations);
  }

  /** The leaves below two runs of candidates, one after the other. */
  lemma BranchesAppend(tiles: seq<Tile>, g: Grid, locs: seq<Location>, allowRotations: bool, a: seq<Location>, b: seq<Location>)
    requires NonEmptyBoard(g) && |locs| < |tiles|
    ensures Branches(tiles, g, locs, allowRotations, a + b)
      == Branches(tiles, g, locs, allowRotations, a) + Branches(tiles, g, locs, allowRotations, b)
  {
    assert Subtrees(tiles, g, locs, allowRotations, a + b)
      == Subtrees(tiles, g, locs, allowRotations, a) + Subtrees(tiles, g, locs, allowRotations, b);
    ConcatAppend(Subtrees(tiles, g, locs, allowRotations, a), Subtrees(tiles, g, locs, allowRotations, b));
  }

  /** The leaves below the placements of the first `i` frontier cells, in search order. */
  ghost function Scanned(tiles: seq<Tile>, g: Grid, locs: seq<Location>, allowRotations: bool, nearby: seq<Location>, i: int): seq<seq<Location>>
    requires NonEmptyBoard(g) && |locs| < |tiles| && 0 <= i <= |nearby|
  {
    Branches(tiles, g, locs, allowRotations, Candidates(nearby[..i], allowRotations))
  }

  /** The leaves below the placements tried at one frontier cell. */
  ghost function AtCell(tiles: seq<Tile>, g: Grid, locs: seq<Location>, allowRotations: bool, cell: Location): seq<seq<Location>>
    requires NonEmptyBoard(g) && |locs| < |tiles|
  {
    Branches(tiles, g, locs, allowRotations, Variants(cell, allowRotations))
  }

  /** Without rotations a frontier cell holds one candidate, under rotation 0. */
  lemma AtCellFixed(tiles: seq<Tile>, g: Grid, locs: seq<Location>, cell: Location)
    requires NonEmptyBoard(g) && |locs| < |tiles|
    ensures AtCell(tiles, g, locs, false, cell) == Branch(tiles, g, locs, false, Location(cell.row, cell.column, 0))
  {
    var cand := Location(cell.row, cell.column, 0);
    assert Variants(cell, false) == [] + [cand];
    BranchesSnoc(tiles, g, locs, false, [], cand);
  }

  /**
   * Appending runs of leaves one after another does not depend on grouping.
   * Dafny knows this fact; the search loops call it to name the regrouping step
   * explicitly, which keeps their proofs small.
   */
  lemma AppendAssoc<T>(a: seq<T>, b: seq<T>, c: seq<T>)
    ensures a + (b + c) == (a + b) + c
  {
  }

  /** Before any frontier cell is scanned there is no leaf. */
  lemma ScanStart(tiles: seq<Tile>, g: Grid, locs: seq<Location>, allowRotations: bool, nearby: seq<Location>)
    requires NonEmptyBoard(g) && |locs| < |tiles|
    ensures Scanned(tiles, g, locs, allowRotations, nearby, 0) == []
  {
    assert nearby[..0] == [];
    assert Subtrees(tiles, g, locs, allowRotations, []) == [];
  }

  /** Scanning one more frontier cell appends the leaves below it. */
  lemma ScanNext(tiles: seq<Tile>, g: Grid, locs: seq<Location>, allowRotations: bool, nearby: seq<Location>, i: int)
    requires NonEmptyBoard(g) && |locs| < |tiles| && 0 <= i < |nearby|
    ensures Scanned(tiles, g, locs, allowRotations, nearby, i + 1)
      == Scanned(tiles, g, locs, allowRotations, nearby, i) + AtCell(tiles, g, locs, allowRotations, nearby[i])
  {
    CandidatesSnoc(nearby, i, allowRotations);
    BranchesAppend(tiles, g, locs, allowRotations, Candidates(nearby[..i], allowRotations), Variants(nearby[i], allowRotations));
  }

  /** If no leaf lies below the first `i` frontier cells nor below cell i, none lies below the first `i + 1`. */
  lemma ScanMiss(tiles: seq<Tile>, g: Grid, locs: seq<Location>, allowRotations: bool, nearby: seq<Location>, i: int)
    requires NonEmptyBoard(g) && |locs| < |tiles| && 0 <= i < |nearby|
    requires Scanned(tiles, g, locs, allowRotations, nearby, i) == []
    requires AtCell(tiles, g, locs, allowRotations, nearby[i]) == []
    ensures Scanned(tiles, g, locs, allowRotations, nearby, i + 1) == []
  {
    ScanNext(tiles, g, locs, allowRotations, nearby, i);
  }

  /**
   * If no leaf lies below the first `i` frontier cells and one lies below
   * cell `i`, the first leaf of the whole scan is the first below cell `i`.
   */
  lemma ScanHit(tiles: seq<Tile>, g: Grid, locs: seq<Location>, allowRotations: bool, nearby: seq<Location>, i: int)
    requires NonEmptyBoard(g) && |locs| < |tiles| && 0 <= i < |nearby|
    requires Scanned(tiles, g, locs, allowRotations, nearby, i) == []
    requires AtCell(tiles, g, locs, allowRotations, nearby[i]) != []
    ensures Scanned(tiles, g, locs, allowRotations, nearby, |nearby|) != []
    ensures Scanned(tiles, g, locs, allowRotations, nearby, |nearby|)[0] == AtCell(tiles, g, locs, allowRotations, nearby[i])[0]
  {
    ScanNext(tiles, g, locs, allowRotations, nearby, i);
    CandidatesPrefix(nearby, i + 1, allowRotations);
    var cands := Candidates(nearby, allowRotations);
    var k := |Candidates(nearby[..i + 1], allowRotations)|;
    assert cands[..k] == Candidates(nearby[..i + 1], allowRotations);
    assert nearby[..|nearby|] == nearby;
    BranchesPrefix(tiles, g, locs, allowRotations, cands, k);
  }

  /** The whole scan of the frontier is the search below a partial placement. */
  lemma ScanAll(tiles: seq<Tile>, g: Grid, locs: seq<Location>, allowRotations: bool, nearby: seq<Location>)
    requires NonEmptyBoard(g) && |locs| < |tiles| && nearby == Frontier(g, locs)
    ensures Completions(tiles, g, locs, allowRotations) == Scanned(tiles, g, locs, allowRotations, nearby, |nearby|)
  {
    assert nearby[..|nearby|] == nearby;
  }

  // ---------------------------------------------------------------------------
  // No solution is enumerated twice

  /** No two entries of `s` are equal. */
  predicate NoDup<T(==)>(s: seq<T>)
  {
    forall a, b :: 0 <= a < b < |s| ==> s[a] != s[b]
  }

  /** Runs without repeats that share no element concatenate to a sequence without repeats. */
  lemma {:induction false} ConcatNoDup<T>(xss: seq<seq<T>>)
    requires forall k :: 0 <= k < |xss| ==> NoDup(xss[k])
    requires forall k1, k2, x :: 0 <= k1 < k2 < |xss| && x in xss[k1] ==> x !in xss[k2]
    ensures NoDup(Concat(xss))
    decreases |xss|
  {
    if xss != [] {
      var front, last := xss[..|xss| - 1], xss[|xss| - 1];
      assert forall k :: 0 <= k < |front| ==> front[k] == xss[k];
      ConcatNoDup(front);
      var head := Concat(front);
      var all := head + last;
      forall a, b | 0 <= a < b < |all| ensures all[a] != all[b] {
        if a < |head| <= b {
          ConcatMember(front, head[a]);
          var k :| 0 <= k < |front| && head[a] in front[k];
          assert all[b] == last[b - |head|];
        } else if |head| <= a {
          assert all[a] == last[a - |head|] && all[b] == last[b - |head|];
        }
      }
    }
  }

  /** Distinct frontier cells give distinct candidates. */
  lemma {:induction false} CandidatesNoDup(nearby: seq<Location>, allowRotations: bool)
    requires Distinct(nearby)
    ensures NoDup(Candidates(nearby, allowRotations))
    decreases |nearby|
  {
    if nearby != [] {
      var front, cell := nearby[..|nearby| - 1], nearby[|nearby| - 1];
      CandidatesNoDup(front, allowRotations);
      CandidatesCells(front, allowRotations);
      var head, vs := Candidates(front, allowRotations), Variants(cell, allowRotations);
      var all := head + vs;
      forall a, b | 0 <= a < b < |all| ensures all[a] != all[b] {
        if a < |head| <= b {
          var p :| 0 <= p < |front| && front[p].row == head[a].row && front[p].column == head[a].column;
          assert all[b] == vs[b - |head|];
          assert nearby[p] == front[p];
        } else if |head| <= a {
          assert all[a] == vs[a - |head|] && all[b] == vs[b - |head|];
        }
      }
    }
  }

  /** Every leaf below a candidate carries that candidate right after the placement. */
  lemma BranchTag(tiles: seq<Tile>, g: Grid, locs: seq<Location>, allowRotations: bool, cand: Location, s: seq<Location>)
    requires NonEmptyBoard(g) && Inv(tiles, g, locs) && |locs| < |tiles| && FreshCell(g, locs, cand)
    requires s in Branch(tiles, g, locs, allowRotations, cand)
    ensures |s| > |locs| && s[|locs|] == cand
  {
    var ext := locs + [cand];
    ChildInv(tiles, g, locs, cand);
    CompletionsSound(tiles, g.Set(cand.row, cand.column, Occupied(|locs|, cand.rotation)), ext, allowRotations);
    assert ext <= s && ext[|locs|] == cand;
  }

  /** The all-solutions search lists each of its solutions once. */
  lemma {:induction false} CompletionsNoDup(tiles: seq<Tile>, g: Grid, locs: seq<Location>, allowRotations: bool)
    requires NonEmptyBoard(g) && Inv(tiles, g, locs)
    ensures NoDup(Completions(tiles, g, locs, allowRotations))
    decreases |tiles| - |locs|, 1, 0, 0
  {
    if |locs| < |tiles| {
      var nearby := Frontier(g, locs);
      var cands := Candidates(nearby, allowRotations);
      FrontierFresh(g, locs);
      FrontierDistinct(g, locs);
      CandidatesCells(nearby, allowRotations);
      CandidatesNoDup(nearby, allowRotations);
      forall k | 0 <= k < |cands| ensures FreshCell(g, locs, cands[k]) {
        var p :| 0 <= p < |nearby| && nearby[p].row == cands[k].row && nearby[p].column == cands[k].column;
      }
      BranchesNoDup(tiles, g, locs, allowRotations, cands);
    }
  }

  lemma {:induction false} BranchesNoDup(tiles: seq<Tile>, g: Grid, locs: seq<Location>, allowRotations: bool, cands: seq<Location>)
    requires NonEmptyBoard(g) && Inv(tiles, g, locs) && |locs| < |tiles| && NoDup(cands)
    requires forall k :: 0 <= k < |cands| ==> FreshCell(g, locs, cands[k])
    ensures NoDup(Branches(tiles, g, locs, allowRotations, cands))
    decreases |tiles| - |locs|, 0, |cands|, 1
  {
    var ts := Subtrees(tiles, g, locs, allowRotations, cands);
    forall k | 0 <= k < |ts| ensures NoDup(ts[k]) {
      BranchNoDup(tiles, g, locs, allowRotations, cands[k]);
    }
    forall k1, k2, x | 0 <= k1 < k2 < |ts| && x in ts[k1] ensures x !in ts[k2] {
      BranchTag(tiles, g, locs, allowRotations, cands[k1], x);
      if x in ts[k2] {
        BranchTag(tiles, g, locs, allowRotations, cands[k2], x);
      }
    }
    ConcatNoDup(ts);
  }

  lemma {:induction false} BranchNoDup(tiles: seq<Tile>, g: Grid, locs: seq<Location>, allowRotations: bool, cand: Location)
    requires NonEmptyBoard(g) && Inv(tiles, g, locs) && |locs| < |tiles| && FreshCell(g, locs, cand)
    ensures NoDup(Branch(tiles, g, locs, allowRotations, cand))
    decreases |tiles| - |locs|, 0, 0, 0
  {
    if Accepts(tiles, g, locs + [cand]) {
      ChildInv(tiles, g, locs, cand);
      CompletionsNoDup(tiles, g.Set(cand.row, cand.column, Occupied(|locs|, cand.rotation)), locs + [cand], allowRotations);
    }
  }

  // Rotation search finds every fixed-orientation solution

  /**
   * Every completion the fixed-orientation search reaches is also reached by
   * the rotating search: at each frontier cell rotation 0 is the first of the
   * four variants tried, and below it the same choice repeats.
   */
  lemma {:induction false} FixedInRotating(tiles: seq<Tile>, g: Grid, locs: seq<Location>, s: seq<Location>)
    requires NonEmptyBoard(g) && |locs| <= |tiles|
    requires s in Completions(tiles, g, locs, false)
    ensures s in Completions(tiles, g, locs, true)
    decreases |tiles| - |locs|
  {
    if |locs| < |tiles| {
      var nearby := Frontier(g, locs);
      var fixed, rotating := Candidates(nearby, false), Candidates(nearby, true);
      var ts := Subtrees(tiles, g, locs, false, fixed);
      ConcatMember(ts, s);
      var k :| 0 <= k < |ts| && s in ts[k];
      CandidatesFixed(nearby);
      CandidatesRotating(nearby);
      var cand := fixed[k];
      assert k < |nearby| && AllRotations[0] == 0;
      assert rotating[4 * k + 0] == Location(nearby[k].row, nearby[k].column, AllRotations[0]) == cand;
      assert s in Branch(tiles, g, locs, false, cand);
      assert InBounds(g.rows, g.cols, cand.row, cand.column) && Accepts(tiles, g, locs + [cand]);
      var h := g.Set(cand.row, cand.column, Occupied(|locs|, cand.rotation));
      FixedInRotating(tiles, h, locs + [cand], s);
      assert s in Branch(tiles, g, locs, true, cand);
      BranchesHas(tiles, g, locs, true, rotating, 4 * k, s);
    }
  }

  /** A leaf below one of the candidates is a leaf of the level. */
  lemma BranchesHas(tiles: seq<Tile>, g: Grid, locs: seq<Location>, allowRotations: bool, cands: seq<Location>, k: int, s: seq<Location>)
    requires NonEmptyBoard(g) && |locs| < |tiles| && 0 <= k < |cands|
    requires s in Branch(tiles, g, locs, allowRotations, cands[k])
    ensures s in Branches(tiles, g, locs, allowRotations, cands)
  {
    var ts := Subtrees(tiles, g, locs, allowRotations, cands);
    assert ts[k] == Branch(tiles, g, locs, allowRotations, cands[k]);
    ConcatHas(ts, k, s);
  }
}
