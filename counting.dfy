/**
 * Counting cells with a feature, as `numTargets`, `numBoxes`, `numActors` and `numOnTarget` of
 * Sokoban.java do, and what the counts say about the grid: a single actor, a solved puzzle.
 */
module Counting {
  import opened Wrappers
  import opened Occupants
  import opened Grids

  /** The four things the puzzle counts. */
  datatype Feature = Targets | Boxes | Actors | BoxesOnTarget

  /** Does a cell count for the feature (`isTarget`, `hasBox`, `hasActor`, `onTarget`)? */
  predicate Has(c: Cell, f: Feature)
  {
    match f
    case Targets => c.target
    case Boxes => c.HasBox()
    case Actors => c.HasActor()
    case BoxesOnTarget => CellOnTarget(c)
  }

  function Bit(c: Cell, f: Feature): nat
  {
    if Has(c, f) then 1 else 0
  }

  /** The number of cells of a row with the feature, summed from the left. */
  function CountRow(cells: seq<Cell>, f: Feature): nat
  {
    if |cells| == 0 then 0 else CountRow(cells[..|cells| - 1], f) + Bit(cells[|cells| - 1], f)
  }

  /** The number of cells of the grid with the feature, summed row by row from the top. */
  function Count(g: Grid, f: Feature): nat
  {
    if |g| == 0 then 0 else Count(g[..|g| - 1], f) + CountRow(g[|g| - 1], f)
  }

  /** A box on a target is both a box and a target. */
  lemma OnTargetFeatures(c: Cell)
    ensures Has(c, BoxesOnTarget) <==> Has(c, Boxes) && Has(c, Targets)
  {
  }

  /** Replacing one cell of a row changes the row's count by the difference of the two cells. */
  lemma {:induction false} CountRowUpdate(cells: seq<Cell>, i: int, c: Cell, f: Feature)
    requires 0 <= i < |cells|
    ensures CountRow(cells[i := c], f) + Bit(cells[i], f) == CountRow(cells, f) + Bit(c, f)
    decreases |cells|
  {
    var n := |cells| - 1;
    if i == n {
      assert cells[i := c][..n] == cells[..n];
    } else {
      assert cells[i := c][..n] == cells[..n][i := c];
      CountRowUpdate(cells[..n], i, c, f);
    }
  }

  /** Replacing one row of a grid changes the count by the difference of the two rows. */
  lemma {:induction false} CountUpdate(g: Grid, r: int, row: seq<Cell>, f: Feature)
    requires 0 <= r < |g|
    ensures Count(g[r := row], f) + CountRow(g[r], f) == Count(g, f) + CountRow(row, f)
    decreases |g|
  {
    var n := |g| - 1;
    if r == n {
      assert g[r := row][..n] == g[..n];
    } else {
      assert g[r := row][..n] == g[..n][r := row];
      CountUpdate(g[..n], r, row, f);
    }
  }

  /** Setting the occupant of a cell changes the count by the difference of the old and new cell. */
  lemma CountPut(g: Grid, p: Pos, occ: Option<Occupant>, f: Feature)
    requires Rectangular(g) && InGrid(g, p)
    ensures Count(Put(g, p, occ), f) + Bit(At(g, p), f) == Count(g, f) + Bit(Cell(occ, At(g, p).target), f)
  {
    var c := Cell(occ, At(g, p).target);
    CountRowUpdate(g[p.row], p.col, c, f);
    CountUpdate(g, p.row, g[p.row][p.col := c], f);
  }

  /** A cell with the feature contributes to the count. */
  lemma {:induction false} CountRowAtLeast(cells: seq<Cell>, i: int, j: int, f: Feature)
    requires 0 <= i < |cells| && 0 <= j < |cells|
    ensures CountRow(cells, f) >= Bit(cells[i], f)
    ensures i != j ==> CountRow(cells, f) >= Bit(cells[i], f) + Bit(cells[j], f)
    decreases |cells|
  {
    var n := |cells| - 1;
    if i < n && j < n {
      CountRowAtLeast(cells[..n], i, j, f);
    } else if i < n {
      CountRowAtLeast(cells[..n], i, i, f);
    } else if j < n {
      CountRowAtLeast(cells[..n], j, j, f);
    }
  }

  /**
   * Every cell with the feature counts: a count of one means the cell that has the feature
   * is the only one.
   */
  lemma {:induction false} CountAtLeast(g: Grid, p: Pos, q: Pos, f: Feature)
    requires Rectangular(g) && InGrid(g, p) && InGrid(g, q)
    ensures Count(g, f) >= Bit(At(g, p), f)
    ensures p != q ==> Count(g, f) >= Bit(At(g, p), f) + Bit(At(g, q), f)
    decreases |g|
  {
    var n := |g| - 1;
    var g' := g[..n];
    if p.row < n && q.row < n {
      CountAtLeast(g', p, q, f);
    } else if p.row < n {
      CountAtLeast(g', p, p, f);
      CountRowAtLeast(g[n], q.col, q.col, f);
    } else if q.row < n {
      CountAtLeast(g', q, q, f);
      CountRowAtLeast(g[n], p.col, p.col, f);
    } else {
      CountRowAtLeast(g[n], p.col, q.col, f);
    }
  }

  /** A positive count has a witness. */
  lemma {:induction false} CountWitness(g: Grid, f: Feature) returns (p: Pos)
    requires Rectangular(g) && Count(g, f) > 0
    ensures InGrid(g, p) && Has(At(g, p), f)
    decreases |g|
  {
    var n := |g| - 1;
    if Count(g[..n], f) > 0 {
      p := CountWitness(g[..n], f);
    } else {
      var c := RowWitness(g[n], f);
      p := Pos(n, c);
    }
  }

  lemma {:induction false} RowWitness(cells: seq<Cell>, f: Feature) returns (i: int)
    requires CountRow(cells, f) > 0
    ensures 0 <= i < |cells| && Has(cells[i], f)
    decreases |cells|
  {
    var n := |cells| - 1;
    if Has(cells[n], f) {
      i := n;
    } else {
      i := RowWitness(cells[..n], f);
    }
  }

  /**
   * A count of exactly one: some cell has the feature and no other does (for actors, the
   * `numActors() == 1` check of `checkValid`).
   */
  lemma UniqueCount(g: Grid, f: Feature) returns (p: Pos)
    requires Rectangular(g) && Count(g, f) == 1
    ensures InGrid(g, p) && Has(At(g, p), f)
    ensures forall q :: InGrid(g, q) && q != p ==> !Has(At(g, q), f)
  {
    p := CountWitness(g, f);
    forall q | InGrid(g, q) && q != p
      ensures !Has(At(g, q), f)
    {
      CountAtLeast(g, p, q, f);
    }
  }

  /**
   * Counting a feature that implies another gives a smaller count, and the two counts are
   * equal exactly when every cell with the second feature also has the first.
   */
  lemma {:induction false} CountRowMono(cells: seq<Cell>, f1: Feature, f2: Feature)
    requires forall c :: Has(c, f1) ==> Has(c, f2)
    ensures CountRow(cells, f1) <= CountRow(cells, f2)
    ensures CountRow(cells, f1) == CountRow(cells, f2) <==>
      forall i :: 0 <= i < |cells| && Has(cells[i], f2) ==> Has(cells[i], f1)
    decreases |cells|
  {
    if |cells| > 0 {
      var n := |cells| - 1;
      CountRowMono(cells[..n], f1, f2);
      if CountRow(cells, f1) == CountRow(cells, f2) {
        forall i | 0 <= i < |cells| && Has(cells[i], f2)
          ensures Has(cells[i], f1)
        {
          if i < n {
            assert cells[..n][i] == cells[i];
          }
        }
      } else {
        // a cell with f2 but not f1: either the last one or one in the prefix
        if Has(cells[n], f2) == Has(cells[n], f1) {
          var i :| 0 <= i < n && Has(cells[..n][i], f2) && !Has(cells[..n][i], f1);
          assert cells[i] == cells[..n][i];
        }
      }
    }
  }

  lemma {:induction false} CountMono(g: Grid, f1: Feature, f2: Feature)
    requires Rectangular(g)
    requires forall c :: Has(c, f1) ==> Has(c, f2)
    ensures Count(g, f1) <= Count(g, f2)
    ensures Count(g, f1) == Count(g, f2) <==>
      forall p :: InGrid(g, p) && Has(At(g, p), f2) ==> Has(At(g, p), f1)
    decreases |g|
  {
    if |g| > 0 {
      var n := |g| - 1;
      var g' := g[..n];
      CountMono(g', f1, f2);
      CountRowMono(g[n], f1, f2);
      if Count(g, f1) == Count(g, f2) {
        forall p | InGrid(g, p) && Has(At(g, p), f2)
          ensures Has(At(g, p), f1)
        {
          if p.row < n {
            assert InGrid(g', p) && At(g', p) == At(g, p);
          } else {
            assert At(g, p) == g[n][p.col];
          }
        }
      } else if Count(g', f1) == Count(g', f2) {
        var i :| 0 <= i < |g[n]| && Has(g[n][i], f2) && !Has(g[n][i], f1);
        assert At(g, Pos(n, i)) == g[n][i];
      } else {
        var p :| InGrid(g', p) && Has(At(g', p), f2) && !Has(At(g', p), f1);
        assert InGrid(g, p) && At(g, p) == At(g', p);
      }
    }
  }

  /** `Sokoban.onTarget`: as many boxes on targets as there are targets. */
  predicate Solved(g: Grid)
  {
    Count(g, BoxesOnTarget) == Count(g, Targets)
  }

  /** The puzzle is solved exactly when every target holds a box. */
  lemma SolvedIffTargetsFilled(g: Grid)
    requires Rectangular(g)
    ensures Solved(g) <==> forall p :: InGrid(g, p) && At(g, p).target ==> At(g, p).HasBox()
  {
    CountMono(g, BoxesOnTarget, Targets);
  }

  /** With as many boxes as targets, the puzzle is solved exactly when every box is on a target. */
  lemma SolvedIffBoxesPlaced(g: Grid)
    requires Rectangular(g) && Count(g, Boxes) == Count(g, Targets)
    ensures Solved(g) <==> forall p :: InGrid(g, p) && At(g, p).HasBox() ==> At(g, p).target
  {
    CountMono(g, BoxesOnTarget, Boxes);
  }
}
