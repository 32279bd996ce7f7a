/**
 * The moveable-box-location search (the three `Cell.isMoveableBoxLocation` overloads): could a
 * box at a cell be moved perpendicular to a direction, possibly after pushing aside the boxes
 * beside it? A depth-first search over cells, guarded by a visited set that only grows.
 */
module Search {
  import opened Wrappers
  import opened Directions
  import opened Grids

  /** Every position of the grid. */
  function Positions(g: Grid): set<Pos>
  {
    set r, c | 0 <= r < Rows(g) && 0 <= c < Cols(g) :: Pos(r, c)
  }

  /** A cell away from the grid's edge: all four neighbours exist. */
  predicate Interior(g: Grid, p: Pos)
  {
    1 <= p.row < Rows(g) - 1 && 1 <= p.col < Cols(g) - 1
  }

  lemma InteriorNeighbours(g: Grid, p: Pos, d: Direction)
    requires Interior(g, p)
    ensures InGrid(g, p) && InGrid(g, Step(p, d))
  {
  }

  /**
   * The condition under which the Java code never dereferences a missing neighbour: every box
   * is away from the edge, and so is every neighbour of a box that is not a wall. The pushing
   * and searching code only ever looks around boxes and the cells they may be pushed into.
   */
  ghost predicate Framed(g: Grid)
    requires Rectangular(g)
  {
    forall p :: InGrid(g, p) && At(g, p).HasBox() ==>
      Interior(g, p) && forall d :: !WallAt(g, Step(p, d)) ==> Interior(g, Step(p, d))
  }

  /** `left.isEmpty() || left.hasActor() || left.equals(origin)`: origin counts as free. */
  predicate Receivable(g: Grid, q: Pos, origin: Pos)
    requires Rectangular(g) && InGrid(g, q)
  {
    At(g, q).IsEmpty() || At(g, q).HasActor() || q == origin
  }

  /** A neighbour the search may use: on the grid, not yet visited, and free or holding a box. */
  predicate Available(g: Grid, visited: set<Pos>, q: Pos, origin: Pos)
    requires Rectangular(g)
  {
    InGrid(g, q) && q !in visited && (Receivable(g, q, origin) || At(g, q).HasBox())
  }

  /** The outcome of a search: its answer and the visited set as the search leaves it. */
  datatype Explored = Explored(ok: bool, visited: set<Pos>)

  /**
   * The private overload `isMoveableBoxLocation(origin, dir, visited)`. A cell already visited
   * answers false at once; otherwise it is marked visited, and the box could be moved left if
   * the left neighbour can receive it and the right neighbour can let go, or symmetrically to
   * the right. The visited set is threaded through every recursive call in Java's evaluation
   * order, and the neighbours' visited flags are those taken before any recursion.
   */
  function Explore(g: Grid, p: Pos, origin: Pos, dir: Direction, visited: set<Pos>): (r: Explored)
    requires Rectangular(g) && Framed(g) && Interior(g, p)
    ensures visited <= r.visited <= visited + Positions(g)
    ensures p in visited ==> r == Explored(false, visited)
    ensures p !in visited ==> p in r.visited
    ensures r.ok ==>
              && p !in visited
              && Available(g, visited + {p}, Step(p, Left(dir)), origin)
              && Available(g, visited + {p}, Step(p, Right(dir)), origin)
    decreases |Positions(g) - visited|, 0
  {
    if p in visited then Explored(false, visited)
    else
      var v0 := visited + {p};
      assert p in Positions(g);
      SubsetMeasure(g, visited, v0, p);
      var left, right := Step(p, Left(dir)), Step(p, Right(dir));
      var visitedLeft, visitedRight := left in v0, right in v0;
      // could move left
      var a1 := Leg(g, origin, left, Left(dir), visitedLeft, true, v0);
      var a2 := if a1.ok then SubsetMeasure(g, visited, a1.visited, p);
                              Leg(g, origin, right, Right(dir), visitedRight, false, a1.visited)
                else a1;
      if a2.ok then a2
      else
        // could move right
        SubsetMeasure(g, visited, a2.visited, p);
        var b1 := Leg(g, origin, right, Right(dir), visitedRight, true, a2.visited);
        if b1.ok then SubsetMeasure(g, visited, b1.visited, p);
                      Leg(g, origin, left, Left(dir), visitedLeft, false, b1.visited)
        else b1
  }

  /**
   * One neighbour's part of the test: it exists, was not visited, and either it is free
   * (and wall-safe, when it is the side receiving the box) or it holds a box that can itself
   * be moved out of the way in the same sideways direction.
   */
  function Leg(g: Grid, origin: Pos, q: Pos, d: Direction, seen: bool, receiving: bool, visited: set<Pos>): (r: Explored)
    requires Rectangular(g) && Framed(g)
    ensures visited <= r.visited <= visited + Positions(g)
    ensures r.ok ==> InGrid(g, q) && !seen && (Receivable(g, q, origin) || At(g, q).HasBox())
    decreases |Positions(g) - visited|, 1
  {
    if !InGrid(g, q) || seen then Explored(false, visited)
    else if Receivable(g, q, origin) && (!receiving || IsWallSafe(g, q)) then Explored(true, visited)
    else if At(g, q).HasBox() then Explore(g, q, origin, d, visited)
    else Explored(false, visited)
  }

  /**
   * The search as the Java code runs it, one statement at a time, with the visited set
   * passed in and handed back (the Java code updates one shared set in place).
   */
  method SearchFrom(g: Grid, p: Pos, origin: Pos, dir: Direction, visited: set<Pos>)
    returns (ok: bool, visitedOut: set<Pos>)
    requires Rectangular(g) && Framed(g) && Interior(g, p)
    ensures Explored(ok, visitedOut) == Explore(g, p, origin, dir, visited)
    decreases |Positions(g) - visited|, 0
  {
    var left, right := Step(p, Left(dir)), Step(p, Right(dir));
    if p in visited {
      return false, visited;
    }
    var v := visited + {p};
    assert p in Positions(g);
    var visitedLeft, visitedRight := left in v, right in v;
    // could move left
    SubsetMeasure(g, visited, v, p);
    ok, v := TrySide(g, origin, left, Left(dir), visitedLeft, true, v);
    if ok {
      SubsetMeasure(g, visited, v, p);
      ok, v := TrySide(g, origin, right, Right(dir), visitedRight, false, v);
    }
    // could move right
    if !ok {
      SubsetMeasure(g, visited, v, p);
      ok, v := TrySide(g, origin, right, Right(dir), visitedRight, true, v);
      if ok {
        SubsetMeasure(g, visited, v, p);
        ok, v := TrySide(g, origin, left, Left(dir), visitedLeft, false, v);
      }
    }
    return ok, v;
  }

  /** One neighbour's part of the test, as a statement sequence (see `Leg`). */
  method TrySide(g: Grid, origin: Pos, q: Pos, d: Direction, seen: bool, receiving: bool, visited: set<Pos>)
    returns (ok: bool, visitedOut: set<Pos>)
    requires Rectangular(g) && Framed(g)
    ensures Explored(ok, visitedOut) == Leg(g, origin, q, d, seen, receiving, visited)
    decreases |Positions(g) - visited|, 1
  {
    if !InGrid(g, q) || seen {
      return false, visited;
    }
    var cell := At(g, q);
    if (cell.IsEmpty() || cell.HasActor() || q == origin) && (!receiving || IsWallSafe(g, q)) {
      return true, visited;
    }
    if cell.HasBox() {
      ok, visitedOut := SearchFrom(g, q, origin, d, visited);
      return;
    }
    return false, visited;
  }

  /**
   * With no box beside the cell there is no recursion, and the search is a decision table:
   * the box can move iff the cell is unvisited, both sideways neighbours are on the grid,
   * unvisited and free (empty, the actor, or the origin), and at least one of them is wall-safe.
   */
  lemma {:induction false} ExploreWithoutBoxes(g: Grid, p: Pos, origin: Pos, dir: Direction, visited: set<Pos>)
    requires Rectangular(g) && Framed(g) && Interior(g, p)
    requires !At(g, Step(p, Left(dir))).HasBox() && !At(g, Step(p, Right(dir))).HasBox()
    ensures Explore(g, p, origin, dir, visited).ok <==>
      var l, r, v := Step(p, Left(dir)), Step(p, Right(dir)), visited + {p};
      p !in visited && l !in v && r !in v
      && Receivable(g, l, origin) && Receivable(g, r, origin)
      && (IsWallSafe(g, l) || IsWallSafe(g, r))
  {
    InteriorNeighbours(g, p, Left(dir));
    InteriorNeighbours(g, p, Right(dir));
  }

  /**
   * A box beside the cell does not block it when it can itself be pushed aside first: if the
   * left neighbour holds a box, the right neighbour is free,
   * and the search from the left box succeeds, so does the search from this cell.
   */
  lemma {:induction false} ExploreThroughBox(g: Grid, p: Pos, origin: Pos, dir: Direction, visited: set<Pos>)
    requires Rectangular(g) && Framed(g) && Interior(g, p) && p !in visited
    requires var l, r, v := Step(p, Left(dir)), Step(p, Right(dir)), visited + {p};
      InGrid(g, l) && InGrid(g, r) && l !in v && r !in v
      && At(g, l).HasBox() && Receivable(g, r, origin)
      && Explore(g, l, origin, Left(dir), v).ok
    ensures Explore(g, p, origin, dir, visited).ok
  {
  }

  /** Visiting one more grid position strictly decreases the number left to visit. */
  lemma SubsetMeasure(g: Grid, a: set<Pos>, b: set<Pos>, p: Pos)
    requires a <= b && p in b && p !in a && p in Positions(g)
    ensures |Positions(g) - b| < |Positions(g) - a|
  {
    assert p in Positions(g) - a && p !in Positions(g) - b;
    SubsetCard(Positions(g) - b, Positions(g) - a);
  }

  lemma SubsetCard<T>(a: set<T>, b: set<T>)
    requires a <= b
    ensures |a| <= |b|
    ensures a != b ==> |a| < |b|
  {
    if a != b {
      var x :| x in b && x !in a;
      SubsetCard(a, b - {x});
    }
  }

  /** The two-argument overload: a search with nothing visited yet. */
  function IsMoveableBoxLocation(g: Grid, p: Pos, origin: Pos, dir: Direction): (ok: bool)
    requires Rectangular(g) && Framed(g) && Interior(g, p)
    ensures ok ==> Available(g, {p}, Step(p, Left(dir)), origin) && Available(g, {p}, Step(p, Right(dir)), origin)
  {
    Explore(g, p, origin, dir, {}).ok
  }

  /**
   * The taboo overload: `None` (the IllegalArgumentException) when the taboo cell is this
   * cell; otherwise the search with the taboo cell already counted as visited.
   */
  function IsMoveableBoxLocationAvoiding(g: Grid, p: Pos, origin: Pos, taboo: Pos, dir: Direction): (r: Option<bool>)
    requires Rectangular(g) && Framed(g) && Interior(g, p)
    ensures r.None? <==> taboo == p
    ensures r == Some(true) ==>
      && Available(g, {taboo, p}, Step(p, Left(dir)), origin)
      && Available(g, {taboo, p}, Step(p, Right(dir)), origin)
  {
    if taboo == p then None else Some(Explore(g, p, origin, dir, {taboo}).ok)
  }

  /** The two-argument overload as the Java code runs it: a fresh, empty visited set. */
  method SearchMoveable(g: Grid, p: Pos, origin: Pos, dir: Direction) returns (ok: bool)
    requires Rectangular(g) && Framed(g) && Interior(g, p)
    ensures ok == IsMoveableBoxLocation(g, p, origin, dir)
  {
    var visited: set<Pos> := {};
    ok, visited := SearchFrom(g, p, origin, dir, visited);
  }

  /** The taboo overload as the Java code runs it: rejects `taboo == p`, else seeds the visited set. */
  method SearchMoveableAvoiding(g: Grid, p: Pos, origin: Pos, taboo: Pos, dir: Direction)
    returns (r: Option<bool>)
    requires Rectangular(g) && Framed(g) && Interior(g, p)
    ensures r == IsMoveableBoxLocationAvoiding(g, p, origin, taboo, dir)
  {
    if taboo == p {
      return None;
    }
    var visited: set<Pos> := {taboo};
    var ok;
    ok, visited := SearchFrom(g, p, origin, dir, visited);
    return Some(ok);
  }
}
