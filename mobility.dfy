/**
 * Mobility of occupants and the move itself (Box.java, Actor.java, Wall.java, the mobility
 * parts of Occupant.java and Cell.java): may the occupant of a cell move one step, and what
 * does the grid look like after it has.
 */
module Mobility {
  import opened Wrappers
  import opened Directions
  import opened Occupants
  import opened Grids
  import opened Search
  import opened Counting

  /** The cell a box occupies and the empty cell it is pushed into are both away from the edge. */
  lemma FramedBox(g: Grid, b: Pos, d: Direction)
    requires Rectangular(g) && Framed(g) && InGrid(g, b) && At(g, b).HasBox()
    ensures Interior(g, b) && InGrid(g, Step(b, d))
    ensures !At(g, Step(b, d)).HasWall() ==> Interior(g, Step(b, d))
  {
  }

  /**
   * One override of `isStuckSafe`: the neighbour `q` of `next` holds a box, and either `next`
   * is a moveable box location across `d`, or `q` is one with `next` taboo; in both searches
   * the origin is the pushed box's cell `b`.
   */
  predicate Override(g: Grid, b: Pos, next: Pos, q: Pos, d: Direction)
    requires Rectangular(g) && Framed(g) && Interior(g, next) && InGrid(g, q)
  {
    At(g, q).HasBox()
    && (IsMoveableBoxLocation(g, next, b, d) || IsMoveableBoxLocationAvoiding(g, q, b, next, d) == Some(true))
  }

  /**
   * `Box.isStuckSafe(dir)` for the box at `b`: `None` models the SokobanException raised when
   * the next cell is missing, occupied or not wall-safe. A target next cell is always safe;
   * otherwise the push is safe when no box is ahead of, left of or right of the next cell, or
   * when at least one such box has its override.
   */
  function StuckSafe(g: Grid, b: Pos, dir: Direction): (r: Option<bool>)
    requires Rectangular(g) && Framed(g) && InGrid(g, b) && At(g, b).HasBox()
    ensures r.Some? <==>
      InGrid(g, Step(b, dir)) && At(g, Step(b, dir)).IsEmpty() && IsWallSafe(g, Step(b, dir))
    ensures r.Some? && At(g, Step(b, dir)).target ==> r.value
  {
    var next := Step(b, dir);
    if !InGrid(g, next) then None
    else if !At(g, next).IsEmpty() then None
    else if !IsWallSafe(g, next) then None
    else if At(g, next).target then Some(true)
    else
      FramedBox(g, b, dir);
      InteriorNeighbours(g, next, dir);
      InteriorNeighbours(g, next, Left(dir));
      InteriorNeighbours(g, next, Right(dir));
      var ahead, left, right := Step(next, dir), Step(next, Left(dir)), Step(next, Right(dir));
      Some(!(At(g, ahead).HasBox() || At(g, left).HasBox() || At(g, right).HasBox())
           || Override(g, b, next, ahead, dir)
           || Override(g, b, next, left, Left(dir))
           || Override(g, b, next, right, Right(dir)))
  }

  /** One of the three override tests of `isStuckSafe`, with Java's short-circuit order. */
  method TestOverride(g: Grid, b: Pos, next: Pos, q: Pos, d: Direction) returns (yes: bool)
    requires Rectangular(g) && Framed(g) && Interior(g, next) && InGrid(g, q)
    ensures yes == Override(g, b, next, q, d)
  {
    if !At(g, q).HasBox() {
      return false;
    }
    yes := SearchMoveable(g, next, b, d);
    if !yes {
      FramedBox(g, q, d);
      var avoiding := SearchMoveableAvoiding(g, q, b, next, d);
      yes := avoiding == Some(true);
    }
  }

  /**
   * `Box.isStuckSafe` as the Java code runs it: a local flag starts as "no box near next" and
   * each of three sequential overrides may only set it, never clear it; so the result is the
   * disjunction `StuckSafe` states.
   */
  method IsStuckSafe(g: Grid, b: Pos, dir: Direction) returns (r: Option<bool>)
    requires Rectangular(g) && Framed(g) && InGrid(g, b) && At(g, b).HasBox()
    ensures r == StuckSafe(g, b, dir)
  {
    var next := Step(b, dir);
    if !InGrid(g, next) || !At(g, next).IsEmpty() || !IsWallSafe(g, next) {
      return None;
    }
    if At(g, next).target {
      return Some(true);
    }
    FramedBox(g, b, dir);
    InteriorNeighbours(g, next, dir);
    InteriorNeighbours(g, next, Left(dir));
    InteriorNeighbours(g, next, Right(dir));
    var nextAhead, nextLeft, nextRight := Step(next, dir), Step(next, Left(dir)), Step(next, Right(dir));
    // might get stuck if we move next to a box
    var stuckSafe := !(At(g, nextAhead).HasBox() || At(g, nextLeft).HasBox() || At(g, nextRight).HasBox());
    // ... but not if the box ahead, on the left or on the right can be moved, or we still can
    var aheadClear := TestOverride(g, b, next, nextAhead, dir);
    if aheadClear {
      stuckSafe := true;
    }
    var leftClear := TestOverride(g, b, next, nextLeft, Left(dir));
    if leftClear {
      stuckSafe := true;
    }
    var rightClear := TestOverride(g, b, next, nextRight, Right(dir));
    if rightClear {
      stuckSafe := true;
    }
    return Some(stuckSafe);
  }

  /**
   * `Box.canMove`: the next cell exists, is empty, is wall-safe, and the push is stuck-safe.
   * The first three conjuncts are exactly what `isStuckSafe` demands, so it never throws here.
   */
  predicate BoxCanMove(g: Grid, b: Pos, dir: Direction)
    requires Rectangular(g) && Framed(g) && InGrid(g, b) && At(g, b).HasBox()
  {
    var next := Step(b, dir);
    InGrid(g, next) && At(g, next).IsEmpty() && IsWallSafe(g, next) && StuckSafe(g, b, dir) == Some(true)
  }

  /** How many steps in `d` remain before the edge of the grid. */
  function Remaining(g: Grid, p: Pos, d: Direction): nat
    requires InGrid(g, p)
  {
    match d
    case North => p.row
    case South => Rows(g) - 1 - p.row
    case East => Cols(g) - 1 - p.col
    case West => p.col
  }

  /** A step that stays on the grid is one step closer to the edge. */
  lemma RemainingStep(g: Grid, p: Pos, d: Direction)
    requires InGrid(g, p) && InGrid(g, Step(p, d))
    ensures Remaining(g, Step(p, d), d) == Remaining(g, p, d) - 1
  {
  }

  /** `Cell.canMove`: an empty cell cannot move; otherwise its occupant decides. */
  predicate CellCanMove(g: Grid, p: Pos, d: Direction)
    requires Rectangular(g) && Framed(g) && InGrid(g, p)
    decreases Remaining(g, p, d), 2
  {
    match At(g, p).occ
    case None => false
    case Some(o) => OccupantCanMove(g, o, p, d)
  }

  /** `Occupant.canMove` with its overrides: false by default (so for a wall), Box's, Actor's. */
  predicate OccupantCanMove(g: Grid, o: Occupant, p: Pos, d: Direction)
    requires Rectangular(g) && Framed(g) && InGrid(g, p) && At(g, p).occ == Some(o)
    decreases Remaining(g, p, d), 1
  {
    match o
    case Wall => false
    case Box => BoxCanMove(g, p, d)
    case Actor => ActorCanMove(g, p, d)
  }

  /** `Actor.canMove`: the next cell exists and is empty or its occupant can move the same way. */
  predicate ActorCanMove(g: Grid, p: Pos, d: Direction)
    requires Rectangular(g) && Framed(g) && InGrid(g, p)
    decreases Remaining(g, p, d), 0
  {
    var next := Step(p, d);
    InGrid(g, next) && (At(g, next).IsEmpty() || (RemainingStep(g, p, d); CellCanMove(g, next, d)))
  }

  /** `Occupant.isStuckSafe`: false by default; only a box overrides it. */
  function OccupantStuckSafe(g: Grid, o: Occupant, p: Pos, d: Direction): (r: Option<bool>)
    requires Rectangular(g) && Framed(g) && InGrid(g, p) && At(g, p).occ == Some(o)
    ensures !o.IsBox() ==> r == Some(false)
  {
    match o
    case Box => StuckSafe(g, p, d)
    case _ => Some(false)
  }

  /** `Cell.isStuckSafe`: an empty cell is not stuck-safe; otherwise its occupant decides. */
  function CellStuckSafe(g: Grid, p: Pos, d: Direction): (r: Option<bool>)
    requires Rectangular(g) && Framed(g) && InGrid(g, p)
    ensures At(g, p).IsEmpty() ==> r == Some(false)
    ensures At(g, p).HasBox() ==> r == StuckSafe(g, p, d)
  {
    match At(g, p).occ
    case None => Some(false)
    case Some(o) => OccupantStuckSafe(g, o, p, d)
  }

  /** A wall never moves (Wall inherits the default `canMove`) and is never stuck-safe or on target. */
  lemma WallInert(g: Grid, p: Pos, d: Direction)
    requires Rectangular(g) && Framed(g) && InGrid(g, p) && At(g, p).HasWall()
    ensures !CellCanMove(g, p, d)
    ensures CellStuckSafe(g, p, d) == Some(false)
    ensures !CellOnTarget(At(g, p))
  {
  }

  /**
   * The actor's step as a table: legal iff the next cell exists and is empty, or holds a box
   * that can be pushed the same way, or holds an actor that can itself step. In particular
   * the actor never steps into a wall.
   */
  lemma ActorStepTable(g: Grid, a: Pos, d: Direction)
    requires Rectangular(g) && Framed(g) && InGrid(g, a)
    ensures ActorCanMove(g, a, d) <==>
      var next := Step(a, d);
      InGrid(g, next)
      && (At(g, next).IsEmpty()
          || (At(g, next).HasBox() && BoxCanMove(g, next, d))
          || (At(g, next).HasActor() && ActorCanMove(g, next, d)))
    ensures ActorCanMove(g, a, d) ==> !WallAt(g, Step(a, d))
  {
    var next := Step(a, d);
    if InGrid(g, next) && !At(g, next).IsEmpty() {
      RemainingStep(g, a, d);
      assert CellCanMove(g, next, d) == OccupantCanMove(g, At(g, next).occ.value, next, d);
    }
  }

  /**
   * A push moves one box only: when the actor may step into a box, that box may move the
   * same way, and the cell beyond it exists, is empty and is wall-safe.
   */
  lemma PushMovesOneBox(g: Grid, a: Pos, d: Direction)
    requires Rectangular(g) && Framed(g) && InGrid(g, a)
    requires ActorCanMove(g, a, d) && At(g, Step(a, d)).HasBox()
    ensures BoxCanMove(g, Step(a, d), d)
    ensures InGrid(g, Step(Step(a, d), d)) && At(g, Step(Step(a, d), d)).IsEmpty()
    ensures IsWallSafe(g, Step(Step(a, d), d))
  {
    ActorStepTable(g, a, d);
  }

  /**
   * Stuck-safety as a table: a push into a target is safe; with no box ahead of, left of or
   * right of the next cell the push is safe; with one, it is safe iff one of the three
   * overrides holds, so no override can be cancelled by the absence of another.
   */
  lemma StuckSafeTable(g: Grid, b: Pos, dir: Direction)
    requires Rectangular(g) && Framed(g) && InGrid(g, b) && At(g, b).HasBox()
    requires var next := Step(b, dir);
      InGrid(g, next) && At(g, next).IsEmpty() && IsWallSafe(g, next)
    ensures var next := Step(b, dir);
      Interior(g, next)
      && (At(g, next).target ==> StuckSafe(g, b, dir) == Some(true))
      && (!At(g, next).target ==>
            var ahead, left, right := Step(next, dir), Step(next, Left(dir)), Step(next, Right(dir));
            (StuckSafe(g, b, dir) == Some(true) <==>
              (!At(g, ahead).HasBox() && !At(g, left).HasBox() && !At(g, right).HasBox())
              || Override(g, b, next, ahead, dir)
              || Override(g, b, next, left, Left(dir))
              || Override(g, b, next, right, Right(dir))))
  {
    FramedBox(g, b, dir);
    var next := Step(b, dir);
    InteriorNeighbours(g, next, dir);
    InteriorNeighbours(g, next, Left(dir));
    InteriorNeighbours(g, next, Right(dir));
  }

  /** The facts about a legal step that the push needs: the next cell exists and, if occupied, can move on. */
  lemma CanMoveStep(g: Grid, p: Pos, d: Direction)
    requires Rectangular(g) && Framed(g) && InGrid(g, p) && CellCanMove(g, p, d)
    ensures InGrid(g, Step(p, d))
    ensures At(g, p).HasActor() || At(g, p).HasBox()
    ensures At(g, p).HasBox() ==> At(g, Step(p, d)).IsEmpty()
    ensures !At(g, Step(p, d)).IsEmpty() ==> CellCanMove(g, Step(p, d), d)
    ensures !At(g, Step(p, d)).HasWall()
  {
    var o := At(g, p).occ.value;
    assert OccupantCanMove(g, o, p, d);
    match o
    case Box =>
      assert BoxCanMove(g, p, d);
    case Actor =>
      assert ActorCanMove(g, p, d);
      var next := Step(p, d);
      if At(g, next).HasWall() {
        RemainingStep(g, p, d);
        WallInert(g, next, d);
      }
  }

  /** `q` lies on the ray that starts at `p` and runs in direction `d`. */
  predicate Ahead(p: Pos, d: Direction, q: Pos)
  {
    match d
    case North => q.col == p.col && q.row <= p.row
    case South => q.col == p.col && q.row >= p.row
    case East => q.row == p.row && q.col >= p.col
    case West => q.row == p.row && q.col <= p.col
  }

  /** The ray from `p` holds `p` and the next cell, and contains the ray from the next cell. */
  lemma AheadStep(p: Pos, d: Direction)
    ensures Ahead(p, d, p) && Ahead(p, d, Step(p, d))
    ensures forall q :: Ahead(Step(p, d), d, q) ==> Ahead(p, d, q)
  {
  }

  /**
   * `Occupant.move` (and `Cell.move`, which delegates to it) for a legal move: whatever occupies
   * the next cell is first moved one step further the same way, then this cell is emptied and
   * its occupant put in the next cell. Walls and target flags are untouched, and the result is
   * the original grid with the occupant of `p` moved into the next cell.
   */
  function Pushed(g: Grid, p: Pos, d: Direction): (g': Grid)
    requires Rectangular(g) && Framed(g) && InGrid(g, p) && CellCanMove(g, p, d)
    ensures Rectangular(g') && Rows(g') == Rows(g) && Cols(g') == Cols(g)
    ensures InGrid(g, Step(p, d))
    ensures At(g', p).IsEmpty() && At(g', Step(p, d)).occ == At(g, p).occ
    ensures forall q :: InGrid(g, q) ==>
      && At(g', q).target == At(g, q).target
      && (At(g', q).HasWall() <==> At(g, q).HasWall())
      && (!Ahead(p, d, q) ==> At(g', q) == At(g, q))
    decreases Remaining(g, p, d)
  {
    CanMoveStep(g, p, d);
    RemainingStep(g, p, d);
    var next := Step(p, d);
    var g1 := if At(g, next).IsEmpty() then g else Pushed(g, next, d);
    PushFrame(g, g1, p, d);
    Put(Put(g1, p, None), next, At(g, p).occ)
  }

  /**
   * The last step of a push: once whatever was ahead has moved on (`g1` differs from `g` at
   * most on the ray from the next cell, and not in its walls or targets), emptying `p` and
   * filling the next cell gives a grid that differs from `g` at most on the ray from `p`.
   */
  lemma PushFrame(g: Grid, g1: Grid, p: Pos, d: Direction)
    requires Rectangular(g) && Rectangular(g1) && Rows(g1) == Rows(g) && Cols(g1) == Cols(g)
    requires InGrid(g, p) && InGrid(g, Step(p, d)) && !At(g, p).HasWall() && !At(g, p).IsEmpty()
    requires !At(g, Step(p, d)).HasWall() && At(g1, p) == At(g, p) && At(g1, Step(p, d)).IsEmpty()
    requires forall q :: InGrid(g, q) ==>
      && At(g1, q).target == At(g, q).target
      && (At(g1, q).HasWall() <==> At(g, q).HasWall())
      && (!Ahead(Step(p, d), d, q) ==> At(g1, q) == At(g, q))
    ensures var g' := Put(Put(g1, p, None), Step(p, d), At(g, p).occ);
      && Rectangular(g') && Rows(g') == Rows(g) && Cols(g') == Cols(g)
      && At(g', p).IsEmpty() && At(g', Step(p, d)).occ == At(g, p).occ
      && forall q :: InGrid(g, q) ==>
        && At(g', q).target == At(g, q).target
        && (At(g', q).HasWall() <==> At(g, q).HasWall())
        && (!Ahead(p, d, q) ==> At(g', q) == At(g, q))
  {
    StepReverse(p, d);
    TransferFrame(g1, p, Step(p, d), At(g, p).occ);
    AheadStep(p, d);
  }

  /** Emptying `p` and filling `q` changes those two cells only, and no target flag. */
  lemma TransferFrame(g: Grid, p: Pos, q: Pos, occ: Option<Occupant>)
    requires Rectangular(g) && InGrid(g, p) && InGrid(g, q) && p != q
    ensures var g' := Put(Put(g, p, None), q, occ);
      && Rectangular(g') && Rows(g') == Rows(g) && Cols(g') == Cols(g)
      && At(g', p) == Cell(None, At(g, p).target)
      && At(g', q) == Cell(occ, At(g, q).target)
      && forall r :: InGrid(g, r) ==> At(g', r).target == At(g, r).target && (r != p && r != q ==> At(g', r) == At(g, r))
  {
  }

  /** One unfolding of `Pushed`: the occupant of the next cell moves on first, unless it is empty. */
  lemma PushedUnfold(g: Grid, p: Pos, d: Direction)
    requires Rectangular(g) && Framed(g) && InGrid(g, p) && CellCanMove(g, p, d)
    ensures InGrid(g, Step(p, d))
    ensures At(g, Step(p, d)).IsEmpty() ==>
      Pushed(g, p, d) == Put(Put(g, p, None), Step(p, d), At(g, p).occ)
    ensures !At(g, Step(p, d)).IsEmpty() ==>
      && CellCanMove(g, Step(p, d), d)
      && Pushed(g, p, d) == Put(Put(Pushed(g, Step(p, d), d), p, None), Step(p, d), At(g, p).occ)
  {
    CanMoveStep(g, p, d);
  }

  /**
   * `Sokoban.move` on the grid: when the actor may step and the next cell holds no second actor,
   * exactly the actor's cell, the next cell and (after a push) the cell beyond change: the actor
   * leaves its cell, arrives in the next one, and a pushed box lands one further on.
   */
  lemma ActorMove(g: Grid, a: Pos, d: Direction)
    requires Rectangular(g) && Framed(g) && InGrid(g, a) && At(g, a).HasActor()
    requires ActorCanMove(g, a, d) && !At(g, Step(a, d)).HasActor()
    ensures CellCanMove(g, a, d)
    ensures var g', next, beyond := Pushed(g, a, d), Step(a, d), Step(Step(a, d), d);
      && At(g', a) == Cell(None, At(g, a).target)
      && At(g', next) == Cell(Some(Actor), At(g, next).target)
      && (At(g, next).HasBox() ==>
            InGrid(g, beyond) && At(g', beyond) == Cell(Some(Box), At(g, beyond).target))
      && forall q :: InGrid(g, q) && q != a && q != next && (q != beyond || !At(g, next).HasBox()) ==>
           At(g', q) == At(g, q)
  {
    assert OccupantCanMove(g, Actor, a, d);
    var next := Step(a, d);
    PushedUnfold(g, a, d);
    if At(g, next).HasBox() {
      ActorStepTable(g, a, d);
      PushMovesOneBox(g, a, d);
      PushedUnfold(g, next, d);
      var beyond := Step(next, d);
      var g1 := Put(Put(g, next, None), beyond, Some(Box));
      assert Pushed(g, next, d) == g1;
      BoxLanding(g, a, d, g1);
    } else {
      assert At(g, next).IsEmpty();
    }
  }

  /** The actor's half of a push, once the box has moved on into the cell beyond. */
  lemma BoxLanding(g: Grid, a: Pos, d: Direction, g1: Grid)
    requires Rectangular(g) && InGrid(g, a) && At(g, a).occ == Some(Actor)
    requires var next, beyond := Step(a, d), Step(Step(a, d), d);
      && InGrid(g, next) && InGrid(g, beyond) && At(g, next).HasBox()
      && g1 == Put(Put(g, next, None), beyond, Some(Box))
    ensures var next, beyond := Step(a, d), Step(Step(a, d), d);
      var g' := Put(Put(g1, a, None), next, Some(Actor));
      && At(g', a) == Cell(None, At(g, a).target)
      && At(g', next) == Cell(Some(Actor), At(g, next).target)
      && At(g', beyond) == Cell(Some(Box), At(g, beyond).target)
      && forall q :: InGrid(g, q) && q != a && q != next && q != beyond ==> At(g', q) == At(g, q)
  {
    var next := Step(a, d);
    var beyond := Step(next, d);
    StepReverse(a, d);
    StepReverse(next, d);
    assert beyond != a by {
      match d
      case North =>
      case South =>
      case East =>
      case West =>
    }
  }

  /** Moving an occupant into an empty cell keeps every count but that of boxes on targets. */
  lemma TransferCounts(g: Grid, p: Pos, q: Pos, f: Feature)
    requires Rectangular(g) && InGrid(g, p) && InGrid(g, q) && p != q && At(g, q).IsEmpty()
    requires f != BoxesOnTarget
    ensures Count(Put(Put(g, p, None), q, At(g, p).occ), f) == Count(g, f)
  {
    CountPut(g, p, None, f);
    CountPut(Put(g, p, None), q, At(g, p).occ, f);
  }

  /** A move keeps the number of targets, of boxes and of actors. */
  lemma {:induction false} PushedCounts(g: Grid, p: Pos, d: Direction, f: Feature)
    requires Rectangular(g) && Framed(g) && InGrid(g, p) && CellCanMove(g, p, d)
    requires f != BoxesOnTarget
    ensures Count(Pushed(g, p, d), f) == Count(g, f)
    decreases Remaining(g, p, d)
  {
    PushedUnfold(g, p, d);
    RemainingStep(g, p, d);
    var next := Step(p, d);
    var g1 := g;
    if !At(g, next).IsEmpty() {
      PushedCounts(g, next, d, f);
      g1 := Pushed(g, next, d);
    }
    assert At(g1, p) == At(g, p) && At(g1, next).IsEmpty();
    TransferCounts(g1, p, next, f);
  }

  /**
   * A region the occupants can never leave: it lies away from the edge and every non-wall
   * neighbour of a cell in it is in it too.
   */
  ghost predicate Sealed(g: Grid, region: set<Pos>)
    requires Rectangular(g)
  {
    && (forall p :: p in region ==> Interior(g, p))
    && (forall p, d :: p in region && !WallAt(g, Step(p, d)) ==> Step(p, d) in region)
  }

  /** Every box and actor lies in a sealed region. */
  ghost predicate Confined(g: Grid, region: set<Pos>)
    requires Rectangular(g)
  {
    && Sealed(g, region)
    && forall p :: InGrid(g, p) && (At(g, p).HasBox() || At(g, p).HasActor()) ==> p in region
  }

  /** A confined grid satisfies what the pushing and searching code relies on. */
  lemma ConfinedFramed(g: Grid, region: set<Pos>)
    requires Rectangular(g) && Confined(g, region)
    ensures Framed(g)
  {
  }

  /** Sealing depends on the walls alone. */
  lemma SealedSameWalls(g: Grid, g': Grid, region: set<Pos>)
    requires Rectangular(g) && Rectangular(g') && Rows(g') == Rows(g) && Cols(g') == Cols(g)
    requires forall q :: InGrid(g, q) ==> (At(g', q).HasWall() <==> At(g, q).HasWall())
    requires Sealed(g, region)
    ensures Sealed(g', region)
  {
    assert forall q :: WallAt(g', q) == WallAt(g, q);
  }

  /** Moving an occupant into an empty cell of the region keeps the occupants confined. */
  lemma TransferConfined(g: Grid, p: Pos, q: Pos, region: set<Pos>)
    requires Rectangular(g) && InGrid(g, p) && InGrid(g, q) && p != q && Confined(g, region)
    requires q in region && At(g, q).IsEmpty() && !At(g, p).HasWall()
    ensures Confined(Put(Put(g, p, None), q, At(g, p).occ), region)
  {
    var g' := Put(Put(g, p, None), q, At(g, p).occ);
    SealedSameWalls(g, g', region);
    forall r | InGrid(g', r) && (At(g', r).HasBox() || At(g', r).HasActor())
      ensures r in region
    {
      if r != q {
        assert r != p && At(g', r) == At(g, r);
      }
    }
  }

  /** Moves keep the occupants inside their sealed region, because walls never move. */
  lemma {:induction false} PushedConfined(g: Grid, p: Pos, d: Direction, region: set<Pos>)
    requires Rectangular(g) && Framed(g) && Confined(g, region) && InGrid(g, p) && CellCanMove(g, p, d)
    ensures Confined(Pushed(g, p, d), region)
    decreases Remaining(g, p, d)
  {
    PushedUnfold(g, p, d);
    CanMoveStep(g, p, d);
    RemainingStep(g, p, d);
    var next := Step(p, d);
    assert p in region;
    assert next in region;
    var g1 := g;
    if !At(g, next).IsEmpty() {
      PushedConfined(g, next, d, region);
      g1 := Pushed(g, next, d);
    }
    assert At(g1, p) == At(g, p) && At(g1, next).IsEmpty();
    StepReverse(p, d);
    TransferConfined(g1, p, next, region);
  }
}
