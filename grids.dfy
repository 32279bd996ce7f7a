/**
 * The grid and the purely local behaviour of a cell (Cell.java, and `Sokoban.getCell`):
 * glyph decoding and display, neighbour lookup, wall counting and the wall-safety rule.
 * A cell is identified by its position, as `Cell.equals` compares row and column only.
 */
module Grids {
  import opened Wrappers
  import opened Directions
  import opened Glyphs
  import opened Occupants

  /** What a cell holds: at most one occupant (`None` is Java's `null`), and the target flag. */
  datatype Cell = Cell(occ: Option<Occupant>, target: bool) {

    /** `isEmpty` */
    predicate IsEmpty() { occ.None? }

    /** `hasActor` */
    predicate HasActor() { occ.Some? && occ.value.IsActor() }

    /** `hasBox` */
    predicate HasBox() { occ.Some? && occ.value.IsBox() }

    /** `hasWall` */
    predicate HasWall() { occ.Some? && occ.value.IsWall() }
  }

  /** A cell's row and column, numbered from 0. */
  datatype Pos = Pos(row: int, col: int)

  /** The puzzle's cells, row by row. */
  type Grid = seq<seq<Cell>>

  function Rows(g: Grid): nat { |g| }

  function Cols(g: Grid): nat { if |g| == 0 then 0 else |g[0]| }

  /** Every row has the same length. */
  ghost predicate Rectangular(g: Grid)
  {
    forall r :: 0 <= r < |g| ==> |g[r]| == Cols(g)
  }

  predicate InGrid(g: Grid, p: Pos)
  {
    0 <= p.row < Rows(g) && 0 <= p.col < Cols(g)
  }

  function At(g: Grid, p: Pos): Cell
    requires Rectangular(g) && InGrid(g, p)
  {
    g[p.row][p.col]
  }

  /** `Sokoban.getCell(row, col)`: the cell there, or `None` when the position is off the grid. */
  function GetCell(g: Grid, row: int, col: int): (r: Option<Cell>)
    requires Rectangular(g)
    ensures r.Some? <==> InGrid(g, Pos(row, col))
    ensures r.Some? ==> r.value == At(g, Pos(row, col))
  {
    if row < 0 || row >= Rows(g) || col < 0 || col >= Cols(g) then None
    else Some(g[row][col])
  }

  /** The position one step away in a direction: north is the row above, east the column to the right. */
  function Step(p: Pos, d: Direction): Pos
  {
    match d
    case North => Pos(p.row - 1, p.col)
    case South => Pos(p.row + 1, p.col)
    case East => Pos(p.row, p.col + 1)
    case West => Pos(p.row, p.col - 1)
  }

  /** A step is undone by a step in the reverse direction, and never stays in place. */
  lemma StepReverse(p: Pos, d: Direction)
    ensures Step(Step(p, d), Reverse(d)) == p
    ensures Step(p, d) != p
  {
  }

  /** `Cell.getCell(dir)`: the orthogonal neighbour, or `None` off the grid. */
  function Neighbour(g: Grid, p: Pos, d: Direction): (r: Option<Cell>)
    requires Rectangular(g)
    ensures r.Some? <==> InGrid(g, Step(p, d))
    ensures r.Some? ==> r.value == At(g, Step(p, d))
  {
    GetCell(g, Step(p, d).row, Step(p, d).col)
  }

  /** A neighbour that exists and holds a wall (`(next != null) && next.hasWall()`). */
  predicate WallAt(g: Grid, q: Pos)
    requires Rectangular(g)
  {
    InGrid(g, q) && At(g, q).HasWall()
  }

  /** The directions, among `ds`, in which the neighbour of `p` is a wall. */
  function WallsAmong(g: Grid, p: Pos, ds: seq<Direction>): set<Direction>
    requires Rectangular(g)
  {
    set d | d in ds && WallAt(g, Step(p, d))
  }

  /** The directions in which the neighbour of `p` is a wall. */
  function WallDirections(g: Grid, p: Pos): set<Direction>
    requires Rectangular(g)
  {
    WallsAmong(g, p, AllDirections)
  }

  /** Indicator of a wall in one direction. */
  function WallBit(g: Grid, p: Pos, d: Direction): nat
    requires Rectangular(g)
  {
    if WallAt(g, Step(p, d)) then 1 else 0
  }

  /** Adding a direction not yet considered adds its indicator to the wall count. */
  lemma WallsAmongSnoc(g: Grid, p: Pos, ds: seq<Direction>, d: Direction)
    requires Rectangular(g) && d !in ds
    ensures |WallsAmong(g, p, ds + [d])| == |WallsAmong(g, p, ds)| + WallBit(g, p, d)
  {
    if WallAt(g, Step(p, d)) {
      assert WallsAmong(g, p, ds + [d]) == WallsAmong(g, p, ds) + {d};
    } else {
      assert WallsAmong(g, p, ds + [d]) == WallsAmong(g, p, ds);
    }
  }

  /** The number of adjacent walls is the sum of the four indicators, so it lies in 0..4. */
  lemma WallDirectionsCount(g: Grid, p: Pos)
    requires Rectangular(g)
    ensures |WallDirections(g, p)|
         == WallBit(g, p, North) + WallBit(g, p, South) + WallBit(g, p, East) + WallBit(g, p, West)
    ensures |WallDirections(g, p)| <= 4
  {
    assert WallsAmong(g, p, []) == {};
    WallsAmongSnoc(g, p, [], North);
    assert [] + [North] == [North];
    WallsAmongSnoc(g, p, [North], South);
    assert [North] + [South] == [North, South];
    WallsAmongSnoc(g, p, [North, South], East);
    assert [North, South] + [East] == [North, South, East];
    WallsAmongSnoc(g, p, [North, South, East], West);
    assert [North, South, East] + [West] == AllDirections;
  }

  /**
   * `Cell.numAdjacentWalls`: counts, over `Direction.values()`, the neighbours that exist and
   * hold a wall.
   */
  method NumAdjacentWalls(g: Grid, p: Pos) returns (num: nat)
    requires Rectangular(g)
    ensures num == |WallDirections(g, p)| && num <= 4
  {
    num := 0;
    for i := 0 to |AllDirections|
      invariant num == |WallsAmong(g, p, AllDirections[..i])|
    {
      var dir := AllDirections[i];
      var next := Neighbour(g, p, dir);
      assert AllDirections[..i + 1] == AllDirections[..i] + [dir];
      WallsAmongSnoc(g, p, AllDirections[..i], dir);
      if next.Some? && next.value.HasWall() {
        num := num + 1;
      }
    }
    assert AllDirections[..4] == AllDirections;
    WallDirectionsCount(g, p);
  }

  /**
   * `Cell.isWallSafe`: could a box pushed into this cell still be pushed out, as far as the
   * walls around it are concerned?
   */
  predicate IsWallSafe(g: Grid, p: Pos)
    requires Rectangular(g) && InGrid(g, p)
  {
    if At(g, p).HasWall() then false
    else if At(g, p).target then true
    else if |WallDirections(g, p)| >= 3 then false
    else if |WallDirections(g, p)| == 2 then
      (WallAt(g, Step(p, North)) && WallAt(g, Step(p, South)))
      || (WallAt(g, Step(p, East)) && WallAt(g, Step(p, West)))
    else true
  }

  /**
   * The wall-safety table in one statement: a cell is wall-safe iff it holds no wall and it is a
   * target or it has no corner, that is no wall on both the north-south and the east-west axis.
   * So a corridor (walls N+S or E+W only) is safe, a corner and any three walls are not.
   */
  lemma WallSafeIffNoCorner(g: Grid, p: Pos)
    requires Rectangular(g) && InGrid(g, p)
    ensures IsWallSafe(g, p) <==>
      !At(g, p).HasWall()
      && (At(g, p).target
          || !((WallAt(g, Step(p, North)) || WallAt(g, Step(p, South)))
               && (WallAt(g, Step(p, East)) || WallAt(g, Step(p, West)))))
  {
    WallDirectionsCount(g, p);
  }

  /** `Cell.toString` / `getDisplay`: ' ' or '.' for an empty cell, otherwise the occupant's glyph. */
  function CellGlyph(c: Cell): (ch: char)
    ensures IsGlyph(ch)
    ensures c.IsEmpty() ==> (ch == EmptyGlyph <==> !c.target) && (ch == TargetGlyph <==> c.target)
    ensures c.occ.Some? ==> ch == Display(c.occ.value, c.target)
    ensures IsActorGlyph(ch) <==> c.HasActor()
  {
    if c.IsEmpty() && !c.target then EmptyGlyph
    else if c.IsEmpty() && c.target then TargetGlyph
    else Display(c.occ.value, c.target)
  }

  /** A cell the layout can describe: a wall is never on a target, since '#' has no target form. */
  predicate WellMarked(c: Cell)
  {
    !(c.HasWall() && c.target)
  }

  /**
   * The `Cell` constructor and `setDisplay`: the target flag is set iff the glyph is '.', '*' or
   * '+', the cell is empty iff the glyph is ' ' or '.', and otherwise `getInstance` builds
   * the occupant, failing on any other glyph.
   */
  function DecodeCell(display: char): (r: Result<Cell, InstanceError>)
    ensures r.Success? <==> IsGlyph(display)
    ensures r.Failure? ==> r.error == InvalidDisplay
    ensures r.Success? ==> r.value.target == IsTargetGlyph(display)
    ensures r.Success? ==> (r.value.IsEmpty() <==> display == EmptyGlyph || display == TargetGlyph)
    ensures r.Success? ==> CellGlyph(r.value) == display && WellMarked(r.value)
  {
    var target := display == TargetGlyph || display == TargetBoxGlyph || display == TargetActorGlyph;
    if display == EmptyGlyph || display == TargetGlyph then Success(Cell(None, target))
    else match GetInstance(display, target)
      case Failure(e) => Failure(e)
      case Success(o) => Success(Cell(Some(o), target))
  }

  /** Display and decoding are inverse: every cell the layout can describe is recovered from its glyph. */
  lemma DecodeGlyph(c: Cell)
    requires WellMarked(c)
    ensures DecodeCell(CellGlyph(c)) == Success(c)
  {
  }

  /** The glyph and the target flag determine the cell. */
  lemma GlyphInjective(a: Cell, b: Cell)
    requires CellGlyph(a) == CellGlyph(b) && a.target == b.target
    ensures a == b
  {
    if a.occ.Some? {
      ExactlyOneKind(a.occ.value);
    }
  }

  /** `Cell.onTarget`: a box on a target cell. */
  predicate CellOnTarget(c: Cell)
  {
    if c.IsEmpty() then false else OnTarget(c.occ.value, c.target)
  }

  /** Two rectangular grids of the same size that agree at every position are equal. */
  lemma GridsEqual(a: Grid, b: Grid)
    requires Rectangular(a) && Rectangular(b) && Rows(a) == Rows(b) && Cols(a) == Cols(b)
    requires forall p :: InGrid(a, p) ==> At(a, p) == At(b, p)
    ensures a == b
  {
    forall r | 0 <= r < Rows(a)
      ensures a[r] == b[r]
    {
      forall c | 0 <= c < Cols(a)
        ensures a[r][c] == b[r][c]
      {
        assert At(a, Pos(r, c)) == At(b, Pos(r, c));
      }
    }
  }

  /** Set the occupant of one cell, keeping its target flag (`Cell.setOccupant`). */
  function Put(g: Grid, p: Pos, occ: Option<Occupant>): (g': Grid)
    requires Rectangular(g) && InGrid(g, p)
    ensures Rectangular(g') && Rows(g') == Rows(g) && Cols(g') == Cols(g)
    ensures At(g', p) == Cell(occ, At(g, p).target)
    ensures forall q :: InGrid(g, q) && q != p ==> At(g', q) == At(g, q)
  {
    g[p.row := g[p.row][p.col := Cell(occ, g[p.row][p.col].target)]]
  }
}
