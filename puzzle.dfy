/**
 * The puzzle itself (Sokoban.java): a grid of cells built from a screen, the actor's cell,
 * and the operations the user interface calls: reset, count, ask and move.
 */
module Puzzle {
  import opened Wrappers
  import opened Directions
  import opened Glyphs
  import opened Occupants
  import opened Grids
  import opened Search
  import opened Counting
  import opened Mobility
  import opened Screens

  /**
   * What `checkValid` asserts of a freshly built grid (as many boxes as targets, exactly one
   * actor), and the enclosure the moves rely on: the occupants lie in a region sealed by walls.
   */
  ghost predicate Playable(g: Grid)
    requires Rectangular(g)
  {
    && Count(g, Boxes) == Count(g, Targets)
    && Count(g, Actors) == 1
    && exists region :: Confined(g, region)
  }

  /** Two cells with the same fixtures: the same target flag and the same kind of wall-or-not. */
  predicate SameFixtures(a: Cell, b: Cell)
  {
    a.target == b.target && (a.HasWall() <==> b.HasWall())
  }

  /**
   * A grid in play: the start grid's walls and targets, as many boxes as targets, exactly one
   * actor, at `actor`, and every box and actor inside the sealed region.
   */
  ghost predicate Consistent(g: Grid, actor: Pos, start: Grid, region: set<Pos>)
  {
    && Rectangular(g) && Rectangular(start) && Rows(g) == Rows(start) && Cols(g) == Cols(start)
    && (forall p :: InGrid(g, p) ==> SameFixtures(At(g, p), At(start, p)))
    && Count(g, Boxes) == Count(g, Targets)
    && Count(g, Actors) == 1
    && InGrid(g, actor) && At(g, actor).HasActor()
    && Confined(g, region) && Framed(g)
  }

  /** A legal move of the actor keeps the grid in play, with the actor one step further on. */
  lemma MoveConsistent(g: Grid, actor: Pos, d: Direction, start: Grid, region: set<Pos>)
    requires Consistent(g, actor, start, region) && CellCanMove(g, actor, d)
    ensures Consistent(Pushed(g, actor, d), Step(actor, d), start, region)
  {
    var g' := Pushed(g, actor, d);
    forall p | InGrid(g', p)
      ensures SameFixtures(At(g', p), At(start, p))
    {
      assert InGrid(g, p) && SameFixtures(At(g, p), At(start, p));
    }
    PushedCounts(g, actor, d, Boxes);
    PushedCounts(g, actor, d, Targets);
    PushedCounts(g, actor, d, Actors);
    PushedConfined(g, actor, d, region);
    ConfinedFramed(g', region);
  }

  /**
   * A move of the only actor changes at most three cells: the actor's, the next one and the
   * one beyond it.
   */
  lemma MoveFrame(g: Grid, actor: Pos, d: Direction)
    requires Rectangular(g) && Framed(g) && InGrid(g, actor) && At(g, actor).HasActor()
    requires Count(g, Actors) == 1 && CellCanMove(g, actor, d)
    ensures var g', next := Pushed(g, actor, d), Step(actor, d);
      forall q :: InGrid(g, q) && q != actor && q != next && q != Step(next, d) ==> At(g', q) == At(g, q)
  {
    var next := Step(actor, d);
    assert At(g, actor).occ == Some(Actor);
    assert OccupantCanMove(g, Actor, actor, d);
    StepReverse(actor, d);
    if InGrid(g, next) && At(g, next).HasActor() {
      CountAtLeast(g, actor, next, Actors);
    }
    ActorMove(g, actor, d);
  }

  /**
   * A start grid as `checkValid` accepts it, of the given size: well marked, as many boxes as
   * targets, its one actor at `actor`, and its occupants inside the sealed region.
   */
  ghost predicate StartGrid(g: Grid, rows: nat, cols: nat, actor: Pos, region: set<Pos>)
  {
    && Rectangular(g) && Rows(g) == rows && Cols(g) == cols && rows > 0
    && (forall p :: InGrid(g, p) ==> WellMarked(At(g, p)))
    && Count(g, Boxes) == Count(g, Targets) && Count(g, Actors) == 1
    && InGrid(g, actor) && At(g, actor).HasActor()
    && Confined(g, region)
  }

  /** A playable grid read from a screen is a start grid, and a grid in play. */
  lemma ScreenStart(screen: string, g: Grid, actor: Pos, region: set<Pos>)
    requires ParseScreen(screen) == Success(g)
    requires Count(g, Boxes) == Count(g, Targets) && Count(g, Actors) == 1
    requires InGrid(g, actor) && At(g, actor).HasActor() && Confined(g, region)
    ensures StartGrid(g, |ScreenLines(screen)|, MaxLength(ScreenLines(screen)), actor, region)
    ensures Consistent(g, actor, g, region)
  {
    ConfinedFramed(g, region);
  }

  class Sokoban {
    const startScreen: string
    const numRows: nat
    const numCols: nat
    var cells: Grid
    var actorCell: Pos
    /** The grid as first built, the actor's cell in it and the region the occupants stay in. */
    ghost const start: Grid
    ghost const startActor: Pos
    ghost const region: set<Pos>

    /**
     * The class invariant: the start grid is the screen's and satisfies `checkValid`; the
     * current grid has the start grid's walls and targets, as many boxes as targets, exactly
     * one actor, at `actorCell`, and all its occupants in the sealed region.
     */
    ghost predicate Valid()
      reads this
    {
      && Started()
      && Rectangular(cells) && Rows(cells) == numRows && Cols(cells) == numCols
      && Consistent(cells, actorCell, start, region)
    }

    /**
     * The part of the invariant about the start grid, which never changes: it is the screen's,
     * satisfies `checkValid`, has its actor at `startActor` and its occupants in `region`.
     */
    ghost predicate Started()
    {
      StartGrid(start, numRows, numCols, startActor, region)
    }

    /**
     * The start grid is the one the start screen describes. Only the constructor and `clear`
     * read the screen; the fact never changes, since it is about constant fields alone.
     */
    ghost predicate Shown()
    {
      ParseScreen(startScreen) == Success(start)
    }

    /** A puzzle at its start grid, set up by `Create` once the screen has been checked. */
    constructor Init(screen: string, rows: nat, cols: nat, g: Grid, actor: Pos, ghost sealed: set<Pos>)
      requires StartGrid(g, rows, cols, actor, sealed) && Consistent(g, actor, g, sealed)
      ensures Valid()
      ensures startScreen == screen && numRows == rows && numCols == cols
      ensures cells == g && actorCell == actor
      ensures start == g && startActor == actor && region == sealed
    {
      startScreen := screen;
      numRows := rows;
      numCols := cols;
      cells := g;
      actorCell := actor;
      start := g;
      startActor := actor;
      region := sealed;
    }

    /**
     * The Scanner loop of the constructor and of `clear`: the screen's non-empty lines, and
     * the length of the longest one.
     */
    static method ReadLines(screen: string) returns (lines: seq<string>, width: nat)
      ensures lines == ScreenLines(screen) && width == MaxLength(lines)
    {
      var all := Lines(screen);
      lines, width := [], 0;
      for i := 0 to |all|
        invariant lines == NonEmpty(all[..i]) && width == MaxLength(lines)
      {
        var line := all[i];
        NonEmptySnoc(all, i);
        if |line| > 0 {
          MaxLengthSnoc(lines, line);
          lines := lines + [line];
          if |line| > width {
            width := |line|;
          }
        }
      }
      assert all[..|all|] == all;
    }

    /**
     * One row of the constructor's cell loop: a cell for every character of the padded line,
     * stopping at the first character that is not a glyph; `actorCol` is the last column
     * holding the actor.
     */
    static method BuildRow(line: string, width: nat) returns (r: Option<seq<Cell>>, actorCol: Option<nat>)
      requires |line| <= width
      ensures r.Some? <==> AllGlyphs(PadLine(line, width))
      ensures r.Some? ==> r.value == DecodeRow(PadLine(line, width))
      ensures r.Some? && actorCol.Some? ==> actorCol.value < width && r.value[actorCol.value].HasActor()
      ensures r.Some? && actorCol.None? ==> forall c :: 0 <= c < width ==> !r.value[c].HasActor()
    {
      ghost var padded := PadLine(line, width);
      var rowCells: seq<Cell> := [];
      actorCol := None;
      for col := 0 to width
        invariant |rowCells| == col
        invariant forall c :: 0 <= c < col ==> IsGlyph(padded[c]) && rowCells[c] == DecodeCell(padded[c]).value
        invariant actorCol.Some? ==> actorCol.value < col && rowCells[actorCol.value].HasActor()
        invariant actorCol.None? ==> forall c :: 0 <= c < col ==> !rowCells[c].HasActor()
      {
        var display := if col < |line| then line[col] else EmptyGlyph;
        assert display == padded[col];
        var decoded := DecodeCell(display);
        if decoded.Failure? {
          return None, actorCol;
        }
        rowCells := rowCells + [decoded.value];
        if IsActorGlyph(display) {
          actorCol := Some(col);
        }
      }
      assert rowCells == DecodeRow(padded);
      r := Some(rowCells);
    }

    /**
     * The constructor's cell loop over all rows: the grid the padded lines describe, or the
     * first failure; `actor` is the last cell holding the actor, if any.
     */
    static method BuildGrid(lines: seq<string>, width: nat) returns (r: Result<Grid, InstanceError>, actor: Option<Pos>)
      requires forall k :: 0 <= k < |lines| ==> |lines[k]| <= width
      ensures r == ParseLayout(PadAll(lines, width))
      ensures r.Success? && actor.Some? ==>
        0 <= actor.value.row < |r.value| && 0 <= actor.value.col < |r.value[actor.value.row]|
        && r.value[actor.value.row][actor.value.col].HasActor()
      ensures r.Success? && actor.None? ==>
        forall k, c :: 0 <= k < |r.value| && 0 <= c < |r.value[k]| ==> !r.value[k][c].HasActor()
    {
      ghost var rows := PadAll(lines, width);
      var grid: Grid := [];
      actor := None;
      for row := 0 to |lines|
        invariant |grid| == row
        invariant forall k :: 0 <= k < row ==> AllGlyphs(rows[k]) && grid[k] == DecodeRow(rows[k])
        invariant actor.Some? ==>
          0 <= actor.value.row < row && 0 <= actor.value.col < |grid[actor.value.row]|
          && grid[actor.value.row][actor.value.col].HasActor()
        invariant actor.None? ==> forall k, c :: 0 <= k < row && 0 <= c < |grid[k]| ==> !grid[k][c].HasActor()
      {
        var rowCells, actorCol := BuildRow(lines[row], width);
        if rowCells.None? {
          return Failure(InvalidDisplay), actor;
        }
        if actorCol.Some? {
          actor := Some(Pos(row, actorCol.value));
        }
        grid := grid + [rowCells.value];
      }
      ParseLayoutRows(rows, grid);
      r := Success(grid);
    }

    /**
     * `new Sokoban(screen)`: keeps the screen's non-empty lines, makes the grid as wide as the
     * longest, builds a cell for every character (a space past the end of a short line) and
     * remembers the actor's cell. A character that is not a glyph is the
     * IllegalArgumentException of `Occupant.getInstance`; the checks of `checkValid` are
     * required of the caller.
     */
    static method Create(screen: string) returns (r: Result<Sokoban, InstanceError>)
      requires ParseScreen(screen).Success? ==> Playable(ParseScreen(screen).value)
      ensures r.Failure? <==> ParseScreen(screen).Failure?
      ensures r.Failure? ==> r.error == InvalidDisplay
      ensures r.Success? ==>
        && fresh(r.value) && r.value.Valid() && r.value.Shown()
        && r.value.startScreen == screen
        && r.value.cells == ParseScreen(screen).value
        && r.value.numRows == |ScreenLines(screen)|
        && r.value.numCols == MaxLength(ScreenLines(screen))
    {
      var lines, numCols := ReadLines(screen);
      var numRows := |lines|;
      var grid, actor := BuildGrid(lines, numCols);
      assert grid == ParseScreen(screen);
      if grid.Failure? {
        return Failure(grid.error);
      }
      ghost var p := CountWitness(grid.value, Actors);
      assert At(grid.value, p) == grid.value[p.row][p.col];
      ghost var sealed :| Confined(grid.value, sealed);
      ScreenStart(screen, grid.value, actor.value, sealed);
      var puzzle := new Sokoban.Init(screen, numRows, numCols, grid.value, actor.value, sealed);
      return Success(puzzle);
    }

    /**
     * What `clear` relies on: every start cell shows the character of the padded screen line
     * and is well marked, and the start grid's only actor is at `startActor`.
     */
    lemma StartCells()
      requires Started() && Shown()
      ensures forall p :: InGrid(start, p) ==>
        && CellGlyph(At(start, p)) == PadLine(ScreenLines(startScreen)[p.row], numCols)[p.col]
        && WellMarked(At(start, p))
      ensures forall q :: InGrid(start, q) && At(start, q).HasActor() ==> q == startActor
    {
      forall q | InGrid(start, q) && At(start, q).HasActor()
        ensures q == startActor
      {
        CountAtLeast(start, q, startActor, Actors);
      }
    }

    /** The current grid has its only actor at `actorCell`. */
    lemma ActorUnique()
      requires Valid()
      ensures forall q :: InGrid(cells, q) && At(cells, q).HasActor() ==> q == actorCell
    {
      forall q | InGrid(cells, q) && At(cells, q).HasActor()
        ensures q == actorCell
      {
        CountAtLeast(cells, q, actorCell, Actors);
      }
    }

    /** `Cell.setDisplay`: the cell at `p` becomes the one the glyph describes. */
    method SetDisplay(p: Pos, display: char)
      requires Rectangular(cells) && InGrid(cells, p) && IsGlyph(display)
      modifies this
      ensures Rectangular(cells) && Rows(cells) == Rows(old(cells)) && Cols(cells) == Cols(old(cells))
      ensures At(cells, p) == DecodeCell(display).value
      ensures forall q :: InGrid(cells, q) && q != p ==> At(cells, q) == old(At(cells, q))
      ensures actorCell == old(actorCell)
    {
      cells := cells[p.row := cells[p.row][p.col := DecodeCell(display).value]];
    }

    /**
     * One row of `clear`'s loop: every cell of the row whose glyph differs from the start
     * screen's is reset, and the actor's cell follows the actor glyph.
     */
    method ClearRow(row: nat, line: string, ghost g0: Grid, ghost a0: Pos)
      requires Rectangular(start) && Rows(start) == numRows && Cols(start) == numCols
      requires InGrid(start, startActor) && At(start, startActor).HasActor()
      requires row < numRows && |line| <= numCols
      requires forall c :: 0 <= c < numCols ==>
        CellGlyph(At(start, Pos(row, c))) == PadLine(line, numCols)[c] && WellMarked(At(start, Pos(row, c)))
      requires forall q :: InGrid(start, q) && At(start, q).HasActor() ==> q == startActor
      requires Rectangular(g0) && Rows(g0) == numRows && Cols(g0) == numCols
      requires forall p :: InGrid(g0, p) ==> At(g0, p).target == At(start, p).target
      requires At(g0, startActor).HasActor() ==> a0 == startActor
      requires Rectangular(cells) && Rows(cells) == numRows && Cols(cells) == numCols
      requires forall p :: InGrid(cells, p) ==> At(cells, p) == if p.row < row then At(start, p) else At(g0, p)
      requires actorCell == if startActor.row < row then startActor else a0
      modifies this
      ensures Rectangular(cells) && Rows(cells) == numRows && Cols(cells) == numCols
      ensures forall p :: InGrid(cells, p) ==> At(cells, p) == if p.row <= row then At(start, p) else At(g0, p)
      ensures actorCell == if startActor.row <= row then startActor else a0
    {
      for col := 0 to numCols
        invariant Rectangular(cells) && Rows(cells) == numRows && Cols(cells) == numCols
        invariant forall p :: InGrid(cells, p) ==>
          At(cells, p) == if p.row < row || (p.row == row && p.col < col) then At(start, p) else At(g0, p)
        invariant actorCell ==
          if startActor.row < row || (startActor.row == row && startActor.col < col) then startActor else a0
      {
        var p := Pos(row, col);
        var display := if col < |line| then line[col] else EmptyGlyph;
        assert display == CellGlyph(At(start, p));
        ClearCell(p, display, a0);
      }
    }

    /**
     * The body of `clear`'s cell loop: a cell whose glyph differs from the start screen's
     * character takes that character, and the actor's cell moves with the actor glyph.
     */
    method ClearCell(p: Pos, display: char, ghost a0: Pos)
      requires Rectangular(start) && Rows(start) == numRows && Cols(start) == numCols && InGrid(start, p)
      requires display == CellGlyph(At(start, p)) && WellMarked(At(start, p))
      requires At(start, p).HasActor() <==> p == startActor
      requires Rectangular(cells) && Rows(cells) == numRows && Cols(cells) == numCols
      requires At(cells, p).target == At(start, p).target
      requires p == startActor && At(cells, p).HasActor() ==> actorCell == startActor
      modifies this
      ensures Rectangular(cells) && Rows(cells) == numRows && Cols(cells) == numCols
      ensures At(cells, p) == At(start, p)
      ensures forall q :: InGrid(cells, q) && q != p ==> At(cells, q) == old(At(cells, q))
      ensures actorCell == if p == startActor then startActor else old(actorCell)
    {
      if CellGlyph(cells[p.row][p.col]) != display {
        DecodeGlyph(At(start, p));
        SetDisplay(p, display);
        if IsActorGlyph(display) {
          actorCell := p;
        }
      } else {
        GlyphInjective(At(cells, p), At(start, p));
      }
    }

    /**
     * `clear`: re-reads the start screen and resets every cell whose glyph differs from it,
     * moving `actorCell` to the cell the screen shows the actor in; afterwards the grid is the
     * start grid again.
     */
    method Clear()
      requires Valid() && Shown()
      modifies this
      ensures Valid()
      ensures cells == start && actorCell == startActor
    {
      var lines, width := ReadLines(startScreen);
      ghost var g0, a0 := cells, actorCell;
      StartCells();
      ActorUnique();
      for row := 0 to numRows
        invariant Rectangular(cells) && Rows(cells) == numRows && Cols(cells) == numCols
        invariant forall p :: InGrid(cells, p) ==> At(cells, p) == if p.row < row then At(start, p) else At(g0, p)
        invariant actorCell == if startActor.row < row then startActor else a0
      {
        ClearRow(row, lines[row], g0, a0);
      }
      GridsEqual(cells, start);
      ConfinedFramed(start, region);
    }

    /**
     * The loops of `numTargets`, `numBoxes`, `numActors` and `numOnTarget`: the number of cells
     * with the feature. The invariant fixes two of the answers: one actor, as many boxes as
     * targets.
     */
    method Tally(f: Feature) returns (num: nat)
      requires Valid()
      ensures num == Count(cells, f)
      ensures f == Actors ==> num == 1
      ensures f == Boxes ==> num == Count(cells, Targets)
    {
      num := 0;
      for row := 0 to numRows
        invariant num == Count(cells[..row], f)
      {
        for col := 0 to numCols
          invariant num == Count(cells[..row], f) + CountRow(cells[row][..col], f)
        {
          assert cells[row][..col + 1][..col] == cells[row][..col];
          if Has(cells[row][col], f) {
            num := num + 1;
          }
        }
        assert cells[row][..numCols] == cells[row];
        assert cells[..row + 1][..row] == cells[..row];
      }
      assert cells[..numRows] == cells;
    }

    /**
     * `onTarget`: as many boxes on targets as targets. Since there are as many boxes as
     * targets, that is every target holding a box, and every box standing on a target.
     */
    method OnTarget() returns (solved: bool)
      requires Valid()
      ensures solved == Solved(cells)
      ensures solved <==> forall p :: InGrid(cells, p) && At(cells, p).target ==> At(cells, p).HasBox()
      ensures solved <==> forall p :: InGrid(cells, p) && At(cells, p).HasBox() ==> At(cells, p).target
    {
      var onTarget := Tally(BoxesOnTarget);
      var targets := Tally(Targets);
      solved := onTarget == targets;
      SolvedIffTargetsFilled(cells);
      SolvedIffBoxesPlaced(cells);
    }

    /** `canMove(dir)`: whether the actor's cell can move that way. */
    predicate CanMove(dir: Direction)
      reads this
      requires Valid()
    {
      CellCanMove(cells, actorCell, dir)
    }

    /** A legal step of the actor leads onto the grid and never into a wall. */
    lemma CanMoveInto(dir: Direction)
      requires Valid() && CanMove(dir)
      ensures InGrid(cells, Step(actorCell, dir)) && !At(cells, Step(actorCell, dir)).HasWall()
    {
      assert At(cells, actorCell).occ == Some(Actor);
      assert OccupantCanMove(cells, Actor, actorCell, dir);
      ActorStepTable(cells, actorCell, dir);
    }

    /** `canMove()`: the directions the actor can move in, in the order of `Direction.values()`. */
    method LegalMoves() returns (dirs: seq<Direction>)
      requires Valid()
      ensures forall d :: d in dirs <==> CanMove(d)
      ensures forall i, j :: 0 <= i < j < |dirs| ==> Ordinal(dirs[i]) < Ordinal(dirs[j])
    {
      dirs := [];
      for i := 0 to |AllDirections|
        invariant forall d :: d in dirs <==> CanMove(d) && Ordinal(d) < i
        invariant forall k :: 0 <= k < |dirs| ==> Ordinal(dirs[k]) < i
        invariant forall a, b :: 0 <= a < b < |dirs| ==> Ordinal(dirs[a]) < Ordinal(dirs[b])
      {
        var dir := AllDirections[i];
        assert Ordinal(dir) == i;
        if CanMove(dir) {
          dirs := dirs + [dir];
        }
      }
    }

    /** `Cell.setOccupant`: the cell at `p` takes the occupant and keeps its target flag. */
    method SetOccupant(p: Pos, occ: Option<Occupant>)
      requires Rectangular(cells) && InGrid(cells, p)
      modifies this
      ensures cells == Put(old(cells), p, occ) && actorCell == old(actorCell)
    {
      cells := Put(cells, p, occ);
    }

    /**
     * `Occupant.move` (through `Cell.move`): whatever occupies the next cell moves on first,
     * then this cell is emptied and its occupant set in the next one. The grid becomes the
     * push `Pushed` describes.
     */
    method MoveFrom(p: Pos, dir: Direction)
      requires Rectangular(cells) && Framed(cells) && InGrid(cells, p) && CellCanMove(cells, p, dir)
      modifies this
      ensures cells == Pushed(old(cells), p, dir) && actorCell == old(actorCell)
      decreases Remaining(cells, p, dir)
    {
      PushedUnfold(cells, p, dir);
      var next := Step(p, dir);
      var occ := cells[p.row][p.col].occ;
      if !cells[next.row][next.col].IsEmpty() {
        RemainingStep(cells, p, dir);
        MoveFrom(next, dir);
      }
      SetOccupant(p, None);
      SetOccupant(next, occ);
    }

    /**
     * `move(dir)`: when the actor can move, its cell moves (pushing what is ahead) and
     * `actorCell` follows it; otherwise nothing changes and the result is false (the source
     * throws IllegalArgumentException). The class invariant is kept, so the check that the new
     * actor cell holds the actor never fails.
     */
    method Move(dir: Direction) returns (ok: bool)
      requires Valid()
      modifies this
      ensures Valid()
      ensures ok == old(CanMove(dir))
      ensures !ok ==> cells == old(cells) && actorCell == old(actorCell)
      ensures ok ==> cells == Pushed(old(cells), old(actorCell), dir) && actorCell == Step(old(actorCell), dir)
      ensures ok ==> forall q :: InGrid(cells, q) && q != old(actorCell) && q != actorCell && q != Step(actorCell, dir) ==>
        At(cells, q) == old(At(cells, q))
    {
      if !CanMove(dir) {
        return false;
      }
      MoveConsistent(cells, actorCell, dir, start, region);
      MoveFrame(cells, actorCell, dir);
      MoveFrom(actorCell, dir);
      actorCell := Step(actorCell, dir);
      assert At(cells, actorCell).HasActor();
      ok := true;
    }

    /** The current cells are well marked: they have the start grid's walls and targets. */
    lemma CellsWellMarked()
      requires Valid()
      ensures forall p :: InGrid(cells, p) ==> WellMarked(At(cells, p))
    {
    }

    /**
     * The text of the start grid, one line per row, is the start screen's layout: its non-empty
     * lines padded with spaces to the longest. This is what `toString` gives after `clear`.
     */
    lemma StartText()
      requires Started() && Shown()
      ensures Lines(Render(start)) == Layout(startScreen)
    {
      RenderParsed(startScreen, start);
    }

    /**
     * `toString`: every row's glyphs followed by a newline; reading the text back as a screen
     * gives the current grid.
     */
    method ToString() returns (s: string)
      requires Valid()
      ensures s == Render(cells)
      ensures ParseScreen(s) == Success(cells)
    {
      s := "";
      for row := 0 to numRows
        invariant s == Render(cells[..row])
      {
        for col := 0 to numCols
          invariant s == Render(cells[..row]) + RowText(cells[row][..col])
        {
          assert RowText(cells[row][..col + 1]) == RowText(cells[row][..col]) + [CellGlyph(cells[row][col])];
          s := s + [CellGlyph(cells[row][col])];
        }
        assert cells[row][..numCols] == cells[row];
        assert cells[..row + 1][..row] == cells[..row];
        s := s + "\n";
      }
      assert cells[..numRows] == cells;
      CellsWellMarked();
      ParseRender(cells);
    }
  }
}
