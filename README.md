# Sokoban: grid model and move legality

This project models the core of a Java Sokoban puzzle and proves properties of the model.
The core is the grid of cells, the occupants (wall, box, actor), the rules that decide whether
the actor may step or push in a direction, the move itself, and the `Sokoban` class, which
builds the grid from a text screen, counts, resets and moves.

- `wrappers.dfy`: `Option` and `Result`.
- `directions.dfy` (Direction.java): the four directions, their rotations and `fromString`.
- `glyphs.dfy` (the constants of Sokoban.java): the seven display characters and `validDisplay`.
- `occupants.dfy` (Occupant.java, Wall.java, Box.java, Actor.java): the occupant variants, their
  display glyphs and the `getInstance` factory.
- `grids.dfy` (Cell.java): a cell is a value `Cell(occ, target)`, and a grid is a rectangular
  sequence of rows of cells, addressed by `Pos(row, col)`. This file has the neighbour lookup,
  the wall count, `isWallSafe`, glyph decoding and encoding, and `setOccupant` as `Put`.
- `search.dfy` (the three `isMoveableBoxLocation` overloads): the depth-first search.
  - The spec function `Explore` threads the visited set through it.
  - The method `SearchFrom` runs it statement by statement and is proved equal to `Explore`.
  - It terminates because the number of unvisited grid positions drops on every call.
- `mobility.dfy`:
  - `Box.isStuckSafe`, both as a function and as the flag-setting method;
  - the `canMove` family (cell, occupant, box, actor);
  - the push `Pushed` that `Occupant.move` performs;
  - what a move preserves: walls, targets, counts and the sealed region.
- `counting.dfy`: the cell counts behind `numTargets`, `numBoxes`, `numActors` and
  `numOnTarget`, and what `onTarget` means.
- `screens.dfy`: how a screen is read and written.
  - Reading: lines are split as `Scanner.nextLine` does, empty ones are skipped and short ones
    are padded with spaces to the longest.
  - Writing: `toString` puts out every row's glyphs and a newline.
  - Reading back a written grid gives the same grid.
- `puzzle.dfy` (Sokoban.java): class `Sokoban`.
  - Its fields: the start screen, the dimensions, the grid `cells` (reassigned by its methods)
    and `actorCell`.
  - Its class invariant `Valid` is what `checkValid` asserts (as many boxes as targets, one
    actor, `actorCell` holding it), plus the facts the moves need.

The Java code dereferences neighbours without null checks: `Box.isStuckSafe` looks at the
three cells around the cell a box is pushed into, and the search passes an off-grid neighbour
to `TreeSet.contains`. The model therefore works on grids that are `Framed`:
- every box is away from the edge;
- so is every non-wall neighbour of a box.

`Sokoban` keeps this as part of its invariant through a ghost `region`: a set of positions
away from the edge, closed under steps that do not enter a wall, and holding every box and the
actor. Walls never move, so the region stays sealed after every move (`PushedConfined`). Every
puzzle surrounded by walls has such a region.

## Model

| member | source | states |
|---|---|---|
| Directions.Ordinal | Direction.java:10-11 | the position of each direction in `values()` order North, South, East, West |
| Directions.AllDirectionsComplete | Direction.java:10-11 | `values()` lists every direction exactly once |
| Directions.Left | Direction.java:18-29 | the left turn of a direction is a different direction |
| Directions.Right | Direction.java:36-47 | the right turn differs from the direction, is undone by a left turn, and equals three left turns |
| Directions.Reverse | Direction.java:54-65 | the reverse differs from the direction and is two quarter turns either way |
| Directions.LeftRightInverse | Direction.java:18-47 | `left(right(d)) == d` and `right(left(d)) == d` |
| Directions.LeftFourTimes | Direction.java:18-65 | four left turns are the identity; two are the reverse |
| Directions.ReverseInvolution | Direction.java:54-65 | `reverse(reverse(d)) == d` and `reverse(d) != d` |
| Directions.Perpendicular | Direction.java:18-65 | left and right differ from `d`, from `reverse(d)` and from each other |
| Directions.Name | Direction.java:10 | the name of each constant, as the enum's `toString` gives it; `FromString` inverts it (FromStringExact) |
| Directions.FromString | Direction.java:67-80 | a direction returned is the one whose name is the string |
| Directions.FromStringExact | Direction.java:67-80 | the result is `None` (null) iff the string is none of the four names; `fromString(name(d)) == d` for every `d` |
| Occupants.ExactlyOneKind | Occupant.java:27-47 | each variant answers true to exactly one of `isActor`, `isBox`, `isWall` (the overrides at Wall.java:25-27, Box.java:26-28, Actor.java:26-28) |
| Occupants.Display | Box.java:36-38 | the glyph is a valid display; '#' exactly for a wall; '$' or '*' exactly for a box; '@' or '+' exactly for the actor; a box or actor shows a target glyph exactly on a target (also Actor.java:36-38, Wall.java:35-37) |
| Occupants.OccupantString | Occupant.java:120-122 | the string form is the single display glyph |
| Occupants.OnTarget | Occupant.java:110-112 | `false` by default, the cell's target flag for a box (Box.java:46-48); OnTargetOnlyBoxes states it as an iff |
| Occupants.OnTargetOnlyBoxes | Box.java:46-48 | an occupant is on target iff it is a box on a target cell; the default at Occupant.java:110-112 is false |
| Glyphs.ValidDisplay | Sokoban.java:278-281 | exactly the wall, box, box-on-target, actor and actor-on-target glyphs; `GetInstance` fails iff it is false |
| Occupants.GetInstance | Occupant.java:131-144 | rejects exactly the glyphs that are not `validDisplay`; on a target cell rejects exactly the valid glyphs other than '*' and '+'; when the cell's target flag matches the glyph, the built occupant shows it |
| Occupants.GetInstanceTable | Occupant.java:138-143 | '#' gives a wall, '$' and '*' a box, '@' and '+' the actor; on a target cell only '*' and '+' succeed, and never with a wall |
| Grids.GetCell | Sokoban.java:128-132 | a cell is returned iff the position is on the grid, and it is the cell there |
| Grids.Neighbour | Cell.java:169-178 | the neighbour exists iff the step in the direction stays on the grid, and is the cell there |
| Grids.StepReverse | Cell.java:169-178 | a step is undone by a step in the reverse direction and never stays in place |
| Grids.WallDirectionsCount | Cell.java:185-193 | the number of adjacent walls is the sum of the four per-direction indicators, hence at most 4 |
| Grids.NumAdjacentWalls | Cell.java:185-193 | the loop's count equals the number of directions whose neighbour exists and holds a wall, and is at most 4 |
| Grids.IsWallSafe | Cell.java:201-221 | the decision order of `isWallSafe` (wall, target, three walls, two opposite walls); WallSafeIffNoCorner gives the independent characterization |
| Grids.WallSafeIffNoCorner | Cell.java:201-221 | wall-safe iff no wall in the cell and either a target or no wall on both the north-south and the east-west axis |
| Grids.CellGlyph | Cell.java:352-359 | ' ' for an empty non-target, '.' for an empty target, else the occupant's glyph; the glyph is an actor glyph iff the cell holds the actor |
| Grids.CellOnTarget | Cell.java:342-344 | an empty cell is not on target, an occupied one answers as its occupant; OnTargetFeatures: iff a box on a target |
| Grids.DecodeCell | Cell.java:21-33 | `new Cell` and `setDisplay`: succeeds iff the character is one of the seven glyphs; target iff '.', '*' or '+'; empty iff ' ' or '.'; the result shows the glyph it came from |
| Grids.DecodeGlyph | Cell.java:92-95 | `setDisplay(getDisplay())` restores every cell that is not a wall on a target |
| Grids.GlyphInjective | Cell.java:103-105 | the glyph and the target flag determine the cell |
| Grids.Put | Cell.java:112-116 | `setOccupant` changes the occupant of one cell, keeps its target flag and leaves every other cell alone |
| Search.Explore | Cell.java:286-314 | a visited cell answers false and leaves the set alone; otherwise the cell is added; the set only grows and stays within the grid; success needs both sideways neighbours unvisited and free or boxed |
| Search.Leg | Cell.java:300-311 | one neighbour's test only grows the visited set; success needs the neighbour on the grid, unvisited, and free or boxed |
| Search.SearchFrom | Cell.java:286-314 | the imperative search returns exactly the answer and visited set of `Explore` |
| Search.TrySide | Cell.java:300-311 | the imperative neighbour test returns exactly what `Leg` does |
| Search.ExploreWithoutBoxes | Cell.java:295-311 | with no box beside the cell: success iff the cell and both neighbours are unvisited, both neighbours are free and at least one is wall-safe |
| Search.ExploreThroughBox | Cell.java:302-311 | a boxed neighbour that can itself be moved aside does not block the search |
| Search.IsMoveableBoxLocation | Cell.java:243-248 | a search from an empty visited set; success needs both sideways neighbours available |
| Search.IsMoveableBoxLocationAvoiding | Cell.java:262-272 | rejects exactly `taboo == this`; otherwise it is the search seeded with the taboo cell, and success needs both neighbours available and not the taboo cell |
| Search.SearchMoveable | Cell.java:243-248 | the method equals the two-argument overload |
| Search.SearchMoveableAvoiding | Cell.java:262-272 | the method equals the taboo overload, rejection included |
| Mobility.FramedBox | Box.java:67-71 | on a framed grid the cells `isStuckSafe` dereferences exist |
| Mobility.StuckSafe | Box.java:57-82 | an answer exists iff the next cell exists, is empty and is wall-safe; a target next cell is safe |
| Mobility.StuckSafeTable | Box.java:65-81 | a target is safe; otherwise safe iff no box is ahead, left or right of the next cell, or one of the three overrides holds |
| Mobility.TestOverride | Box.java:73-79 | the short-circuit test equals the override: a box there, and either search succeeds |
| Mobility.IsStuckSafe | Box.java:57-82 | the three sequential flag updates compute exactly `StuckSafe` |
| Mobility.OccupantStuckSafe | Occupant.java:74-76 | a wall or an actor is never stuck-safe |
| Mobility.CellStuckSafe | Cell.java:229-231 | an empty cell is not stuck-safe; a boxed cell answers as its box |
| Mobility.WallInert | Occupant.java:85-87 | a wall never moves, is never stuck-safe and is never on target |
| Mobility.CellCanMove | Cell.java:322-324 | an empty cell cannot move, an occupied one answers as its occupant |
| Mobility.OccupantCanMove | Occupant.java:85-87 | a wall never moves; a box and an actor answer by their own rule (WallInert) |
| Mobility.BoxCanMove | Box.java:91-94 | the next cell exists, is empty, is wall-safe and the push is stuck-safe; PushMovesOneBox restates it through the cells |
| Mobility.ActorCanMove | Actor.java:47-50 | the next cell exists and is empty or can itself move; ActorStepTable unfolds it |
| Mobility.ActorStepTable | Actor.java:47-50 | the actor may step iff the next cell exists and is empty, holds a box that can move, or holds an actor that can step; never into a wall |
| Mobility.PushMovesOneBox | Box.java:91-94 | a box the actor steps into can move, and the cell beyond exists, is empty and is wall-safe |
| Mobility.CanMoveStep | Cell.java:322-324 | a cell that can move holds a box or the actor, its next cell exists and holds no wall, and an occupied next cell can move on |
| Mobility.Pushed | Occupant.java:94-102 | after the move this cell is empty and the next holds its occupant; walls and targets are untouched; cells off the ray ahead are unchanged |
| Mobility.PushedUnfold | Occupant.java:97-101 | the occupant of the next cell is moved on first, then this cell is emptied and the next one filled |
| Mobility.ActorMove | Sokoban.java:237-254 | after the actor's move only three cells change: the old actor cell empties, the next holds the actor, and after a push the cell beyond holds the box |
| Mobility.PushedCounts | Occupant.java:97-101 | a move keeps the numbers of targets, boxes and actors |
| Mobility.ConfinedFramed | Box.java:67-71 | occupants inside a sealed region give a framed grid |
| Mobility.PushedConfined | Occupant.java:94-102 | a move keeps every box and the actor inside the sealed region |
| Counting.CountRow | Sokoban.java:151-153 | the cells of one row with the feature, counted from the left; CountRowUpdate and CountRowAtLeast state what it counts |
| Counting.Count | Sokoban.java:148-197 | the cells of the grid with the feature, the loops of `numTargets`, `numBoxes`, `numActors` and `numOnTarget`; CountPut, CountWitness and UniqueCount state what it counts |
| Counting.Solved | Sokoban.java:204-206 | `numOnTarget() == numTargets()`; SolvedIffTargetsFilled and SolvedIffBoxesPlaced give the two meanings |
| Counting.OnTargetFeatures | Cell.java:342-344 | a cell is on target iff it holds a box and is a target |
| Counting.CountPut | Cell.java:112-116 | changing one occupant changes each count by the difference of the two cells |
| Counting.CountAtLeast | Sokoban.java:176-183 | two different cells with a feature make its count at least 2 |
| Counting.CountWitness | Sokoban.java:176-183 | a positive count has a cell with the feature |
| Counting.UniqueCount | Sokoban.java:176-183 | a count of one is a single cell with the feature |
| Counting.CountMono | Sokoban.java:190-197 | a feature implying another counts no more, with equality iff every cell with the second has the first |
| Counting.SolvedIffTargetsFilled | Sokoban.java:204-206 | `onTarget` holds iff every target holds a box |
| Counting.SolvedIffBoxesPlaced | Sokoban.java:204-206 | with as many boxes as targets, `onTarget` holds iff every box is on a target |
| Screens.LineLength | Sokoban.java:35-37 | `nextLine` ends at the first terminator, and the line holds none |
| Screens.Lines | Sokoban.java:35-37 | the lines hold no terminator; LinesSplit and LinesLast fix them as the pieces between terminators |
| Screens.LineLengthSplit | Sokoban.java:35-37 | a line ends at the first terminator after it |
| Screens.LinesSplit | Sokoban.java:35-37 | the text before the first terminator is the first line, and the rest are the lines after it |
| Screens.LinesLast | Sokoban.java:35-37 | a last piece without a terminator is one last line |
| Screens.NonEmpty | Sokoban.java:37-38 | every kept line is non-empty and from the input, and there are no more kept lines than input lines |
| Screens.NonEmptyComplete | Sokoban.java:37-38 | every non-empty input line is kept |
| Screens.NonEmptyAppend | Sokoban.java:37-38 | lines are kept one by one, in order: the kept lines of two pieces are those of the first followed by those of the second |
| Screens.NonEmptyOne | Sokoban.java:37-38 | one line is kept iff it is not empty |
| Screens.MaxLength | Sokoban.java:40-42 | `numCols` bounds every line and is the length of one of them (0 for none) |
| Screens.PadLine | Sokoban.java:52 | the padded line keeps the line and fills the rest with spaces |
| Screens.ParseLayout | Sokoban.java:48-57 | succeeds iff every character is a glyph, failing as `getInstance` does; each row is decoded cell by cell |
| Screens.ParsedLayout | Sokoban.java:48-57 | a parsed layout of equally long lines is a rectangle of that width whose cells show the layout's characters |
| Screens.ParseScreen | Sokoban.java:32-57 | success iff every character of the padded layout is a glyph; the grid is rectangular, has one row per non-empty line and is as wide as the longest; each cell shows its layout character |
| Screens.Render | Sokoban.java:262-270 | each row's glyphs followed by a newline, top to bottom; LinesOfRender and ParseRender say what it writes |
| Screens.LinesOfRender | Sokoban.java:262-270 | the lines of `toString` are exactly the rows' glyphs |
| Screens.RenderParsed | Sokoban.java:262-270 | writing out a parsed screen's grid gives back the screen's padded layout, line by line |
| Screens.ParseTexts | Cell.java:92-105 | decoding every row's glyphs gives the grid back |
| Screens.ParseRender | Sokoban.java:262-270 | reading back what `toString` writes gives the same grid |
| Puzzle.MoveConsistent | Sokoban.java:237-254 | a legal move keeps the start walls and targets, the box and target counts, one actor one step further on, and the sealed region |
| Puzzle.MoveFrame | Sokoban.java:240-254 | a move changes at most the old actor cell, the new one and the cell beyond |
| Puzzle.ScreenStart | Sokoban.java:58-68 | a parsed screen that passes `checkValid`, with its actor and whose occupants lie in a sealed region, is a valid start |
| Puzzle.Sokoban.ReadLines | Sokoban.java:32-46 | the Scanner loop keeps exactly the non-empty lines and finds the longest length |
| Puzzle.Sokoban.BuildRow | Sokoban.java:51-56 | a row succeeds iff the padded line is all glyphs, and is then the decoded line; `actorCol` is a column holding the actor if there is one |
| Puzzle.Sokoban.BuildGrid | Sokoban.java:48-57 | the cell loop builds exactly the parsed layout; `actor` holds the actor, or no cell does |
| Puzzle.Sokoban.Init | Sokoban.java:28-59 | a puzzle set up from a checked start grid holds the class invariant, with the start and the current state both that grid |
| Puzzle.Sokoban.Create | Sokoban.java:28-59 | fails iff some character is not a glyph; otherwise a fresh valid puzzle whose cells are the parsed screen, with `numRows` and `numCols` as described |
| Puzzle.Sokoban.StartCells | Sokoban.java:85-92 | every start cell shows the padded start line's character, and the start actor is the only one |
| Puzzle.Sokoban.ActorUnique | Sokoban.java:64-68 | `actorCell` is the only cell holding an actor |
| Puzzle.Sokoban.SetDisplay | Cell.java:92-95 | the cell takes the decoded glyph; no other cell changes |
| Puzzle.Sokoban.ClearCell | Sokoban.java:88-96 | a cell whose glyph differs is reset to the start cell, and `actorCell` follows the actor glyph |
| Puzzle.Sokoban.ClearRow | Sokoban.java:87-98 | after a row, every cell up to it is its start cell and the rest are unchanged |
| Puzzle.Sokoban.Clear | Sokoban.java:73-101 | afterwards the grid is the start grid, `actorCell` the start actor cell, and the invariant holds |
| Puzzle.Sokoban.StartText | Sokoban.java:262-270 | the start grid's text is the start screen's padded layout, line by line: what `toString` gives after `clear` |
| Puzzle.Sokoban.Tally | Sokoban.java:148-197 | the loops count exactly the cells with the feature; there is one actor and as many boxes as targets |
| Puzzle.Sokoban.OnTarget | Sokoban.java:204-206 | true iff every target holds a box, iff every box is on a target |
| Puzzle.Sokoban.CanMove | Sokoban.java:214-216 | the actor cell's `canMove`; CanMoveInto and LegalMoves state it |
| Puzzle.Sokoban.CanMoveInto | Sokoban.java:214-216 | a legal step stays on the grid and does not enter a wall |
| Puzzle.Sokoban.LegalMoves | Sokoban.java:223-230 | exactly the directions the actor can move in, in strictly increasing `values()` order, so without duplicates |
| Puzzle.Sokoban.SetOccupant | Cell.java:112-116 | the grid becomes the one with this occupant put in the cell |
| Puzzle.Sokoban.MoveFrom | Occupant.java:94-102 | the recursive move leaves the grid as `Pushed` describes |
| Puzzle.Sokoban.Move | Sokoban.java:237-254 | succeeds iff `canMove(dir)` held; on success the grid is the push and `actorCell` its neighbour; on failure nothing changes; the invariant holds and only three cells changed |
| Puzzle.Sokoban.CellsWellMarked | Sokoban.java:262-270 | every current cell has a glyph of its own (no wall on a target) |
| Puzzle.Sokoban.ToString | Sokoban.java:262-270 | the text is every row's glyphs and a newline, and reading it back gives the current grid |

## Left out

- The user interface (SokobanPanel.java, PanelCell.java, Icons.java, Level.java, SokobanUI.java), the random player (RandomPlayer.java, Player.java) and SokobanException.java: not part of the grid model. The undo-by-replay of the console interface is not stated.
- `Sokoban(File)` and `fileAsString`: file I/O. Only the constructor from a string is modelled.
- `setChanged`/`notifyObservers`, `trace`, `toStringFull` and `TreeSetToString`: observer plumbing and debugging output.
- `Cell.compareTo` and the `TreeSet` order: the visited set is a mathematical set of positions. `Cell.equals` is equality of positions. `getRow`/`getCol` are the fields of `Pos`.
- Java `null` arguments (`screen`, `cell`, `origin`, `taboo` and a `null` direction): every value in the model exists. The taboo overload's null checks therefore have no counterpart, and only its `taboo == this` rejection is modelled.
- The occupant's back-reference to its cell (`setCell`): a grid cell holds its occupant by value, and the position is known where it is needed.
- Puzzle.Sokoban.Create: requires that the parsed screen passes `checkValid` (Java `assert`s, off by default) and that its occupants lie in a region sealed by walls. The Java code throws a NullPointerException only when a push or a search dereferences a neighbour that does not exist, so it plays some screens whose boxes are not walled in: on the one-row screen `#@$.#` moving north finds no cell and is refused, and moving east pushes the box onto the target, where `Box.isStuckSafe` answers before it looks at any neighbour. The model deliberately refuses every screen without a sealed region, these playable ones included.
- Puzzle.Sokoban.Clear: requires `Shown`, that the start grid is the parsed start screen. `Create` establishes it and no method changes it.
- Mobility.StuckSafe: the SokobanException of `isStuckSafe` is the answer `None`. The Java code never reaches it from `canMove`, which tests the same conditions first.
- Puzzle.Sokoban.Move: returns false and changes nothing instead of throwing IllegalArgumentException when the actor cannot move. Its IllegalStateException check is an assertion proved to hold.
- Puzzle.Sokoban.MoveFrom: requires that the cell can move, where `Occupant.move` and `Cell.move` throw IllegalArgumentException otherwise. Its only caller, `Move`, has just checked that.
- Screens.Lines: splits at every terminator character, where `Scanner` reads "\r\n" as one terminator. The extra line is empty, and empty lines are skipped, so the kept lines are the same.
- Integer widths: row and column numbers and counts are unbounded integers. The Java `int` values stay far below overflow for any screen that fits in memory.
- The Java code fills a `Cell[][]` array in place. The model keeps the grid as a sequence of rows that the methods reassign; cells are values, and no two positions share a cell.
