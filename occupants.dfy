/**
 * Cell occupants (Occupant.java, Wall.java, Box.java, Actor.java): the closed set of
 * variants and the behaviour that depends on the variant alone. Mobility, which also
 * depends on the surrounding grid, is in module Mobility.
 */
module Occupants {
  import opened Wrappers
  import opened Glyphs

  datatype Occupant = Wall | Box | Actor {

    /** `isActor`: true only for Actor (Actor overrides the default `false`). */
    predicate IsActor() { Actor? }

    /** `isBox`: true only for Box. */
    predicate IsBox() { Box? }

    /** `isWall`: true only for Wall. */
    predicate IsWall() { Wall? }
  }

  /** The two ways `Occupant.getInstance` rejects its arguments. */
  datatype InstanceError = InvalidDisplay | TargetNeedsTargetGlyph

  /** Each variant answers exactly one of `isActor`, `isBox`, `isWall`. */
  lemma ExactlyOneKind(o: Occupant)
    ensures (o.IsActor() && !o.IsBox() && !o.IsWall())
         || (!o.IsActor() && o.IsBox() && !o.IsWall())
         || (!o.IsActor() && !o.IsBox() && o.IsWall())
  {
  }

  /**
   * `getDisplay`: a wall always shows '#'; a box shows '*' on a target and '$' elsewhere;
   * the actor shows '+' on a target and '@' elsewhere.
   */
  function Display(o: Occupant, onTargetCell: bool): (c: char)
    ensures ValidDisplay(c)
    ensures o.IsWall() <==> c == WallGlyph
    ensures o.IsBox() <==> c == BoxGlyph || c == TargetBoxGlyph
    ensures o.IsActor() <==> IsActorGlyph(c)
    ensures !o.IsWall() ==> (IsTargetGlyph(c) <==> onTargetCell)
  {
    match o
    case Wall => WallGlyph
    case Box => if onTargetCell then TargetBoxGlyph else BoxGlyph
    case Actor => if onTargetCell then TargetActorGlyph else ActorGlyph
  }

  /** `Occupant.toString`: the display glyph as a one-character string. */
  function OccupantString(o: Occupant, onTargetCell: bool): (s: string)
    ensures |s| == 1 && s[0] == Display(o, onTargetCell)
  {
    [Display(o, onTargetCell)]
  }

  /** `onTarget`: only a box overrides the default `false`, with its cell's target flag. */
  predicate OnTarget(o: Occupant, onTargetCell: bool)
  {
    match o
    case Box => onTargetCell
    case _ => false
  }

  /** A box is on target exactly on a target cell; a wall or an actor never is. */
  lemma OnTargetOnlyBoxes(o: Occupant, onTargetCell: bool)
    ensures OnTarget(o, onTargetCell) <==> o.IsBox() && onTargetCell
  {
  }

  /**
   * `Occupant.getInstance`: rejects a glyph that is not an occupant glyph, rejects any glyph
   * but '*' and '+' for a target cell, and otherwise builds the variant the glyph names.
   */
  function GetInstance(display: char, onTargetCell: bool): (r: Result<Occupant, InstanceError>)
    ensures !ValidDisplay(display) <==> r == Failure(InvalidDisplay)
    ensures r == Failure(TargetNeedsTargetGlyph)
        <==> ValidDisplay(display) && onTargetCell && display != TargetBoxGlyph && display != TargetActorGlyph
    ensures r.Success? && onTargetCell == IsTargetGlyph(display) ==> Display(r.value, onTargetCell) == display
  {
    if !ValidDisplay(display) then Failure(InvalidDisplay)
    else if onTargetCell && display != TargetBoxGlyph && display != TargetActorGlyph then Failure(TargetNeedsTargetGlyph)
    else if display == WallGlyph then Success(Wall)
    else if display == BoxGlyph || display == TargetBoxGlyph then Success(Box)
    else Success(Actor)
  }

  /** The glyph-to-variant table of `getInstance`. */
  lemma GetInstanceTable(display: char)
    ensures GetInstance(display, false) == Success(Wall) <==> display == WallGlyph
    ensures GetInstance(display, false) == Success(Box) <==> display == BoxGlyph || display == TargetBoxGlyph
    ensures GetInstance(display, false) == Success(Actor) <==> display == ActorGlyph || display == TargetActorGlyph
    ensures GetInstance(display, true) == Success(Box) <==> display == TargetBoxGlyph
    ensures GetInstance(display, true) == Success(Actor) <==> display == TargetActorGlyph
    ensures GetInstance(display, true).Success? ==> !GetInstance(display, true).value.IsWall()
  {
  }
}
