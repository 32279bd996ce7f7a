/** Compass directions and their rotations (Direction.java). */
module Directions {
  import opened Wrappers

  datatype Direction = North | South | East | West

  /** The order in which `Direction.values()` enumerates the constants. */
  const AllDirections: seq<Direction> := [North, South, East, West]

  /** The position of a direction in `Direction.values()`. */
  function Ordinal(d: Direction): (i: nat)
    ensures i < |AllDirections| && AllDirections[i] == d
  {
    match d
    case North => 0
    case South => 1
    case East => 2
    case West => 3
  }

  /** The direction 90 degrees anticlockwise. */
  function Left(d: Direction): (r: Direction)
    ensures r != d
  {
    match d
    case North => West
    case South => East
    case East => North
    case West => South
  }

  /** The direction 90 degrees clockwise: it undoes `Left`, and equals three quarter turns to the left. */
  function Right(d: Direction): (r: Direction)
    ensures r != d && Left(r) == d
    ensures r == Left(Left(Left(d)))
  {
    match d
    case North => East
    case South => West
    case East => South
    case West => North
  }

  /** The opposite direction: two quarter turns either way. */
  function Reverse(d: Direction): (r: Direction)
    ensures r != d
    ensures r == Left(Left(d)) && r == Right(Right(d))
  {
    match d
    case North => South
    case South => North
    case East => West
    case West => East
  }

  /** The name of the enum constant. */
  function Name(d: Direction): string
  {
    match d
    case North => "NORTH"
    case South => "SOUTH"
    case East => "EAST"
    case West => "WEST"
  }

  /** `Direction.fromString`: the constant with exactly this name, `None` (Java `null`) otherwise. */
  function FromString(s: string): (r: Option<Direction>)
    ensures r.Some? ==> Name(r.value) == s
  {
    if s == "NORTH" then Some(North)
    else if s == "SOUTH" then Some(South)
    else if s == "EAST" then Some(East)
    else if s == "WEST" then Some(West)
    else None
  }

  /** `FromString` recognises exactly the four names, and inverts `Name`. */
  lemma FromStringExact(s: string)
    ensures FromString(s).None? <==> forall d: Direction :: Name(d) != s
    ensures forall d: Direction :: FromString(Name(d)) == Some(d)
  {
    forall d: Direction ensures FromString(Name(d)) == Some(d) {
      match d
      case North =>
      case South => assert Name(d) != "NORTH";
      case East => assert Name(d) != "NORTH" && Name(d) != "SOUTH";
      case West => assert Name(d) != "NORTH" && Name(d) != "SOUTH" && Name(d) != "EAST";
    }
  }

  /** `Left` and `Right` are inverse rotations. */
  lemma LeftRightInverse(d: Direction)
    ensures Left(Right(d)) == d && Right(Left(d)) == d
  {
  }

  /** Four quarter turns to the left are the identity; two are the reversal. */
  lemma LeftFourTimes(d: Direction)
    ensures Left(Left(Left(Left(d)))) == d
    ensures Left(Left(d)) == Reverse(d)
  {
  }

  /** Reversal is an involution without fixed points. */
  lemma ReverseInvolution(d: Direction)
    ensures Reverse(Reverse(d)) == d && Reverse(d) != d
  {
  }

  /** `Left(d)` and `Right(d)` are the two directions perpendicular to `d`. */
  lemma Perpendicular(d: Direction)
    ensures Left(d) != d && Left(d) != Reverse(d)
    ensures Right(d) != d && Right(d) != Reverse(d)
    ensures Left(d) != Right(d) && Right(d) == Reverse(Left(d))
  {
  }

  /** `AllDirections` lists each direction exactly once. */
  lemma AllDirectionsComplete(d: Direction)
    ensures d in AllDirections
    ensures forall i, j :: 0 <= i < j < |AllDirections| ==> AllDirections[i] != AllDirections[j]
  {
  }
}
