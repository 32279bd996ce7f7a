/** The display characters of a standard Sokoban screen (the constants of Sokoban.java). */
module Glyphs {

  const WallGlyph: char := '#'
  const BoxGlyph: char := '$'
  const ActorGlyph: char := '@'
  const TargetGlyph: char := '.'
  const EmptyGlyph: char := ' '
  const TargetBoxGlyph: char := '*'
  const TargetActorGlyph: char := '+'

  /** `Sokoban.validDisplay`: the glyph of an occupant; the two glyphs of an empty cell are excluded. */
  predicate ValidDisplay(c: char)
  {
    c == WallGlyph || c == BoxGlyph || c == TargetBoxGlyph || c == ActorGlyph || c == TargetActorGlyph
  }

  /** Every glyph a cell may show: an occupant glyph or one of the two empty-cell glyphs. */
  predicate IsGlyph(c: char)
  {
    ValidDisplay(c) || c == EmptyGlyph || c == TargetGlyph
  }

  /** The glyphs that mark a target cell. */
  predicate IsTargetGlyph(c: char)
  {
    c == TargetGlyph || c == TargetBoxGlyph || c == TargetActorGlyph
  }

  /** The glyphs that mark the actor. */
  predicate IsActorGlyph(c: char)
  {
    c == ActorGlyph || c == TargetActorGlyph
  }
}
