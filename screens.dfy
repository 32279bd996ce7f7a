/**
 * The text form of a puzzle: how the constructor reads a standard Sokoban screen (lines as
 * java.util.Scanner splits them, empty ones skipped, short ones padded with spaces) and how
 * `toString` writes one back.
 */
module Screens {
  import opened Wrappers
  import opened Glyphs
  import opened Occupants
  import opened Grids

  /** The characters at which `Scanner.nextLine` ends a line. */
  predicate IsLineTerminator(c: char)
  {
    c == '\n' || c == '\r' || c == '\U{2028}' || c == '\U{2029}' || c == '\U{0085}'
  }

  predicate NoTerminator(s: string)
  {
    forall i :: 0 <= i < |s| ==> !IsLineTerminator(s[i])
  }

  /** The length of the line at the front of `s`: everything up to the first terminator. */
  function LineLength(s: string): (n: nat)
    ensures n <= |s| && NoTerminator(s[..n])
    ensures n < |s| ==> IsLineTerminator(s[n])
  {
    if |s| == 0 || IsLineTerminator(s[0]) then 0
    else
      var n := 1 + LineLength(s[1..]);
      assert forall i :: 1 <= i < n ==> s[..n][i] == s[1..][..n - 1][i - 1];
      n
  }

  /**
   * The lines `Scanner.nextLine` returns, one per terminator character, and a last one if the
   * text does not end with a terminator. (The Scanner reads "\r\n" as one terminator; this
   * reads an extra empty line there, which the constructor skips anyway.)
   */
  function Lines(s: string): (lines: seq<string>)
    ensures forall k :: 0 <= k < |lines| ==> NoTerminator(lines[k])
    decreases |s|
  {
    if |s| == 0 then []
    else
      var n := LineLength(s);
      if n == |s| then [s] else [s[..n]] + Lines(s[n + 1..])
  }

  /** The line at the front of a text ends at its first terminator. */
  lemma {:induction false} LineLengthSplit(a: string, t: char, b: string)
    requires NoTerminator(a) && IsLineTerminator(t)
    ensures LineLength(a + [t] + b) == |a|
    decreases |a|
  {
    if |a| > 0 {
      assert (a + [t] + b)[1..] == a[1..] + [t] + b;
      LineLengthSplit(a[1..], t, b);
    }
  }

  /** A text without a terminator is one line long. */
  lemma {:induction false} LineLengthWhole(a: string)
    requires NoTerminator(a)
    ensures LineLength(a) == |a|
    decreases |a|
  {
    if |a| > 0 {
      LineLengthWhole(a[1..]);
    }
  }

  /**
   * How `Lines` reassembles a text: the text before the first terminator is the first line and
   * the rest are the lines after it; a last piece without a terminator is the last line. With
   * `Lines("") == []` these fix `Lines` on every text.
   */
  lemma LinesSplit(a: string, t: char, b: string)
    requires NoTerminator(a) && IsLineTerminator(t)
    ensures Lines(a + [t] + b) == [a] + Lines(b)
  {
    var s := a + [t] + b;
    LineLengthSplit(a, t, b);
    assert s[..|a|] == a;
    assert s[|a| + 1..] == b;
  }

  lemma LinesLast(a: string)
    requires NoTerminator(a) && |a| > 0
    ensures Lines(a) == [a]
  {
    LineLengthWhole(a);
  }

  /** The lines that are not empty, in order: what the constructor keeps. */
  function NonEmpty(lines: seq<string>): (kept: seq<string>)
    ensures |kept| <= |lines|
    ensures forall k :: 0 <= k < |kept| ==> |kept[k]| > 0 && kept[k] in lines
  {
    if |lines| == 0 then []
    else
      var last := lines[|lines| - 1];
      NonEmpty(lines[..|lines| - 1]) + (if |last| > 0 then [last] else [])
  }

  /**
   * Skipping empty lines works line by line and keeps the order: one line is kept iff it is not
   * empty, and the lines of two pieces are those of the first followed by those of the second.
   */
  lemma {:induction false} NonEmptyAppend(a: seq<string>, b: seq<string>)
    ensures NonEmpty(a + b) == NonEmpty(a) + NonEmpty(b)
    decreases |b|
  {
    if |b| > 0 {
      var n := |b| - 1;
      var keep := if |b[n]| > 0 then [b[n]] else [];
      assert (a + b)[..|a + b| - 1] == a + b[..n];
      assert (a + b)[|a + b| - 1] == b[n];
      assert NonEmpty(a + b) == NonEmpty(a + b[..n]) + keep;
      assert NonEmpty(b) == NonEmpty(b[..n]) + keep;
      NonEmptyAppend(a, b[..n]);
      assert NonEmpty(a) + NonEmpty(b[..n]) + keep == NonEmpty(a) + (NonEmpty(b[..n]) + keep);
    } else {
      assert a + b == a;
    }
  }

  /** No non-empty line is skipped. */
  lemma {:induction false} NonEmptyComplete(lines: seq<string>)
    ensures forall k :: 0 <= k < |lines| && |lines[k]| > 0 ==> lines[k] in NonEmpty(lines)
    decreases |lines|
  {
    if |lines| > 0 {
      var n := |lines| - 1;
      NonEmptyComplete(lines[..n]);
      forall k | 0 <= k < n && |lines[k]| > 0
        ensures lines[k] in NonEmpty(lines)
      {
        assert lines[..n][k] == lines[k];
      }
    }
  }

  lemma NonEmptyOne(line: string)
    ensures NonEmpty([line]) == if |line| > 0 then [line] else []
  {
    assert [line][..0] == [];
  }

  /** Skipping empty lines leaves a list of non-empty lines alone. */
  lemma {:induction false} NonEmptyKeeps(lines: seq<string>)
    requires forall k :: 0 <= k < |lines| ==> |lines[k]| > 0
    ensures NonEmpty(lines) == lines
  {
    if |lines| > 0 {
      var n := |lines| - 1;
      NonEmptyKeeps(lines[..n]);
      assert lines == lines[..n] + [lines[n]];
    }
  }

  /** Reading one more line keeps it when it is not empty. */
  lemma NonEmptySnoc(all: seq<string>, i: nat)
    requires i < |all|
    ensures NonEmpty(all[..i + 1]) == NonEmpty(all[..i]) + (if |all[i]| > 0 then [all[i]] else [])
  {
    assert all[..i + 1][..i] == all[..i];
  }

  /** The non-empty lines of a screen. */
  function ScreenLines(screen: string): seq<string>
  {
    NonEmpty(Lines(screen))
  }

  /** The length of the longest line (0 for none): the number of columns. */
  function MaxLength(lines: seq<string>): (w: nat)
    ensures forall k :: 0 <= k < |lines| ==> |lines[k]| <= w
    ensures |lines| > 0 ==> exists k :: 0 <= k < |lines| && |lines[k]| == w
    ensures |lines| == 0 ==> w == 0
  {
    if |lines| == 0 then 0
    else
      var prev := MaxLength(lines[..|lines| - 1]);
      var last := |lines[|lines| - 1]|;
      assert forall k :: 0 <= k < |lines| - 1 ==> lines[..|lines| - 1][k] == lines[k];
      if last > prev then last else prev
  }

  /** One more line widens the maximum when it is longer. */
  lemma MaxLengthSnoc(lines: seq<string>, line: string)
    ensures MaxLength(lines + [line]) == if |line| > MaxLength(lines) then |line| else MaxLength(lines)
  {
    assert (lines + [line])[..|lines|] == lines;
  }

  /** A line padded on the right with spaces to `w` characters. */
  function PadLine(line: string, w: nat): (s: string)
    requires |line| <= w
    ensures |s| == w && s[..|line|] == line
    ensures forall c :: |line| <= c < w ==> s[c] == EmptyGlyph
  {
    seq(w, c requires 0 <= c < w => if c < |line| then line[c] else EmptyGlyph)
  }

  /** Lines padded on the right to a common width. */
  function PadAll(lines: seq<string>, w: nat): (rows: seq<string>)
    requires forall k :: 0 <= k < |lines| ==> |lines[k]| <= w
    ensures |rows| == |lines| && forall k :: 0 <= k < |lines| ==> rows[k] == PadLine(lines[k], w)
  {
    seq(|lines|, k requires 0 <= k < |lines| => PadLine(lines[k], w))
  }

  /** The screen as a rectangle of characters: its non-empty lines padded to the longest. */
  function Layout(screen: string): (rows: seq<string>)
    ensures |rows| == |ScreenLines(screen)|
    ensures forall k :: 0 <= k < |rows| ==> |rows[k]| == MaxLength(ScreenLines(screen))
  {
    PadAll(ScreenLines(screen), MaxLength(ScreenLines(screen)))
  }

  predicate AllGlyphs(s: string)
  {
    forall i :: 0 <= i < |s| ==> IsGlyph(s[i])
  }

  /** A row of glyphs decoded cell by cell. */
  function DecodeRow(s: string): (row: seq<Cell>)
    requires AllGlyphs(s)
    ensures |row| == |s|
    ensures forall i :: 0 <= i < |s| ==> CellGlyph(row[i]) == s[i] && WellMarked(row[i])
  {
    seq(|s|, i requires 0 <= i < |s| => DecodeCell(s[i]).value)
  }

  /**
   * The cells built for a rectangle of characters (`new Cell(display, ...)` for each), or
   * `InvalidDisplay` when some character is not a glyph: the IllegalArgumentException of
   * `Occupant.getInstance`.
   */
  function ParseLayout(rows: seq<string>): (r: Result<Grid, InstanceError>)
    ensures r.Success? <==> forall k :: 0 <= k < |rows| ==> AllGlyphs(rows[k])
    ensures r.Failure? ==> r.error == InvalidDisplay
    ensures r.Success? ==> |r.value| == |rows| && forall k :: 0 <= k < |rows| ==> r.value[k] == DecodeRow(rows[k])
  {
    if forall k :: 0 <= k < |rows| ==> AllGlyphs(rows[k]) then
      Success(seq(|rows|, k requires 0 <= k < |rows| => DecodeRow(rows[k])))
    else
      Failure(InvalidDisplay)
  }

  /** A grid decoded row by row from an all-glyph layout is the parsed layout. */
  lemma ParseLayoutRows(rows: seq<string>, grid: Grid)
    requires |grid| == |rows|
    requires forall k :: 0 <= k < |grid| ==> AllGlyphs(rows[k]) && grid[k] == DecodeRow(rows[k])
    ensures ParseLayout(rows) == Success(grid)
  {
    assert grid == seq(|rows|, k requires 0 <= k < |rows| => DecodeRow(rows[k]));
  }

  /**
   * The grid the constructor builds from a screen: rectangular, one row per non-empty line,
   * as wide as the longest line, each cell showing the layout's character.
   */
  function ParseScreen(screen: string): (r: Result<Grid, InstanceError>)
    ensures r.Success? <==> forall k :: 0 <= k < |Layout(screen)| ==> AllGlyphs(Layout(screen)[k])
    ensures r.Failure? ==> r.error == InvalidDisplay
    ensures r.Success? ==>
      && Rectangular(r.value)
      && Rows(r.value) == |ScreenLines(screen)|
      && (Rows(r.value) > 0 ==> Cols(r.value) == MaxLength(ScreenLines(screen)))
      && forall p :: InGrid(r.value, p) ==>
           CellGlyph(At(r.value, p)) == Layout(screen)[p.row][p.col] && WellMarked(At(r.value, p))
  {
    var rows := Layout(screen);
    var r := ParseLayout(rows);
    if r.Success? then ParsedLayout(rows, MaxLength(ScreenLines(screen)), r.value); r else r
  }

  /** A parsed layout of equally long lines is a rectangle showing the layout's characters. */
  lemma ParsedLayout(rows: seq<string>, w: nat, g: Grid)
    requires forall k :: 0 <= k < |rows| ==> |rows[k]| == w
    requires ParseLayout(rows) == Success(g)
    ensures Rectangular(g) && Rows(g) == |rows| && (|rows| > 0 ==> Cols(g) == w)
    ensures forall p :: InGrid(g, p) ==> CellGlyph(At(g, p)) == rows[p.row][p.col] && WellMarked(At(g, p))
  {
    forall p | InGrid(g, p)
      ensures CellGlyph(At(g, p)) == rows[p.row][p.col] && WellMarked(At(g, p))
    {
      assert g[p.row] == DecodeRow(rows[p.row]);
    }
  }

  /** The glyphs of a row (`Cell.toString` of each cell). */
  function RowText(row: seq<Cell>): (s: string)
    ensures |s| == |row| && forall i :: 0 <= i < |row| ==> s[i] == CellGlyph(row[i])
  {
    seq(|row|, i requires 0 <= i < |row| => CellGlyph(row[i]))
  }

  /** `Sokoban.toString`: every row's glyphs followed by a newline. */
  function Render(g: Grid): string
  {
    if |g| == 0 then "" else Render(g[..|g| - 1]) + RowText(g[|g| - 1]) + "\n"
  }

  /** Glyphs are never line terminators. */
  lemma GlyphNotTerminator(c: char)
    requires IsGlyph(c)
    ensures !IsLineTerminator(c)
  {
  }

  /** A rendering read from the front: the first row, a newline, then the rest. */
  lemma {:induction false} RenderFront(g: Grid)
    requires |g| > 0
    ensures Render(g) == RowText(g[0]) + "\n" + Render(g[1..])
    decreases |g|
  {
    var n := |g| - 1;
    if n > 0 {
      RenderFront(g[..n]);
      assert g[..n][1..] == g[1..][..n - 1];
      assert g[..n][0] == g[0] && g[1..][n - 1] == g[n];
    } else {
      assert g[1..] == [];
    }
  }

  /** The line at the front of `line + "\n" + rest` is `line`. */
  lemma {:induction false} LineLengthFront(line: string, rest: string)
    requires NoTerminator(line)
    ensures LineLength(line + "\n" + rest) == |line|
    decreases |line|
  {
    if |line| > 0 {
      assert (line + "\n" + rest)[1..] == line[1..] + "\n" + rest;
      LineLengthFront(line[1..], rest);
    }
  }

  /** The lines of a rendering are the rows' glyphs. */
  lemma {:induction false} LinesOfRender(g: Grid)
    ensures Lines(Render(g)) == Texts(g)
    decreases |g|
  {
    if |g| > 0 {
      RenderFront(g);
      var line, rest := RowText(g[0]), Render(g[1..]);
      assert NoTerminator(line) by {
        forall i | 0 <= i < |line|
          ensures !IsLineTerminator(line[i])
        {
          GlyphNotTerminator(line[i]);
        }
      }
      LineLengthFront(line, rest);
      var s := line + "\n" + rest;
      assert s[..|line|] == line && s[|line| + 1..] == rest;
      LinesOfRender(g[1..]);
      assert Texts(g) == [line] + Texts(g[1..]);
    }
  }

  /** The rows' glyphs of a rectangular grid with no empty row. */
  function Texts(g: Grid): (texts: seq<string>)
    ensures |texts| == |g| && forall r :: 0 <= r < |g| ==> texts[r] == RowText(g[r])
  {
    seq(|g|, r requires 0 <= r < |g| => RowText(g[r]))
  }

  /** Padding a line to its own length changes nothing. */
  lemma PadFull(line: string)
    ensures PadLine(line, |line|) == line
  {
    var padded := PadLine(line, |line|);
    assert padded == padded[..|line|];
  }

  /** The lines of a rendering, empty ones skipped, are still the rows' glyphs. */
  lemma ScreenLinesOfRender(g: Grid)
    requires Rectangular(g) && (Rows(g) > 0 ==> Cols(g) > 0)
    ensures ScreenLines(Render(g)) == Texts(g)
    ensures |g| > 0 ==> MaxLength(Texts(g)) == Cols(g)
  {
    var texts := Texts(g);
    LinesOfRender(g);
    assert forall k :: 0 <= k < |texts| ==> |texts[k]| == Cols(g);
    NonEmptyKeeps(texts);
    if |g| > 0 {
      MaxLengthUniform(texts, Cols(g));
    }
  }

  lemma MaxLengthUniform(lines: seq<string>, w: nat)
    requires |lines| > 0 && forall k :: 0 <= k < |lines| ==> |lines[k]| == w
    ensures MaxLength(lines) == w
  {
  }

  /** The layout of a rendering is the rows' glyphs: nothing is skipped and nothing padded. */
  lemma LayoutOfRender(g: Grid)
    requires Rectangular(g) && (Rows(g) > 0 ==> Cols(g) > 0)
    ensures Layout(Render(g)) == Texts(g)
  {
    var texts := Texts(g);
    ScreenLinesOfRender(g);
    var rows := Layout(Render(g));
    forall k | 0 <= k < |rows|
      ensures rows[k] == texts[k]
    {
      assert |texts[k]| == Cols(g);
      PadFull(texts[k]);
    }
  }

  /** Decoding a row's glyphs gives the row back, when its cells are well marked. */
  lemma DecodeRowText(row: seq<Cell>)
    requires forall i :: 0 <= i < |row| ==> WellMarked(row[i])
    ensures AllGlyphs(RowText(row)) && DecodeRow(RowText(row)) == row
  {
    var text := RowText(row);
    forall i | 0 <= i < |row|
      ensures DecodeCell(text[i]) == Success(row[i])
    {
      DecodeGlyph(row[i]);
    }
  }

  /** Writing out a parsed screen gives back its layout, line by line. */
  lemma RenderParsed(screen: string, g: Grid)
    requires ParseScreen(screen) == Success(g)
    ensures Lines(Render(g)) == Layout(screen)
  {
    LinesOfRender(g);
    var texts, layout := Texts(g), Layout(screen);
    forall k | 0 <= k < |g|
      ensures texts[k] == layout[k]
    {
      forall c | 0 <= c < |g[k]|
        ensures texts[k][c] == layout[k][c]
      {
        assert At(g, Pos(k, c)) == g[k][c];
      }
    }
  }

  /** Decoding the rows' glyphs gives the grid back, when its cells are well marked. */
  lemma ParseTexts(g: Grid)
    requires Rectangular(g)
    requires forall p :: InGrid(g, p) ==> WellMarked(At(g, p))
    ensures ParseLayout(Texts(g)) == Success(g)
  {
    var rows := Texts(g);
    forall k | 0 <= k < |rows|
      ensures AllGlyphs(rows[k]) && DecodeRow(rows[k]) == g[k]
    {
      assert forall c :: 0 <= c < |g[k]| ==> At(g, Pos(k, c)) == g[k][c];
      DecodeRowText(g[k]);
    }
    ParseLayoutRows(rows, g);
  }

  /**
   * Reading back what `toString` writes gives the same grid, for every rectangular grid with
   * at least one column whose cells are well marked: the text form loses nothing.
   */
  lemma ParseRender(g: Grid)
    requires Rectangular(g) && (Rows(g) > 0 ==> Cols(g) > 0)
    requires forall p :: InGrid(g, p) ==> WellMarked(At(g, p))
    ensures ParseScreen(Render(g)) == Success(g)
  {
    LayoutOfRender(g);
    ParseTexts(g);
  }
}
