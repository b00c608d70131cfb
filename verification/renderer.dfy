/**
 * `render_ascii_art`: points plotted on a grid just large enough to hold
 * them, the y axis pointing up, later points overwriting earlier ones.
 */
module Renderer {
  import opened Wrappers
  import opened Text
  import opened Decoder

  // ---------------------------------------------------------------- bounds

  /** Python's `min` of a non-empty list. */
  function Min(s: seq<int>): (m: int)
    requires |s| > 0
    ensures exists i :: 0 <= i < |s| && s[i] == m
    ensures forall i :: 0 <= i < |s| ==> m <= s[i]
  {
    if |s| == 1 then s[0]
    else
      var rest := Min(s[1..]);
      assert forall i :: 1 <= i < |s| ==> s[i] == s[1..][i - 1];
      if s[0] <= rest then s[0] else rest
  }

  /** Python's `max` of a non-empty list. */
  function Max(s: seq<int>): (m: int)
    requires |s| > 0
    ensures exists i :: 0 <= i < |s| && s[i] == m
    ensures forall i :: 0 <= i < |s| ==> s[i] <= m
  {
    if |s| == 1 then s[0]
    else
      var rest := Max(s[1..]);
      assert forall i :: 1 <= i < |s| ==> s[i] == s[1..][i - 1];
      if s[0] >= rest then s[0] else rest
  }

  function Xs(ps: seq<Point>): (xs: seq<int>)
    ensures |xs| == |ps| && forall i :: 0 <= i < |ps| ==> xs[i] == ps[i].x
  {
    seq(|ps|, i requires 0 <= i < |ps| => ps[i].x)
  }

  function Ys(ps: seq<Point>): (ys: seq<int>)
    ensures |ys| == |ps| && forall i :: 0 <= i < |ps| ==> ys[i] == ps[i].y
  {
    seq(|ps|, i requires 0 <= i < |ps| => ps[i].y)
  }

  /** The bounding box of the points. */
  datatype Box = Box(minX: int, maxX: int, minY: int, maxY: int) {
    function Width(): int { maxX - minX + 1 }
    function Height(): int { maxY - minY + 1 }

    /** Where `render_ascii_art` plots a point: column `x - min_x`, row `max_y - y`. */
    function Column(p: Point): int { p.x - minX }
    function Line(p: Point): int { maxY - p.y }

    /** The guard of the plotting loop. */
    predicate Holds(p: Point) {
      0 <= Column(p) < Width() && 0 <= Line(p) < Height()
    }
  }

  /** The smallest box around the points; its sides touch points and it has room for every point. */
  function Bounds(ps: seq<Point>): (b: Box)
    requires |ps| > 0
    ensures b.Width() >= 1 && b.Height() >= 1
    ensures forall i :: 0 <= i < |ps| ==> b.Holds(ps[i])
  {
    Box(Min(Xs(ps)), Max(Xs(ps)), Min(Ys(ps)), Max(Ys(ps)))
  }

  /** Each side of the box touches a point, so no smaller box holds them all. */
  lemma BoundsAreTight(ps: seq<Point>)
    requires |ps| > 0
    ensures exists i :: 0 <= i < |ps| && ps[i].x == Bounds(ps).minX
    ensures exists i :: 0 <= i < |ps| && ps[i].x == Bounds(ps).maxX
    ensures exists i :: 0 <= i < |ps| && ps[i].y == Bounds(ps).minY
    ensures exists i :: 0 <= i < |ps| && ps[i].y == Bounds(ps).maxY
  {
    var xs, ys := Xs(ps), Ys(ps);
    var i1 :| 0 <= i1 < |xs| && xs[i1] == Min(xs);
    var i2 :| 0 <= i2 < |xs| && xs[i2] == Max(xs);
    var i3 :| 0 <= i3 < |ys| && ys[i3] == Min(ys);
    var i4 :| 0 <= i4 < |ys| && ys[i4] == Max(ys);
    assert ps[i1].x == Bounds(ps).minX && ps[i2].x == Bounds(ps).maxX;
    assert ps[i3].y == Bounds(ps).minY && ps[i4].y == Bounds(ps).maxY;
  }

  // ---------------------------------------------------------------- last write wins

  predicate At(p: Point, x: int, y: int) {
    p.x == x && p.y == y
  }

  /** The glyph of the last point at `(x, y)`, if any point is there. */
  function LastGlyph(ps: seq<Point>, x: int, y: int): Option<string> {
    if |ps| == 0 then None
    else if At(ps[|ps| - 1], x, y) then Some(ps[|ps| - 1].glyph)
    else LastGlyph(ps[..|ps| - 1], x, y)
  }

  /**
   * `LastGlyph` is the glyph of the point at `(x, y)` that no later point at
   * `(x, y)` follows, and it is absent exactly when no point is there.
   */
  lemma LastGlyphIsLast(ps: seq<Point>, x: int, y: int)
    ensures LastGlyph(ps, x, y).None? <==> forall i :: 0 <= i < |ps| ==> !At(ps[i], x, y)
    ensures LastGlyph(ps, x, y).Some? ==>
              exists i :: 0 <= i < |ps| && At(ps[i], x, y) && LastGlyph(ps, x, y).value == ps[i].glyph
                       && forall j :: i < j < |ps| ==> !At(ps[j], x, y)
  {
    LastGlyphAbsent(ps, x, y);
    if LastGlyph(ps, x, y).Some? {
      var i := LastGlyphIndex(ps, x, y);
    }
  }

  lemma {:induction false} LastGlyphAbsent(ps: seq<Point>, x: int, y: int)
    ensures LastGlyph(ps, x, y).None? <==> forall i :: 0 <= i < |ps| ==> !At(ps[i], x, y)
  {
    if |ps| > 0 {
      var n := |ps| - 1;
      var prefix := ps[..n];
      LastGlyphAbsent(prefix, x, y);
      assert forall i :: 0 <= i < n ==> prefix[i] == ps[i];
    }
  }

  /** Where the last glyph at `(x, y)` comes from. */
  lemma {:induction false} LastGlyphIndex(ps: seq<Point>, x: int, y: int) returns (i: int)
    requires LastGlyph(ps, x, y).Some?
    ensures 0 <= i < |ps| && At(ps[i], x, y) && LastGlyph(ps, x, y).value == ps[i].glyph
    ensures forall j :: i < j < |ps| ==> !At(ps[j], x, y)
  {
    var n := |ps| - 1;
    if At(ps[n], x, y) {
      i := n;
    } else {
      var prefix := ps[..n];
      i := LastGlyphIndex(prefix, x, y);
      assert ps[i] == prefix[i];
      assert forall j :: i < j < n ==> ps[j] == prefix[j];
    }
  }

  /** What ends up in the cell for `(x, y)`: the last glyph there, or the background space. */
  function CellGlyph(ps: seq<Point>, x: int, y: int): string {
    match LastGlyph(ps, x, y)
    case Some(g) => g
    case None => " "
  }

  // ---------------------------------------------------------------- the grid

  type Grid = seq<seq<string>>

  predicate IsRect(g: Grid, h: int, w: int) {
    |g| == h && forall r :: 0 <= r < |g| ==> |g[r]| == w
  }

  /** `[[' ' for _ in range(width)] for _ in range(height)]`. */
  function Blank(h: nat, w: nat): (g: Grid)
    ensures IsRect(g, h, w)
    ensures forall r, c :: 0 <= r < h && 0 <= c < w ==> g[r][c] == " "
  {
    seq(h, _ => seq(w, _ => " "))
  }

  /**
   * One pass of the plotting loop: the point's own cell takes its glyph when
   * the guard allows, and every other cell keeps what it held.
   */
  function PlotPoint(g: Grid, b: Box, p: Point): (g': Grid)
    requires IsRect(g, b.Height(), b.Width())
    ensures IsRect(g', b.Height(), b.Width())
    ensures b.Holds(p) ==> g'[b.Line(p)][b.Column(p)] == p.glyph
    ensures !b.Holds(p) ==> g' == g
    ensures forall r, c :: 0 <= r < b.Height() && 0 <= c < b.Width() && (r != b.Line(p) || c != b.Column(p)) ==>
              g'[r][c] == g[r][c]
  {
    if b.Holds(p) then g[b.Line(p) := g[b.Line(p)][b.Column(p) := p.glyph]] else g
  }

  /** The whole plotting loop, first point first. */
  function PlotAll(g: Grid, b: Box, ps: seq<Point>): (g': Grid)
    requires IsRect(g, b.Height(), b.Width())
    ensures IsRect(g', b.Height(), b.Width())
  {
    if |ps| == 0 then g else PlotPoint(PlotAll(g, b, ps[..|ps| - 1]), b, ps[|ps| - 1])
  }

  /** After plotting, each cell holds the glyph of the last point on it, or what it held before. */
  lemma {:induction false} PlotAllCell(g: Grid, b: Box, ps: seq<Point>, r: int, c: int)
    requires IsRect(g, b.Height(), b.Width())
    requires 0 <= r < b.Height() && 0 <= c < b.Width()
    ensures PlotAll(g, b, ps)[r][c] ==
              match LastGlyph(ps, b.minX + c, b.maxY - r)
              case Some(glyph) => glyph
              case None => g[r][c]
  {
    if |ps| > 0 {
      PlotAllCell(g, b, ps[..|ps| - 1], r, c);
    }
  }

  // ---------------------------------------------------------------- rendering

  /** `'\n'.join(''.join(row) for row in grid)`. */
  function Lines(g: Grid): (lines: seq<string>)
    ensures |lines| == |g| && forall r :: 0 <= r < |g| ==> lines[r] == Concat(g[r])
  {
    seq(|g|, r requires 0 <= r < |g| => Concat(g[r]))
  }

  /** `render_ascii_art`: `None` for no points, otherwise the plotted grid as text. */
  function Render(ps: seq<Point>): (art: Option<string>)
    ensures art.None? <==> |ps| == 0
  {
    if |ps| == 0 then None
    else
      Some(JoinLines(Lines(Plotted(ps))))
  }

  /**
   * The rendering described without a grid, for a box `b`: line `r`
   * (counting from the top) shows y = max_y - r, and its `c`-th cell shows
   * x = min_x + c.
   */
  function ReferenceRow(ps: seq<Point>, b: Box, r: int): (row: seq<string>)
    requires b.Width() >= 1
    ensures |row| == b.Width()
  {
    seq(b.Width(), c requires 0 <= c < b.Width() => CellGlyph(ps, b.minX + c, b.maxY - r))
  }

  function ReferenceLines(ps: seq<Point>, b: Box): (lines: seq<string>)
    requires b.Width() >= 1 && b.Height() >= 1
    ensures |lines| == b.Height()
  {
    seq(b.Height(), r requires 0 <= r < b.Height() => Concat(ReferenceRow(ps, b, r)))
  }

  /** The grid `render_ascii_art` builds for the points. */
  function Plotted(ps: seq<Point>): (g: Grid)
    requires |ps| > 0
    ensures IsRect(g, Bounds(ps).Height(), Bounds(ps).Width())
  {
    var b := Bounds(ps);
    PlotAll(Blank(b.Height(), b.Width()), b, ps)
  }

  /**
   * Last write wins: the cell on line `r`, column `c` holds the glyph of the
   * last point at x = min_x + c, y = max_y - r, or a space if there is none.
   */
  lemma PlottedCell(ps: seq<Point>, r: int, c: int)
    requires |ps| > 0 && 0 <= r < Bounds(ps).Height() && 0 <= c < Bounds(ps).Width()
    ensures Plotted(ps)[r][c] == CellGlyph(ps, Bounds(ps).minX + c, Bounds(ps).maxY - r)
  {
    PlotBlankCell(ps, Bounds(ps), r, c);
  }

  /** Last write wins on a blank grid of any box. */
  lemma PlotBlankCell(ps: seq<Point>, b: Box, r: int, c: int)
    requires 0 <= r < b.Height() && 0 <= c < b.Width()
    ensures PlotAll(Blank(b.Height(), b.Width()), b, ps)[r][c] == CellGlyph(ps, b.minX + c, b.maxY - r)
  {
    PlotAllCell(Blank(b.Height(), b.Width()), b, ps, r, c);
  }

  /** Each row of the built grid is the reference row. */
  lemma PlottedRow(ps: seq<Point>, r: int)
    requires |ps| > 0 && 0 <= r < Bounds(ps).Height()
    ensures Plotted(ps)[r] == ReferenceRow(ps, Bounds(ps), r)
  {
    PlotBlankRow(ps, Bounds(ps), r);
  }

  lemma PlotBlankRow(ps: seq<Point>, b: Box, r: int)
    requires b.Width() >= 1 && 0 <= r < b.Height()
    ensures PlotAll(Blank(b.Height(), b.Width()), b, ps)[r] == ReferenceRow(ps, b, r)
  {
    var g := PlotAll(Blank(b.Height(), b.Width()), b, ps);
    var row := ReferenceRow(ps, b, r);
    forall c | 0 <= c < |row|
      ensures g[r][c] == row[c]
    {
      PlotBlankCell(ps, b, r, c);
    }
  }

  /** The text `render_ascii_art` returns is the reference lines, joined. */
  lemma RenderMatchesReference(ps: seq<Point>)
    requires |ps| > 0
    ensures Render(ps) == Some(JoinLines(ReferenceLines(ps, Bounds(ps))))
  {
    var grid := Plotted(ps);
    var reference := ReferenceLines(ps, Bounds(ps));
    forall r | 0 <= r < |grid|
      ensures Lines(grid)[r] == reference[r]
    {
      PlottedRow(ps, r);
    }
    assert Lines(grid) == reference;
  }

  // ---------------------------------------------------------------- one-character glyphs

  predicate SingleCharGlyphs(ps: seq<Point>) {
    forall i :: 0 <= i < |ps| ==> |ps[i].glyph| == 1
  }

  /** The character a one-character cell shows. */
  function CellChar(ps: seq<Point>, x: int, y: int): char {
    var g := CellGlyph(ps, x, y);
    if |g| > 0 then g[0] else ' '
  }

  lemma CellGlyphIsSingleChar(ps: seq<Point>, x: int, y: int)
    requires SingleCharGlyphs(ps)
    ensures |CellGlyph(ps, x, y)| == 1
  {
    LastGlyphIsLast(ps, x, y);
  }

  lemma ReferenceLineWidth(ps: seq<Point>, b: Box, r: int)
    requires b.Width() >= 1 && SingleCharGlyphs(ps)
    ensures |Concat(ReferenceRow(ps, b, r))| == b.Width()
    ensures forall c :: 0 <= c < b.Width() ==>
              Concat(ReferenceRow(ps, b, r))[c] == CellChar(ps, b.minX + c, b.maxY - r)
  {
    var row := ReferenceRow(ps, b, r);
    forall c | 0 <= c < |row|
      ensures |row[c]| == 1 && row[c][0] == CellChar(ps, b.minX + c, b.maxY - r)
    {
      CellGlyphIsSingleChar(ps, b.minX + c, b.maxY - r);
    }
    ConcatOfSingles(row);
  }

  lemma ReferenceLinesLayout(ps: seq<Point>, b: Box)
    requires b.Width() >= 1 && b.Height() >= 1 && SingleCharGlyphs(ps)
    ensures SameWidth(ReferenceLines(ps, b), b.Width())
    ensures forall r, c :: 0 <= r < b.Height() && 0 <= c < b.Width() ==>
              ReferenceLines(ps, b)[r][c] == CellChar(ps, b.minX + c, b.maxY - r)
  {
    var lines := ReferenceLines(ps, b);
    forall r | 0 <= r < |lines|
      ensures |lines[r]| == b.Width()
      ensures forall c :: 0 <= c < b.Width() ==> lines[r][c] == CellChar(ps, b.minX + c, b.maxY - r)
    {
      ReferenceLineWidth(ps, b, r);
    }
  }

  /** The joined reference lines of a box are `height` lines of `width` characters. */
  lemma JoinedReferenceLength(ps: seq<Point>, b: Box)
    requires b.Width() >= 1 && b.Height() >= 1 && SingleCharGlyphs(ps)
    ensures |JoinLines(ReferenceLines(ps, b))| == Offset(b.Height() - 1, b.Width(), b.Width())
  {
    ReferenceLinesLayout(ps, b);
    JoinLinesLength(ReferenceLines(ps, b), b.Width());
  }

  /** Column `c` of line `r` of the joined reference lines shows the cell's glyph. */
  lemma JoinedReferenceCell(ps: seq<Point>, b: Box, r: int, c: int)
    requires b.Width() >= 1 && b.Height() >= 1 && SingleCharGlyphs(ps)
    requires 0 <= r < b.Height() && 0 <= c < b.Width()
    ensures Offset(r, c, b.Width()) < |JoinLines(ReferenceLines(ps, b))|
    ensures JoinLines(ReferenceLines(ps, b))[Offset(r, c, b.Width())] == CellChar(ps, b.minX + c, b.maxY - r)
  {
    ReferenceLinesLayout(ps, b);
    JoinLinesCell(ReferenceLines(ps, b), b.Width(), r, c);
  }

  /** Every line of the joined reference lines but the last ends in a newline. */
  lemma JoinedReferenceBreak(ps: seq<Point>, b: Box, r: int)
    requires b.Width() >= 1 && b.Height() >= 1 && SingleCharGlyphs(ps)
    requires 0 <= r < b.Height() - 1
    ensures Offset(r, b.Width(), b.Width()) < |JoinLines(ReferenceLines(ps, b))|
    ensures JoinLines(ReferenceLines(ps, b))[Offset(r, b.Width(), b.Width())] == '\n'
  {
    ReferenceLinesLayout(ps, b);
    JoinLinesBreak(ReferenceLines(ps, b), b.Width(), r);
  }

  /**
   * `art` draws the points in box `b` with one character per cell: it is
   * `height` lines of exactly `width` characters joined by newlines, the
   * character at column `c` of line `r` is the last glyph plotted at
   * x = min_x + c, y = max_y - r (a space where none was), and a newline
   * ends every line but the last.
   */
  predicate DrawsPoints(art: string, ps: seq<Point>, b: Box)
    requires b.Width() >= 1
  {
    && |art| == Offset(b.Height() - 1, b.Width(), b.Width())
    && (forall r, c :: 0 <= r < b.Height() && 0 <= c < b.Width() ==>
          Offset(r, c, b.Width()) < |art| && art[Offset(r, c, b.Width())] == CellChar(ps, b.minX + c, b.maxY - r))
    && (forall r :: 0 <= r < b.Height() - 1 ==>
          Offset(r, b.Width(), b.Width()) < |art| && art[Offset(r, b.Width(), b.Width())] == '\n')
  }

  lemma JoinedReferenceDraws(ps: seq<Point>, b: Box)
    requires b.Width() >= 1 && b.Height() >= 1 && SingleCharGlyphs(ps)
    ensures DrawsPoints(JoinLines(ReferenceLines(ps, b)), ps, b)
  {
    JoinedReferenceLength(ps, b);
    forall r, c | 0 <= r < b.Height() && 0 <= c < b.Width()
      ensures Offset(r, c, b.Width()) < |JoinLines(ReferenceLines(ps, b))|
      ensures JoinLines(ReferenceLines(ps, b))[Offset(r, c, b.Width())] == CellChar(ps, b.minX + c, b.maxY - r)
    {
      JoinedReferenceCell(ps, b, r, c);
    }
    forall r | 0 <= r < b.Height() - 1
      ensures Offset(r, b.Width(), b.Width()) < |JoinLines(ReferenceLines(ps, b))|
      ensures JoinLines(ReferenceLines(ps, b))[Offset(r, b.Width(), b.Width())] == '\n'
    {
      JoinedReferenceBreak(ps, b, r);
    }
  }

  /** With one-character glyphs the art draws every point in the bounding box. */
  lemma RenderLayout(ps: seq<Point>)
    requires |ps| > 0 && SingleCharGlyphs(ps)
    ensures Render(ps).Some? && DrawsPoints(Render(ps).value, ps, Bounds(ps))
  {
    RenderMatchesReference(ps);
    JoinedReferenceDraws(ps, Bounds(ps));
  }

  /** With glyphs that are never empty, every cell shows at least one character. */
  lemma CellGlyphIsNonEmpty(ps: seq<Point>, x: int, y: int)
    requires forall i :: 0 <= i < |ps| ==> ps[i].glyph != ""
    ensures CellGlyph(ps, x, y) != ""
  {
    LastGlyphIsLast(ps, x, y);
  }

  /**
   * The art of decoded points, whose glyphs are never empty, is a non-empty
   * string, so it is never mistaken for a failed rendering.
   */
  lemma RenderIsNonEmpty(ps: seq<Point>)
    requires |ps| > 0
    requires forall i :: 0 <= i < |ps| ==> ps[i].glyph != ""
    ensures Render(ps).Some? && Render(ps).value != ""
  {
    RenderMatchesReference(ps);
    JoinedReferenceIsNonEmpty(ps, Bounds(ps));
  }

  lemma JoinedReferenceIsNonEmpty(ps: seq<Point>, b: Box)
    requires b.Width() >= 1 && b.Height() >= 1
    requires forall i :: 0 <= i < |ps| ==> ps[i].glyph != ""
    ensures JoinLines(ReferenceLines(ps, b)) != ""
  {
    var lines := ReferenceLines(ps, b);
    var row := ReferenceRow(ps, b, 0);
    CellGlyphIsNonEmpty(ps, b.minX + b.Width() - 1, b.maxY);
    assert row[|row| - 1] != "";
    assert Concat(row) == Concat(row[..|row| - 1]) + row[|row| - 1];
    assert lines[0] == Concat(row);
    JoinLinesStartsWithFirst(lines);
  }

  /** Adding a value already present changes neither the minimum nor the maximum. */
  lemma MinMaxKeepDuplicate(s: seq<int>, v: int)
    requires exists i :: 0 <= i < |s| && s[i] == v
    ensures Min(s + [v]) == Min(s) && Max(s + [v]) == Max(s)
  {
    MinKeepsDuplicate(s, v);
    MaxKeepsDuplicate(s, v);
  }

  lemma MinKeepsDuplicate(s: seq<int>, v: int)
    requires exists i :: 0 <= i < |s| && s[i] == v
    ensures Min(s + [v]) == Min(s)
  {
    var t := s + [v];
    var m, m' := Min(s), Min(t);
    var a :| 0 <= a < |s| && s[a] == m;
    assert t[a] == m;
    var j :| 0 <= j < |t| && t[j] == m';
    if j < |s| {
      assert t[j] == s[j];
    }
  }

  lemma MaxKeepsDuplicate(s: seq<int>, v: int)
    requires exists i :: 0 <= i < |s| && s[i] == v
    ensures Max(s + [v]) == Max(s)
  {
    var t := s + [v];
    var m, m' := Max(s), Max(t);
    var a :| 0 <= a < |s| && s[a] == m;
    assert t[a] == m;
    var j :| 0 <= j < |t| && t[j] == m';
    if j < |s| {
      assert t[j] == s[j];
    }
  }

  /** A point on a spot already taken leaves the bounding box, and so the grid size, as it was. */
  lemma DuplicateKeepsBounds(ps: seq<Point>, q: Point)
    requires exists i :: 0 <= i < |ps| && At(ps[i], q.x, q.y)
    ensures Bounds(ps + [q]) == Bounds(ps)
  {
    var i :| 0 <= i < |ps| && At(ps[i], q.x, q.y);
    assert Xs(ps + [q]) == Xs(ps) + [q.x];
    assert Ys(ps + [q]) == Ys(ps) + [q.y];
    assert Xs(ps)[i] == q.x && Ys(ps)[i] == q.y;
    MinMaxKeepDuplicate(Xs(ps), q.x);
    MinMaxKeepDuplicate(Ys(ps), q.y);
  }

  predicate IsDiagonal(ps: seq<Point>) {
    |ps| == 3 && ps[0] == Point(0, 0, "A") && ps[1] == Point(1, 1, "B") && ps[2] == Point(-1, -1, "C")
  }

  /**
   * Three points on a diagonal: the highest on the first line, the lowest on
   * the last.  The points come in as a parameter pinned by `IsDiagonal` rather
   * than as a literal list, which keeps the solver from unfolding the whole
   * rendering of the literal.
   */
  lemma DiagonalExample(ps: seq<Point>)
    requires IsDiagonal(ps)
    ensures Render(ps) == Some("  B\n A \nC  ")
  {
    var b := DiagonalDraws(ps);
    DiagonalCells(ps);
    DiagonalArt(Render(ps).value, ps, b);
  }

  /** The diagonal's art has the layout of its 3 by 3 bounding box. */
  lemma DiagonalDraws(ps: seq<Point>) returns (b: Box)
    requires IsDiagonal(ps)
    ensures b == Box(-1, 1, -1, 1)
    ensures Render(ps).Some? && DrawsPoints(Render(ps).value, ps, b)
  {
    assert SingleCharGlyphs(ps);
    RenderLayout(ps);
    b := DiagonalBounds(ps);
  }

  /** Any text with the layout of points showing the diagonal's characters is the diagonal's art. */
  lemma DiagonalArt(art: string, ps: seq<Point>, b: Box)
    requires b == Box(-1, 1, -1, 1) && DrawsPoints(art, ps, b)
    requires forall x, y :: CellChar(ps, x, y) == DiagonalChar(x, y)
    ensures art == "  B\n A \nC  "
  {
    assert art[Offset(0, 0, 3)] == DiagonalChar(-1, 1);
    assert art[Offset(0, 1, 3)] == DiagonalChar(0, 1);
    assert art[Offset(0, 2, 3)] == DiagonalChar(1, 1);
    assert art[Offset(1, 0, 3)] == DiagonalChar(-1, 0);
    assert art[Offset(1, 1, 3)] == DiagonalChar(0, 0);
    assert art[Offset(1, 2, 3)] == DiagonalChar(1, 0);
    assert art[Offset(2, 0, 3)] == DiagonalChar(-1, -1);
    assert art[Offset(2, 1, 3)] == DiagonalChar(0, -1);
    assert art[Offset(2, 2, 3)] == DiagonalChar(1, -1);
    assert art[Offset(0, 3, 3)] == '\n';
    assert art[Offset(1, 3, 3)] == '\n';
    DiagonalChars(art);
  }

  lemma DiagonalChars(art: string)
    requires |art| == 11
    requires art[0] == ' ' && art[1] == ' ' && art[2] == 'B' && art[3] == '\n'
    requires art[4] == ' ' && art[5] == 'A' && art[6] == ' ' && art[7] == '\n'
    requires art[8] == 'C' && art[9] == ' ' && art[10] == ' '
    ensures art == "  B\n A \nC  "
  {
    assert art == [art[0], art[1], art[2], art[3], art[4], art[5], art[6], art[7], art[8], art[9], art[10]];
  }

  lemma DiagonalBounds(ps: seq<Point>) returns (b: Box)
    requires IsDiagonal(ps)
    ensures b == Bounds(ps) == Box(-1, 1, -1, 1)
  {
    b := Bounds(ps);
    BoundsAreTight(ps);
    assert b.Holds(ps[1]) && b.Holds(ps[2]);
  }

  /** What the diagonal shows at `(x, y)`. */
  function DiagonalChar(x: int, y: int): char {
    if x != y || x < -1 || x > 1 then ' ' else if x == 0 then 'A' else if x == 1 then 'B' else 'C'
  }

  lemma DiagonalCells(ps: seq<Point>)
    requires IsDiagonal(ps)
    ensures forall x, y :: CellChar(ps, x, y) == DiagonalChar(x, y)
  {
    forall x, y
      ensures CellChar(ps, x, y) == DiagonalChar(x, y)
    {
      DiagonalCell(ps, x, y);
    }
  }

  lemma DiagonalCell(ps: seq<Point>, x: int, y: int)
    requires IsDiagonal(ps)
    ensures CellChar(ps, x, y) == DiagonalChar(x, y)
  {
    LastGlyphIsLast(ps, x, y);
    if x == y && -1 <= x <= 1 {
      assert At(ps[if x == 0 then 0 else if x == 1 then 1 else 2], x, y);
    }
  }
}
