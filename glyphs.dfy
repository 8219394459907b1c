/**
 * Glyph stamping into the current frame of the selected layer (app.jsx
 * `applyText` and `stampNumber`). The font tables are parameters: a text
 * font maps characters to 7 rows of 5 `'0'`/`'1'` characters, the digit
 * table maps digit strings to 6 rows of 3.
 */
module Glyphs {
  import opened Options
  import opened Grid
  import opened Layers

  const CHAR_W: nat := 5
  const CHAR_H: nat := 7
  const SPACING: nat := 1
  /** Glyphs are drawn from row 1 down. */
  const TEXT_Y: nat := 1
  /** A space advances the cursor by 3 columns, a glyph or an unknown character by 6. */
  const SPACE_ADVANCE: nat := 3

  const DIGIT_COLS: nat := 3
  const DIGIT_ROWS: nat := 6
  /** Digits are stamped into the three right-most columns, from row 1 down. */
  const DIGIT_X: nat := WIDTH - DIGIT_COLS
  const DIGIT_Y: nat := 1

  type Bitmap = seq<string>
  type Font = map<char, Bitmap>

  /** A bitmap of `rows` rows, each of `cols` characters. */
  predicate Shaped(bm: Bitmap, rows: nat, cols: nat) {
    |bm| == rows && forall y :: 0 <= y < |bm| ==> |bm[y]| == cols
  }

  predicate FontShaped(font: Font) {
    forall ch :: ch in font ==> Shaped(font[ch], CHAR_H, CHAR_W)
  }

  /** Cell `(x, y)` of a bitmap is `'1'`; cells outside it are not. */
  predicate Ink(bm: Bitmap, x: int, y: int) {
    0 <= y < |bm| && 0 <= x < |bm[y]| && bm[y][x] == '1'
  }

  /** `ch.toUpperCase()` on the ASCII letters; other characters are kept. */
  function UpperAscii(ch: char): (r: char)
    ensures 'a' <= ch <= 'z' ==> 'A' <= r <= 'Z' && r as int == ch as int - 32
    ensures !('a' <= ch <= 'z') ==> r == ch
  {
    if 'a' <= ch <= 'z' then (ch as int - 32) as char else ch
  }

  /** `FONT5x7[ch] || FONT5x7[ch.toUpperCase()]` */
  function Lookup(font: Font, ch: char): (r: Option<Bitmap>)
    ensures r.Some? <==> ch in font || UpperAscii(ch) in font
    ensures r.Some? ==> r.value == if ch in font then font[ch] else font[UpperAscii(ch)]
  {
    if ch in font then Some(font[ch]) else if UpperAscii(ch) in font then Some(font[UpperAscii(ch)]) else None
  }

  /** A glyph drawn with its left column at `x`. */
  datatype Placement = Placement(x: int, glyph: Bitmap)

  /**
   * The glyphs `applyText` draws for `text` with the cursor at `cursor`:
   * spaces and unknown characters only advance the cursor, and layout stops
   * at the first glyph that would cross the right edge.
   */
  function Layout(font: Font, text: seq<char>, cursor: int): seq<Placement>
    decreases |text|
  {
    if text == [] then []
    else
      var ch := text[0];
      var bm := Lookup(font, ch);
      if ch == ' ' then Layout(font, text[1..], cursor + SPACE_ADVANCE)
      else if bm.None? then Layout(font, text[1..], cursor + CHAR_W + SPACING)
      else if cursor + CHAR_W > WIDTH then []
      else [Placement(cursor, bm.value)] + Layout(font, text[1..], cursor + CHAR_W + SPACING)
  }

  /** Some placed glyph inks global cell `(x, y)`. */
  predicate Covered(ps: seq<Placement>, x: int, y: int) {
    exists k :: 0 <= k < |ps| && Ink(ps[k].glyph, x - ps[k].x, y - TEXT_Y)
  }

  /** `g` with the glyphs of `ps` ORed in; ink that lands outside the grid is dropped. */
  function WithGlyphs(g: Grid, ps: seq<Placement>): (r: Grid)
    requires WellFormed(g)
    ensures WellFormed(r)
    ensures forall y, x :: 0 <= y < HEIGHT && 0 <= x < WIDTH ==> (r[y][x] <==> g[y][x] || Covered(ps, x, y))
  {
    seq(HEIGHT, y requires 0 <= y < HEIGHT => seq(WIDTH, x requires 0 <= x < WIDTH => g[y][x] || Covered(ps, x, y)))
  }

  /** The bitmap cells of `bm` placed at column `cx` are in `r`, on top of `g`. */
  ghost predicate StampedUpTo(r: Grid, g: Grid, bm: Bitmap, cx: int, rows: int, cols: int, y0: int, x0: int)
    requires WellFormed(r) && WellFormed(g)
  {
    forall y, x :: 0 <= y < HEIGHT && 0 <= x < WIDTH ==>
      (r[y][x] <==> (g[y][x] || StampedBefore(bm, x - cx, y - TEXT_Y, cols, y0, x0)))
  }

  /** Bitmap cell `(gx, gy)` is inked and comes before `(x0, y0)` in row-major order. */
  predicate StampedBefore(bm: Bitmap, gx: int, gy: int, cols: int, y0: int, x0: int) {
    0 <= gx < cols && (gy < y0 || (gy == y0 && gx < x0)) && Ink(bm, gx, gy)
  }

  lemma CoveredOne(q: Placement, x: int, y: int)
    ensures Covered([q], x, y) <==> Ink(q.glyph, x - q.x, y - TEXT_Y)
  {
    if Ink(q.glyph, x - q.x, y - TEXT_Y) {
      assert [q][0] == q;
    }
  }

  /** The inner double loop of `applyText`: `safeSet(grid, cx + x, 1 + y, true)` for every `'1'` of `bm`. */
  method StampGlyph(g: Grid, bm: Bitmap, cx: int) returns (r: Grid)
    requires WellFormed(g) && Shaped(bm, CHAR_H, CHAR_W)
    ensures WellFormed(r)
    ensures r == WithGlyphs(g, [Placement(cx, bm)])
  {
    r := g;
    var y := 0;
    while y < CHAR_H
      invariant 0 <= y <= CHAR_H && WellFormed(r)
      invariant StampedUpTo(r, g, bm, cx, CHAR_H, CHAR_W, y, 0)
    {
      var x := 0;
      while x < CHAR_W
        invariant 0 <= x <= CHAR_W && WellFormed(r)
        invariant StampedUpTo(r, g, bm, cx, CHAR_H, CHAR_W, y, x)
      {
        if bm[y][x] == '1' {
          r := SafeSet(r, cx + x, TEXT_Y + y, true);
        }
        x := x + 1;
      }
      y := y + 1;
    }
    forall y, x | 0 <= y < HEIGHT && 0 <= x < WIDTH ensures r[y][x] == WithGlyphs(g, [Placement(cx, bm)])[y][x] {
      CoveredOne(Placement(cx, bm), x, y);
    }
    SameGrid(r, WithGlyphs(g, [Placement(cx, bm)]));
  }

  /** Two well-formed grids with the same cells are equal. */
  lemma SameGrid(a: Grid, b: Grid)
    requires WellFormed(a) && WellFormed(b)
    requires forall y, x :: 0 <= y < HEIGHT && 0 <= x < WIDTH ==> a[y][x] == b[y][x]
    ensures a == b
  {
    forall y | 0 <= y < HEIGHT ensures a[y] == b[y] {
      assert forall x :: 0 <= x < WIDTH ==> a[y][x] == b[y][x];
    }
  }

  lemma WithGlyphsAppend(g: Grid, ps: seq<Placement>, q: Placement)
    requires WellFormed(g)
    ensures WithGlyphs(WithGlyphs(g, ps), [q]) == WithGlyphs(g, ps + [q])
  {
    var a := WithGlyphs(WithGlyphs(g, ps), [q]);
    var b := WithGlyphs(g, ps + [q]);
    forall y, x | 0 <= y < HEIGHT && 0 <= x < WIDTH ensures a[y][x] == b[y][x] {
      if Covered(ps + [q], x, y) {
        var k :| 0 <= k < |ps + [q]| && Ink((ps + [q])[k].glyph, x - (ps + [q])[k].x, y - TEXT_Y);
        if k < |ps| {
          assert Covered(ps, x, y);
        } else {
          assert Covered([q], x, y);
        }
      }
      if Covered(ps, x, y) {
        var k :| 0 <= k < |ps| && Ink(ps[k].glyph, x - ps[k].x, y - TEXT_Y);
        assert (ps + [q])[k] == ps[k];
      }
      if Covered([q], x, y) {
        assert (ps + [q])[|ps|] == q;
      }
    }
    SameGrid(a, b);
  }

  lemma LayoutSpace(font: Font, text: seq<char>, cursor: int)
    requires text != [] && text[0] == ' '
    ensures Layout(font, text, cursor) == Layout(font, text[1..], cursor + SPACE_ADVANCE)
  {
  }

  lemma LayoutUnknown(font: Font, text: seq<char>, cursor: int)
    requires text != [] && text[0] != ' ' && Lookup(font, text[0]).None?
    ensures Layout(font, text, cursor) == Layout(font, text[1..], cursor + CHAR_W + SPACING)
  {
  }

  lemma LayoutStop(font: Font, text: seq<char>, cursor: int)
    requires text != [] && text[0] != ' ' && Lookup(font, text[0]).Some? && cursor + CHAR_W > WIDTH
    ensures Layout(font, text, cursor) == []
  {
  }

  lemma LayoutGlyph(font: Font, text: seq<char>, cursor: int)
    requires text != [] && text[0] != ' ' && Lookup(font, text[0]).Some? && cursor + CHAR_W <= WIDTH
    ensures Layout(font, text, cursor) ==
      [Placement(cursor, Lookup(font, text[0]).value)] + Layout(font, text[1..], cursor + CHAR_W + SPACING)
  {
  }

  /** `applyText`'s update of one grid: the glyphs of `Layout(font, text, 0)` ORed in. */
  method ApplyTextToGrid(g: Grid, font: Font, text: seq<char>) returns (r: Grid)
    requires WellFormed(g) && FontShaped(font)
    ensures r == WithGlyphs(g, Layout(font, text, 0))
  {
    r := g;
    SameGrid(r, WithGlyphs(g, []));
    var cursorX := 0;
    ghost var done: seq<Placement> := [];
    var i := 0;
    while i < |text|
      invariant 0 <= i <= |text| && WellFormed(r)
      invariant Layout(font, text, 0) == done + Layout(font, text[i..], cursorX)
      invariant r == WithGlyphs(g, done)
    {
      var ch := text[i];
      var bm := Lookup(font, ch);
      assert text[i..][0] == ch && text[i..][1..] == text[i + 1..];
      if ch == ' ' {
        LayoutSpace(font, text[i..], cursorX);
        cursorX := cursorX + SPACE_ADVANCE;
        i := i + 1;
        continue;
      }
      if bm.None? {
        LayoutUnknown(font, text[i..], cursorX);
        cursorX := cursorX + CHAR_W + SPACING;
        i := i + 1;
        continue;
      }
      if cursorX + CHAR_W > WIDTH {
        LayoutStop(font, text[i..], cursorX);
        assert done == done + [];
        break;
      }
      LayoutGlyph(font, text[i..], cursorX);
      r := StampGlyph(r, bm.value, cursorX);
      WithGlyphsAppend(g, done, Placement(cursorX, bm.value));
      done := done + [Placement(cursorX, bm.value)];
      cursorX := cursorX + CHAR_W + SPACING;
      i := i + 1;
    }
    if i == |text| {
      assert text[i..] == [];
      assert done + [] == done;
    }
  }

  /** Every glyph `Layout` places lies wholly inside the grid's columns, at least 6 columns after the previous one. */
  lemma {:induction false} LayoutInBounds(font: Font, text: seq<char>, cursor: int)
    ensures InColumns(Layout(font, text, cursor), cursor)
    ensures Spaced(Layout(font, text, cursor))
    decreases |text|
  {
    if text != [] {
      var ch := text[0];
      if ch == ' ' {
        LayoutSpace(font, text, cursor);
        LayoutInBounds(font, text[1..], cursor + SPACE_ADVANCE);
      } else if Lookup(font, ch).None? {
        LayoutUnknown(font, text, cursor);
        LayoutInBounds(font, text[1..], cursor + CHAR_W + SPACING);
      } else if cursor + CHAR_W <= WIDTH {
        LayoutGlyph(font, text, cursor);
        LayoutInBounds(font, text[1..], cursor + CHAR_W + SPACING);
        ConsInBounds(Placement(cursor, Lookup(font, ch).value), Layout(font, text[1..], cursor + CHAR_W + SPACING), cursor);
      } else {
        LayoutStop(font, text, cursor);
      }
    }
  }

  lemma ConsInBounds(pl: Placement, rest: seq<Placement>, cursor: int)
    requires pl.x == cursor && cursor + CHAR_W <= WIDTH
    requires InColumns(rest, cursor + CHAR_W + SPACING) && Spaced(rest)
    ensures InColumns([pl] + rest, cursor) && Spaced([pl] + rest)
  {
    var ps := [pl] + rest;
    forall k | 0 < k < |ps| ensures ps[k - 1].x + CHAR_W + SPACING <= ps[k].x {
      assert ps[k] == rest[k - 1];
      if k > 1 {
        assert ps[k - 1] == rest[k - 2];
      }
    }
    forall k | 0 <= k < |ps| ensures cursor <= ps[k].x && ps[k].x + CHAR_W <= WIDTH {
      if k > 0 {
        assert ps[k] == rest[k - 1];
      }
    }
  }

  /** Every placement starts at or after `cursor` and ends inside the grid. */
  predicate InColumns(ps: seq<Placement>, cursor: int) {
    forall k :: 0 <= k < |ps| ==> cursor <= ps[k].x && ps[k].x + CHAR_W <= WIDTH
  }

  /** Each placement starts at least a glyph and a gap after the previous one. */
  predicate Spaced(ps: seq<Placement>) {
    forall k :: 0 < k < |ps| ==> ps[k - 1].x + CHAR_W + SPACING <= ps[k].x
  }

  /** At most four glyphs fit on the 27-column grid. */
  lemma AtMostFourGlyphs(font: Font, text: seq<char>, cursor: int)
    requires 0 <= cursor
    ensures |Layout(font, text, cursor)| <= 4
  {
    var ps := Layout(font, text, cursor);
    LayoutInBounds(font, text, cursor);
    if |ps| >= 1 {
      SpacedReach(ps, cursor);
    }
  }

  /** The last of `n` spaced placements starts at least `6 * (n - 1)` columns after `cursor`. */
  lemma {:induction false} SpacedReach(ps: seq<Placement>, cursor: int)
    requires 1 <= |ps| && InColumns(ps, cursor) && Spaced(ps)
    ensures ps[|ps| - 1].x >= cursor + (CHAR_W + SPACING) * (|ps| - 1)
  {
    if |ps| > 1 {
      var init := ps[..|ps| - 1];
      assert InColumns(init, cursor) && Spaced(init);
      SpacedReach(init, cursor);
      assert init[|init| - 1] == ps[|ps| - 2];
    }
  }

  /**
   * No ink of a placed glyph is dropped: every `'1'` lands inside the grid,
   * on rows 1 to 7.
   */
  lemma PlacedInkInGrid(font: Font, text: seq<char>, k: int, gx: int, gy: int)
    requires FontShaped(font)
    requires 0 <= k < |Layout(font, text, 0)| && Ink(Layout(font, text, 0)[k].glyph, gx, gy)
    ensures InBounds(Layout(font, text, 0)[k].x + gx, TEXT_Y + gy)
    ensures TEXT_Y <= TEXT_Y + gy < TEXT_Y + CHAR_H
  {
    var ps := Layout(font, text, 0);
    LayoutGlyphsFromFont(font, text, 0);
    LayoutInBounds(font, text, 0);
    assert AllShaped(ps) && InColumns(ps, 0);
  }

  predicate AllShaped(ps: seq<Placement>) {
    forall k :: 0 <= k < |ps| ==> Shaped(ps[k].glyph, CHAR_H, CHAR_W)
  }

  /** `Layout` only places glyphs taken from the font. */
  lemma {:induction false} LayoutGlyphsFromFont(font: Font, text: seq<char>, cursor: int)
    requires FontShaped(font)
    ensures AllShaped(Layout(font, text, cursor))
    decreases |text|
  {
    if text != [] {
      var ch := text[0];
      if ch == ' ' {
        LayoutSpace(font, text, cursor);
        LayoutGlyphsFromFont(font, text[1..], cursor + SPACE_ADVANCE);
      } else if Lookup(font, ch).None? {
        LayoutUnknown(font, text, cursor);
        LayoutGlyphsFromFont(font, text[1..], cursor + CHAR_W + SPACING);
      } else if cursor + CHAR_W <= WIDTH {
        LayoutGlyph(font, text, cursor);
        LayoutGlyphsFromFont(font, text[1..], cursor + CHAR_W + SPACING);
      } else {
        LayoutStop(font, text, cursor);
      }
    }
  }

  /** Applying text twice draws nothing new: the stamping only ORs ink in. */
  lemma WithGlyphsIdempotent(g: Grid, ps: seq<Placement>)
    requires WellFormed(g)
    ensures WithGlyphs(WithGlyphs(g, ps), ps) == WithGlyphs(g, ps)
  {
    SameGrid(WithGlyphs(WithGlyphs(g, ps), ps), WithGlyphs(g, ps));
  }

  // ---------------------------------------------------------------------------
  // Digits
  // ---------------------------------------------------------------------------

  type Digits = map<string, Bitmap>

  predicate DigitsShaped(digits: Digits) {
    forall d :: d in digits ==> Shaped(digits[d], DIGIT_ROWS, DIGIT_COLS)
  }

  /** Inside the digit area, cell `(x, y)` shows `pat`; elsewhere `g` is kept. */
  function WithDigit(g: Grid, pat: Bitmap): (r: Grid)
    requires WellFormed(g) && Shaped(pat, DIGIT_ROWS, DIGIT_COLS)
    ensures WellFormed(r)
    ensures forall y, x :: 0 <= y < HEIGHT && 0 <= x < WIDTH ==>
      r[y][x] == if InDigitArea(x, y) then pat[y - DIGIT_Y][x - DIGIT_X] == '1' else g[y][x]
  {
    seq(HEIGHT, y requires 0 <= y < HEIGHT => seq(WIDTH, x requires 0 <= x < WIDTH =>
      if InDigitArea(x, y) then pat[y - DIGIT_Y][x - DIGIT_X] == '1' else g[y][x]))
  }

  predicate InDigitArea(x: int, y: int) {
    DIGIT_X <= x < DIGIT_X + DIGIT_COLS && DIGIT_Y <= y < DIGIT_Y + DIGIT_ROWS
  }

  /** The cells before `(x0, y0)` of the digit area, in row-major order, are overwritten from `pat`. */
  ghost predicate DigitUpTo(r: Grid, g: Grid, pat: Bitmap, y0: int, x0: int)
    requires WellFormed(r) && WellFormed(g) && Shaped(pat, DIGIT_ROWS, DIGIT_COLS)
  {
    forall y, x :: 0 <= y < HEIGHT && 0 <= x < WIDTH ==>
      r[y][x] == if InDigitArea(x, y) && (y - DIGIT_Y < y0 || (y - DIGIT_Y == y0 && x - DIGIT_X < x0))
                 then pat[y - DIGIT_Y][x - DIGIT_X] == '1' else g[y][x]
  }

  /** `stampNumber`'s update of one grid: the 3 x 6 pattern written over the right edge. */
  method StampDigit(g: Grid, pat: Bitmap) returns (r: Grid)
    requires WellFormed(g) && Shaped(pat, DIGIT_ROWS, DIGIT_COLS)
    ensures r == WithDigit(g, pat)
  {
    r := g;
    var y := 0;
    while y < DIGIT_ROWS
      invariant 0 <= y <= DIGIT_ROWS && WellFormed(r)
      invariant DigitUpTo(r, g, pat, y, 0)
    {
      var x := 0;
      while x < DIGIT_COLS
        invariant 0 <= x <= DIGIT_COLS && WellFormed(r)
        invariant DigitUpTo(r, g, pat, y, x)
      {
        var on := pat[y][x] == "1"[0];
        var gx, gy := DIGIT_X + x, DIGIT_Y + y;
        if gx >= 0 && gy >= 0 && gx < WIDTH && gy < HEIGHT {
          r := r[gy := r[gy][gx := on]];
        }
        x := x + 1;
      }
      y := y + 1;
    }
    SameGrid(r, WithDigit(g, pat));
  }

  /** The last digit stamped wins. */
  lemma LastDigitWins(g: Grid, p1: Bitmap, p2: Bitmap)
    requires WellFormed(g) && Shaped(p1, DIGIT_ROWS, DIGIT_COLS) && Shaped(p2, DIGIT_ROWS, DIGIT_COLS)
    ensures WithDigit(WithDigit(g, p1), p2) == WithDigit(g, p2)
  {
    SameGrid(WithDigit(WithDigit(g, p1), p2), WithDigit(g, p2));
  }

  // ---------------------------------------------------------------------------
  // On the project
  // ---------------------------------------------------------------------------

  /** The layer `getLayer(selectedLayerId)` finds, when its kind is `kind`. */
  function SelectedOfKind(p: Project, kind: string): (r: Option<nat>)
    ensures r.Some? ==> r.value < |p.layers| && p.layers[r.value].kind == kind
    ensures r.Some? <==> FindLayer(p.layers, p.selectedLayerId).Some?
                          && p.layers[FindLayer(p.layers, p.selectedLayerId).value].kind == kind
  {
    match FindLayer(p.layers, p.selectedLayerId)
    case None => None
    case Some(i) => if p.layers[i].kind == kind then Some(i) else None
  }

  /** `setLayer(id, L => L with frames[current] := edit(L.frames[current]))` for an edit given per grid. */
  function EditCurrent(p: Project, id: string, edited: seq<Grid>): (r: Project)
    requires ProjectValid(p) && |edited| == |p.layers|
    requires forall i :: 0 <= i < |p.layers| ==> WellFormed(edited[i])
    ensures ProjectValid(r) && r.(layers := p.layers) == p && |r.layers| == |p.layers|
    ensures forall i :: 0 <= i < |p.layers| ==>
      r.layers[i] == if p.layers[i].id == id then p.layers[i].(frames := p.layers[i].frames[p.current := edited[i]]) else p.layers[i]
  {
    p.(layers := seq(|p.layers|, i requires 0 <= i < |p.layers| =>
      if p.layers[i].id == id then p.layers[i].(frames := p.layers[i].frames[p.current := edited[i]]) else p.layers[i]))
  }

  /** Layer `i` has the id of the selected layer, which is of kind `kind`, so `setLayer` edits it. */
  predicate Targeted(p: Project, kind: string, i: int)
    requires 0 <= i < |p.layers|
  {
    SelectedOfKind(p, kind).Some? && p.layers[i].id == p.layers[SelectedOfKind(p, kind).value].id
  }

  /**
   * `applyText(text)`: on a selected text layer, and for non-empty text only.
   * Each targeted layer gets the laid-out glyphs ORed into its current frame;
   * every other frame and every other layer is left alone.
   */
  function ApplyText(p: Project, font: Font, text: seq<char>): (r: Project)
    requires ProjectValid(p)
    ensures ProjectValid(r)
    ensures (SelectedOfKind(p, "text").None? || text == []) ==> r == p
    ensures r.(layers := p.layers) == p && |r.layers| == |p.layers|
    ensures forall i :: 0 <= i < |p.layers| && !(Targeted(p, "text", i) && text != []) ==> r.layers[i] == p.layers[i]
    ensures forall i :: 0 <= i < |p.layers| && Targeted(p, "text", i) && text != [] ==>
      && r.layers[i] == p.layers[i].(frames := r.layers[i].frames)
      && (forall j :: 0 <= j < p.framesCount && j != p.current ==> r.layers[i].frames[j] == p.layers[i].frames[j])
      && (forall y, x :: 0 <= y < HEIGHT && 0 <= x < WIDTH ==>
            (r.layers[i].frames[p.current][y][x] <==> p.layers[i].frames[p.current][y][x] || Covered(Layout(font, text, 0), x, y)))
  {
    match SelectedOfKind(p, "text")
    case None => p
    case Some(s) =>
      if text == [] then p
      else
        var ps := Layout(font, text, 0);
        EditCurrent(p, p.layers[s].id, seq(|p.layers|, i requires 0 <= i < |p.layers| => WithGlyphs(p.layers[i].frames[p.current], ps)))
  }

  /**
   * `stampNumber(d)`: on a selected number layer, and for a digit the table
   * has. Each targeted layer's current frame shows the digit in the digit
   * area; every other cell, frame and layer is left alone.
   */
  function StampNumber(p: Project, digits: Digits, d: string): (r: Project)
    requires ProjectValid(p) && DigitsShaped(digits)
    ensures ProjectValid(r)
    ensures (SelectedOfKind(p, "number").None? || d !in digits) ==> r == p
    ensures r.(layers := p.layers) == p && |r.layers| == |p.layers|
    ensures forall i :: 0 <= i < |p.layers| && !(Targeted(p, "number", i) && d in digits) ==> r.layers[i] == p.layers[i]
    ensures forall i :: 0 <= i < |p.layers| && Targeted(p, "number", i) && d in digits ==>
      && r.layers[i] == p.layers[i].(frames := r.layers[i].frames)
      && (forall j :: 0 <= j < p.framesCount && j != p.current ==> r.layers[i].frames[j] == p.layers[i].frames[j])
      && (forall y, x :: 0 <= y < HEIGHT && 0 <= x < WIDTH ==>
            r.layers[i].frames[p.current][y][x] ==
              if InDigitArea(x, y) then digits[d][y - DIGIT_Y][x - DIGIT_X] == '1' else p.layers[i].frames[p.current][y][x])
  {
    match SelectedOfKind(p, "number")
    case None => p
    case Some(s) =>
      if d !in digits then p
      else
        EditCurrent(p, p.layers[s].id, seq(|p.layers|, i requires 0 <= i < |p.layers| => WithDigit(p.layers[i].frames[p.current], digits[d])))
  }

  /** Stamping a digit on a number layer shows exactly that digit in the area, and leaves the rest of the frame alone. */
  lemma StampNumberShows(p: Project, digits: Digits, d: string, x: int, y: int)
    requires ProjectValid(p) && DigitsShaped(digits) && d in digits
    requires SelectedOfKind(p, "number").Some? && InBounds(x, y)
    ensures var s := SelectedOfKind(p, "number").value;
      var g := StampNumber(p, digits, d).layers[s].frames[p.current];
      g[y][x] == if InDigitArea(x, y) then digits[d][y - DIGIT_Y][x - DIGIT_X] == '1' else p.layers[s].frames[p.current][y][x]
  {
  }

  /** Applying the same text twice is the same as applying it once. */
  lemma ApplyTextIdempotent(p: Project, font: Font, text: seq<char>)
    requires ProjectValid(p)
    ensures ApplyText(ApplyText(p, font, text), font, text) == ApplyText(p, font, text)
  {
    var q := ApplyText(p, font, text);
    match SelectedOfKind(p, "text")
    case None =>
    case Some(s) =>
      if text != [] {
        assert FindLayer(q.layers, q.selectedLayerId) == FindLayer(p.layers, p.selectedLayerId) by {
          FindLayerSameIds(p.layers, q.layers, p.selectedLayerId);
        }
        var ps := Layout(font, text, 0);
        var r := ApplyText(q, font, text);
        forall i | 0 <= i < |p.layers| ensures r.layers[i] == q.layers[i] {
          if p.layers[i].id == p.layers[s].id {
            WithGlyphsIdempotent(p.layers[i].frames[p.current], ps);
            assert r.layers[i].frames == q.layers[i].frames;
          }
        }
      }
  }

  /** `FindLayer` sees only the ids. */
  lemma {:induction false} FindLayerSameIds(a: seq<Layer>, b: seq<Layer>, id: Option<string>)
    requires |a| == |b| && forall i :: 0 <= i < |a| ==> a[i].id == b[i].id
    ensures FindLayer(a, id) == FindLayer(b, id)
    decreases |a|
  {
    if |a| > 0 {
      FindLayerSameIds(a[1..], b[1..], id);
    }
  }
}
