/**
 * The compositor (app.jsx `mergeFrame`): every visible layer's grid and
 * overflow points, moved by the layer's offset at the frame, are ORed into a
 * fresh grid; writes that land outside the grid are dropped by `safeSet`.
 */
module Compositor {
  import opened Grid
  import opened Keyframes
  import opened Layers

  /** `l.framesExt?.[fi] || []` */
  function ExtAt(l: Layer, fi: int): seq<Point> {
    if 0 <= fi < |l.framesExt| then l.framesExt[fi] else []
  }

  /** The frame data `mergeFrame(fi)` reads exists for every visible layer. */
  predicate CanMerge(ls: seq<Layer>, fi: int) {
    forall i :: 0 <= i < |ls| && ls[i].visible ==> 0 <= fi < |ls[i].frames| && WellFormed(ls[i].frames[fi])
  }

  /** Global cell `(x, y)` receives ink from grid `g` and overflow list `ext` placed at offset `off`. */
  predicate Covers(g: Grid, ext: seq<Point>, off: Point, x: int, y: int)
    requires WellFormed(g)
  {
    var lx := x - off.x;
    var ly := y - off.y;
    (InBounds(lx, ly) && g[ly][lx]) || Point(lx, ly) in ext
  }

  /** Layer `l` lights global cell `(x, y)` at frame `fi`. */
  predicate LayerCovers(l: Layer, fi: int, x: int, y: int)
    requires l.visible ==> 0 <= fi < |l.frames| && WellFormed(l.frames[fi])
  {
    l.visible && Covers(l.frames[fi], ExtAt(l, fi), OffsetAt(l.keyframes, l.offsets, fi), x, y)
  }

  /** Some layer lights global cell `(x, y)` at frame `fi`. */
  predicate Lit(ls: seq<Layer>, fi: int, x: int, y: int)
    requires CanMerge(ls, fi)
  {
    exists i :: 0 <= i < |ls| && LayerCovers(ls[i], fi, x, y)
  }

  /** The inner `place(src, off)` of `mergeFrame`: ORs `src`, moved by `off`, into `out`. */
  method Place(out: Grid, src: Grid, off: Point) returns (r: Grid)
    requires WellFormed(out) && WellFormed(src)
    ensures WellFormed(r)
    ensures forall y, x :: 0 <= y < HEIGHT && 0 <= x < WIDTH ==>
      (r[y][x] <==> out[y][x] || (InBounds(x - off.x, y - off.y) && src[y - off.y][x - off.x]))
  {
    r := out;
    var sy := 0;
    while sy < HEIGHT
      invariant 0 <= sy <= HEIGHT && WellFormed(r)
      invariant forall y, x :: 0 <= y < HEIGHT && 0 <= x < WIDTH ==>
        (r[y][x] <==> out[y][x] || (InBounds(x - off.x, y - off.y) && y - off.y < sy && src[y - off.y][x - off.x]))
    {
      var sx := 0;
      while sx < WIDTH
        invariant 0 <= sx <= WIDTH && WellFormed(r)
        invariant forall y, x :: 0 <= y < HEIGHT && 0 <= x < WIDTH ==>
          (r[y][x] <==> out[y][x] || (InBounds(x - off.x, y - off.y) &&
                                       (y - off.y < sy || (y - off.y == sy && x - off.x < sx)) &&
                                       src[y - off.y][x - off.x]))
      {
        if src[sy][sx] {
          r := SafeSet(r, sx + off.x, sy + off.y, true);
        }
        sx := sx + 1;
      }
      sy := sy + 1;
    }
  }

  /** The overflow loop of `mergeFrame`: each point `(lx, ly)` lights `(lx + off.x, ly + off.y)` when that cell exists. */
  method PlaceOverflow(out: Grid, ext: seq<Point>, off: Point) returns (r: Grid)
    requires WellFormed(out)
    ensures WellFormed(r)
    ensures forall y, x :: 0 <= y < HEIGHT && 0 <= x < WIDTH ==>
      (r[y][x] <==> out[y][x] || Point(x - off.x, y - off.y) in ext)
  {
    r := out;
    var k := 0;
    while k < |ext|
      invariant 0 <= k <= |ext| && WellFormed(r)
      invariant forall y, x :: 0 <= y < HEIGHT && 0 <= x < WIDTH ==>
        (r[y][x] <==> out[y][x] || Point(x - off.x, y - off.y) in ext[..k])
    {
      assert ext[..k + 1] == ext[..k] + [ext[k]];
      r := SafeSet(r, ext[k].x + off.x, ext[k].y + off.y, true);
      k := k + 1;
    }
    assert ext[..k] == ext;
  }

  /** `mergeFrame(fi)`: a cell of the result is lit exactly when some visible layer lights it. */
  method MergeFrame(ls: seq<Layer>, fi: int) returns (out: Grid)
    requires CanMerge(ls, fi)
    ensures WellFormed(out)
    ensures forall y, x :: 0 <= y < HEIGHT && 0 <= x < WIDTH ==> (out[y][x] <==> Lit(ls, fi, x, y))
  {
    out := EmptyGrid();
    var i := 0;
    while i < |ls|
      invariant 0 <= i <= |ls| && WellFormed(out)
      invariant forall y, x :: 0 <= y < HEIGHT && 0 <= x < WIDTH ==>
        (out[y][x] <==> exists j :: 0 <= j < i && LayerCovers(ls[j], fi, x, y))
    {
      var l := ls[i];
      if l.visible {
        var off := OffsetAt(l.keyframes, l.offsets, fi);
        var placed := Place(out, l.frames[fi], off);
        var next := PlaceOverflow(placed, ExtAt(l, fi), off);
        assert forall y, x :: 0 <= y < HEIGHT && 0 <= x < WIDTH ==>
          (next[y][x] <==> out[y][x] || LayerCovers(l, fi, x, y));
        out := next;
      }
      i := i + 1;
    }
  }

  /** Two layer lists with the same visible layers give the same composite. */
  lemma LitSameVisible(ls1: seq<Layer>, ls2: seq<Layer>, fi: int, x: int, y: int)
    requires CanMerge(ls1, fi) && CanMerge(ls2, fi)
    requires forall l: Layer :: l.visible ==> (l in ls1 <==> l in ls2)
    ensures Lit(ls1, fi, x, y) <==> Lit(ls2, fi, x, y)
  {
    if Lit(ls1, fi, x, y) {
      var i :| 0 <= i < |ls1| && LayerCovers(ls1[i], fi, x, y);
      assert ls1[i] in ls2;
      var j :| 0 <= j < |ls2| && ls2[j] == ls1[i];
    }
    if Lit(ls2, fi, x, y) {
      var j :| 0 <= j < |ls2| && LayerCovers(ls2[j], fi, x, y);
      assert ls2[j] in ls1;
      var i :| 0 <= i < |ls1| && ls1[i] == ls2[j];
    }
  }

  /** The composite does not depend on the order of the layers (nor on repeated layers). */
  lemma LitOrderIndependent(ls1: seq<Layer>, ls2: seq<Layer>, fi: int, x: int, y: int)
    requires CanMerge(ls1, fi) && CanMerge(ls2, fi)
    requires forall l :: l in ls1 <==> l in ls2
    ensures Lit(ls1, fi, x, y) <==> Lit(ls2, fi, x, y)
  {
    LitSameVisible(ls1, ls2, fi, x, y);
  }

  /** A hidden layer, wherever it is inserted, changes no cell of the composite. */
  lemma LitIgnoresHidden(ls: seq<Layer>, h: Layer, k: nat, fi: int, x: int, y: int)
    requires CanMerge(ls, fi) && !h.visible && k <= |ls|
    ensures CanMerge(ls[..k] + [h] + ls[k..], fi)
    ensures Lit(ls[..k] + [h] + ls[k..], fi, x, y) <==> Lit(ls, fi, x, y)
  {
    var ls2 := ls[..k] + [h] + ls[k..];
    assert ls == ls[..k] + ls[k..];
    assert forall l :: l in ls2 <==> l in ls || l == h;
    assert CanMerge(ls2, fi) by {
      forall i | 0 <= i < |ls2| && ls2[i].visible
        ensures 0 <= fi < |ls2[i].frames| && WellFormed(ls2[i].frames[fi])
      {
        assert ls2[i] in ls;
      }
    }
    LitSameVisible(ls2, ls, fi, x, y);
  }

  /**
   * Painting a cell of the grid with a visible layer lights it in the
   * composite of the current frame, whether the stroke went into the layer's
   * grid or into its overflow list.
   */
  lemma PaintLightsCell(p: Project, i: nat, gx: int, gy: int)
    requires ProjectValid(p) && i < |p.layers| && p.layers[i].visible && InBounds(gx, gy)
    ensures var r := PaintAtGlobal(p, p.layers[i].id, gx, gy, true);
      CanMerge(r.layers, r.current) && Lit(r.layers, r.current, gx, gy)
  {
    var r := PaintAtGlobal(p, p.layers[i].id, gx, gy, true);
    var l := p.layers[i];
    assert LayerShaped(l, p.framesCount);
    assert forall j :: 0 <= j < |r.layers| ==> LayerShaped(r.layers[j], r.framesCount);
    var off := OffsetAt(l.keyframes, l.offsets, p.current);
    PaintedLayer(p, i, gx, gy, true);
    var m := r.layers[i];
    var lx, ly := gx - off.x, gy - off.y;
    PaintLocalCovers(l, p.current, lx, ly, off);
    assert m.keyframes == l.keyframes && m.offsets == l.offsets;
    assert LayerCovers(m, p.current, gx, gy);
  }

  /** The painted layer is the local paint at the stroke's position relative to the layer's offset. */
  lemma PaintedLayer(p: Project, i: nat, gx: int, gy: int, value: bool)
    requires ProjectValid(p) && i < |p.layers|
    ensures var l := p.layers[i]; var off := OffsetAt(l.keyframes, l.offsets, p.current);
      LayerShaped(l, p.framesCount) &&
      PaintAtGlobal(p, l.id, gx, gy, value).layers[i] == PaintLocal(l, p.current, gx - off.x, gy - off.y, value)
  {
    var l := p.layers[i];
    assert LayerShaped(l, p.framesCount);
    assert PaintAtGlobal(p, l.id, gx, gy, value).layers[i] == PaintLayer(l, p.current, gx, gy, value);
    PaintLayerUnfold(l, p.current, gx, gy, value);
  }

  lemma PaintLayerUnfold(l: Layer, c: int, gx: int, gy: int, value: bool)
    requires Aligned(l) && 0 <= c < |l.frames| && FramesWellFormed(l)
    ensures var off := OffsetAt(l.keyframes, l.offsets, c);
      PaintLayer(l, c, gx, gy, value) == PaintLocal(l, c, gx - off.x, gy - off.y, value)
  {
  }

  /** After a local paint at `(lx, ly)`, the layer placed at `off` covers `(lx + off.x, ly + off.y)`. */
  lemma PaintLocalCovers(l: Layer, c: int, lx: int, ly: int, off: Point)
    requires Aligned(l) && 0 <= c < |l.frames| && FramesWellFormed(l)
    ensures var m := PaintLocal(l, c, lx, ly, true);
      Covers(m.frames[c], ExtAt(m, c), off, lx + off.x, ly + off.y)
  {
    var m := PaintLocal(l, c, lx, ly, true);
    if !InBounds(lx, ly) {
      assert multiset(m.framesExt[c])[Point(lx, ly)] > 0;
    }
  }

  /** Every overflow point lies outside the local grid, as painting puts only such points there. */
  predicate OverflowOutside(ext: seq<Point>) {
    forall q :: q in ext ==> !InBounds(q.x, q.y)
  }

  /** Painting keeps the overflow points of the current frame outside the local grid. */
  lemma PaintKeepsOverflowOutside(p: Project, i: nat, gx: int, gy: int, value: bool)
    requires ProjectValid(p) && i < |p.layers| && OverflowOutside(p.layers[i].framesExt[p.current])
    ensures var r := PaintAtGlobal(p, p.layers[i].id, gx, gy, value);
      OverflowOutside(r.layers[i].framesExt[r.current])
  {
    var r := PaintAtGlobal(p, p.layers[i].id, gx, gy, value);
    var l := p.layers[i];
    assert LayerShaped(l, p.framesCount);
    var off := OffsetAt(l.keyframes, l.offsets, p.current);
    PaintedLayer(p, i, gx, gy, value);
    var m := r.layers[i];
    var ext := l.framesExt[p.current];
    forall q | q in m.framesExt[p.current] ensures !InBounds(q.x, q.y) {
      if !InBounds(gx - off.x, gy - off.y) {
        assert multiset(m.framesExt[p.current])[q] > 0;
        if q != Point(gx - off.x, gy - off.y) {
          assert q in multiset(ext);
        }
      }
    }
  }

  /**
   * Erasing a cell removes the erasing layer's ink from it, when that layer's
   * overflow list at the current frame has no duplicates and lies outside its grid.
   */
  lemma EraseClearsLayer(p: Project, i: nat, gx: int, gy: int)
    requires ProjectValid(p) && i < |p.layers|
    requires NoDuplicates(p.layers[i].framesExt[p.current]) && OverflowOutside(p.layers[i].framesExt[p.current])
    ensures var r := PaintAtGlobal(p, p.layers[i].id, gx, gy, false);
      CanMerge(r.layers, r.current) && !LayerCovers(r.layers[i], r.current, gx, gy)
  {
    var r := PaintAtGlobal(p, p.layers[i].id, gx, gy, false);
    var l := p.layers[i];
    assert LayerShaped(l, p.framesCount);
    ValidCanMerge(r);
    var off := OffsetAt(l.keyframes, l.offsets, p.current);
    PaintedLayer(p, i, gx, gy, false);
    EraseLocalClears(l, p.current, gx - off.x, gy - off.y, off);
  }

  /** A local erase at `(lx, ly)` leaves no ink there, when the overflow list has no duplicates and lies outside the grid. */
  lemma EraseLocalClears(l: Layer, c: int, lx: int, ly: int, off: Point)
    requires Aligned(l) && 0 <= c < |l.frames| && FramesWellFormed(l)
    requires NoDuplicates(l.framesExt[c]) && OverflowOutside(l.framesExt[c])
    ensures var m := PaintLocal(l, c, lx, ly, false);
      !Covers(m.frames[c], ExtAt(m, c), off, lx + off.x, ly + off.y)
  {
    var m := PaintLocal(l, c, lx, ly, false);
    EditOverflowNoDuplicates(l.framesExt[c], Point(lx, ly), false);
    assert ExtAt(m, c) == m.framesExt[c];
    if InBounds(lx, ly) {
      assert !m.frames[c][ly][lx];
      assert Point(lx, ly) !in l.framesExt[c];
    }
  }

  /**
   * When no layer has keyframes, `duplicateToNext` makes the composite of the
   * new current frame equal the composite of the frame it was copied from.
   */
  lemma DuplicateShowsSameImage(p: Project, x: int, y: int)
    requires ProjectValid(p) && p.current < p.framesCount - 1
    requires forall i :: 0 <= i < |p.layers| ==> p.layers[i].keyframes == []
    ensures var r := DuplicateToNext(p);
      CanMerge(p.layers, p.current) && CanMerge(r.layers, r.current) &&
      (Lit(r.layers, r.current, x, y) <==> Lit(p.layers, p.current, x, y))
  {
    var r := DuplicateToNext(p);
    var c := p.current;
    ValidCanMerge(p);
    ValidCanMerge(r);
    forall j | 0 <= j < |p.layers|
      ensures LayerCovers(r.layers[j], c + 1, x, y) <==> LayerCovers(p.layers[j], c, x, y)
    {
      DuplicateCovers(p, j, x, y);
    }
  }

  /** Every layer of a consistent project can be composited at the current frame. */
  lemma ValidCanMerge(p: Project)
    requires ProjectValid(p)
    ensures CanMerge(p.layers, p.current)
  {
    forall i | 0 <= i < |p.layers| && p.layers[i].visible
      ensures 0 <= p.current < |p.layers[i].frames| && WellFormed(p.layers[i].frames[p.current])
    {
      assert LayerShaped(p.layers[i], p.framesCount);
    }
  }

  lemma DuplicateCovers(p: Project, j: int, x: int, y: int)
    requires ProjectValid(p) && p.current < p.framesCount - 1 && 0 <= j < |p.layers|
    requires p.layers[j].keyframes == []
    ensures var r := DuplicateToNext(p);
      j < |r.layers| && LayerShaped(r.layers[j], r.framesCount) && r.current == p.current + 1 &&
      (LayerCovers(r.layers[j], p.current + 1, x, y) <==> LayerCovers(p.layers[j], p.current, x, y))
  {
    var r := DuplicateToNext(p);
    var c := p.current;
    var l := p.layers[j];
    assert LayerShaped(l, p.framesCount);
    var m := r.layers[j];
    assert m == DuplicateLayer(l, c);
    OffsetWithoutKeyframes(l.offsets, c);
    OffsetWithoutKeyframes(m.offsets, c + 1);
    assert ExtAt(m, c + 1) == ExtAt(l, c);
  }
}
