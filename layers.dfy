/**
 * The animator's document state and the frame-sequence edits on it
 * (app.jsx: `mkLayer`, `getLayer`/`setLayer`, the resize, carry-forward and
 * select-first effects, the playback tick, `paintAtGlobal`, `addKeyframe`,
 * `nudgeSelected`, `duplicateToNext`, `deleteCurrentFrame`, `copyFrame`,
 * `pasteFrame`).
 *
 * React state is an explicit `Project` value; every state updater is a
 * function from the old project to the new one.
 */
module Layers {
  import opened Options
  import opened Grid
  import opened Keyframes

  /**
   * A layer: one grid per frame, a list of overflow points per frame (cells
   * painted outside the local 27x9 area, in layer-local coordinates), one
   * static offset per frame and the keyframe list.
   */
  datatype Layer = Layer(
    id: string, name: string, kind: string, visible: bool,
    frames: seq<Grid>, framesExt: seq<seq<Point>>, offsets: seq<Point>,
    keyframes: seq<Keyframe>)

  datatype Project = Project(
    framesCount: int, fps: int, current: int,
    layers: seq<Layer>, selectedLayerId: Option<string>)

  /** The three per-frame sequences have the same length. */
  predicate Aligned(l: Layer) {
    |l.frames| == |l.framesExt| == |l.offsets|
  }

  predicate FramesWellFormed(l: Layer) {
    forall i :: 0 <= i < |l.frames| ==> WellFormed(l.frames[i])
  }

  /** A layer holding exactly `n` frames, each a 27x9 grid. */
  predicate LayerShaped(l: Layer, n: int) {
    Aligned(l) && |l.frames| == n && FramesWellFormed(l)
  }

  /** The consistency the editor keeps between its state variables. */
  predicate ProjectValid(p: Project) {
    && p.framesCount >= 1
    && 0 <= p.current < p.framesCount
    && forall i :: 0 <= i < |p.layers| ==> LayerShaped(p.layers[i], p.framesCount)
  }

  /** JavaScript's truthiness of an optional string: absent and "" are both false. */
  predicate Truthy(s: Option<string>) {
    s.Some? && s.value != ""
  }

  /** `Array.from({length: n}, ...)`: a negative length gives an empty array. */
  function Len(n: int): nat {
    if n < 0 then 0 else n
  }

  /** `mkLayer(name, kind)` with its random id given as `id`, for `n` frames. */
  function MakeLayer(id: string, name: string, kind: string, n: int): (l: Layer)
    ensures LayerShaped(l, Len(n))
    ensures l.id == id && l.name == name && l.kind == kind && l.visible && l.keyframes == []
    ensures forall i :: 0 <= i < Len(n) ==> IsBlank(l.frames[i]) && l.framesExt[i] == [] && l.offsets[i] == ORIGIN
  {
    Layer(id, name, kind, true,
          seq(Len(n), _ => EmptyGrid()), seq(Len(n), _ => []), seq(Len(n), _ => ORIGIN), [])
  }

  /** `getLayer(id)`: the index of the first layer with that id, if any. */
  function FindLayer(ls: seq<Layer>, id: Option<string>): (r: Option<nat>)
    ensures r.Some? ==> r.value < |ls| && id == Some(ls[r.value].id)
    ensures r.Some? ==> forall j :: 0 <= j < r.value ==> id != Some(ls[j].id)
    ensures r.None? ==> forall j :: 0 <= j < |ls| ==> id != Some(ls[j].id)
    decreases |ls|
  {
    if ls == [] then None
    else if id == Some(ls[0].id) then Some(0)
    else match FindLayer(ls[1..], id)
      case None => None
      case Some(i) => Some(i + 1)
  }

  // ---------------------------------------------------------------------------
  // Effects and the playback cursor
  // ---------------------------------------------------------------------------

  /** The effect that selects the first layer while nothing (or "") is selected. */
  function SelectFirst(p: Project): (r: Project)
    ensures r.(selectedLayerId := p.selectedLayerId) == p
    ensures !Truthy(p.selectedLayerId) && |p.layers| > 0 ==> r.selectedLayerId == Some(p.layers[0].id)
    ensures Truthy(p.selectedLayerId) || |p.layers| == 0 ==> r == p
  {
    if !Truthy(p.selectedLayerId) && |p.layers| > 0 then p.(selectedLayerId := Some(p.layers[0].id)) else p
  }

  /** One playback step: `(c + 1) % max(framesCount, 1)`. */
  function Tick(c: int, framesCount: int): (r: int)
    ensures 0 <= r < (if framesCount < 1 then 1 else framesCount)
    ensures 0 <= c && c + 1 < framesCount ==> r == c + 1
    ensures framesCount >= 1 && c == framesCount - 1 ==> r == 0
  {
    (c + 1) % (if framesCount < 1 then 1 else framesCount)
  }

  /** `s.slice(0, n)`: a negative `n` counts from the end. */
  function SliceTo<T>(s: seq<T>, n: int): (r: seq<T>)
    ensures |r| == if n >= 0 then (if n < |s| then n else |s|) else (if |s| + n < 0 then 0 else |s| + n)
    ensures r == s[..|r|]
  {
    if n >= 0 then (if n < |s| then s[..n] else s)
    else if |s| + n < 0 then [] else s[..|s| + n]
  }

  /** The resize effect's treatment of one sequence: pad with `fill`, or truncate, to length `n`. */
  function PadOrTruncate<T>(s: seq<T>, n: int, fill: T): (r: seq<T>)
    ensures n >= 0 ==> |r| == n
    ensures n >= 0 ==> forall i :: 0 <= i < n ==> r[i] == if i < |s| then s[i] else fill
    ensures n < 0 ==> r == SliceTo(s, n)
    ensures forall i :: 0 <= i < |s| && i < |r| ==> r[i] == s[i]
    ensures forall i :: |s| <= i < |r| ==> r[i] == fill
  {
    if |s| < n then s + seq(n - |s|, _ => fill)
    else if |s| > n then SliceTo(s, n)
    else s
  }

  function ResizeLayer(l: Layer, n: int): (r: Layer)
    ensures r.(frames := l.frames, framesExt := l.framesExt, offsets := l.offsets) == l
    ensures n >= 0 ==> |r.frames| == n && |r.offsets| == n && |r.framesExt| == n
    ensures forall j :: 0 <= j < |l.frames| && j < |r.frames| ==> r.frames[j] == l.frames[j]
    ensures forall j :: |l.frames| <= j < |r.frames| ==> r.frames[j] == EmptyGrid()
    ensures forall j :: 0 <= j < |l.offsets| && j < |r.offsets| ==> r.offsets[j] == l.offsets[j]
    ensures forall j :: |l.offsets| <= j < |r.offsets| ==> r.offsets[j] == ORIGIN
    ensures forall j :: 0 <= j < |l.framesExt| && j < |r.framesExt| ==> r.framesExt[j] == l.framesExt[j]
    ensures forall j :: |l.framesExt| <= j < |r.framesExt| ==> r.framesExt[j] == []
  {
    l.(frames := PadOrTruncate(l.frames, n, EmptyGrid()),
       offsets := PadOrTruncate(l.offsets, n, ORIGIN),
       framesExt := PadOrTruncate(l.framesExt, n, []))
  }

  /**
   * The effect that runs when `framesCount` changes: every layer's three
   * sequences are padded or truncated to `framesCount` and `current` is clamped.
   * Keyframes are left alone, so a keyframe past the new end survives.
   */
  function Resize(p: Project): (r: Project)
    ensures r.framesCount == p.framesCount && r.fps == p.fps && r.selectedLayerId == p.selectedLayerId
    ensures |r.layers| == |p.layers|
    ensures r.current == if p.current < p.framesCount - 1 then p.current
                         else if p.framesCount - 1 < 0 then (if p.current < 0 then p.current else 0)
                         else p.framesCount - 1
    ensures forall i :: 0 <= i < |p.layers| ==>
      r.layers[i].(frames := p.layers[i].frames, framesExt := p.layers[i].framesExt,
                   offsets := p.layers[i].offsets) == p.layers[i]
    ensures p.framesCount >= 0 ==> forall i :: 0 <= i < |p.layers| ==> Aligned(r.layers[i]) && |r.layers[i].frames| == p.framesCount
    ensures forall i, j :: 0 <= i < |p.layers| && 0 <= j < |p.layers[i].frames| && j < |r.layers[i].frames| ==>
      r.layers[i].frames[j] == p.layers[i].frames[j]
    ensures forall i, j :: 0 <= i < |p.layers| && |p.layers[i].frames| <= j < |r.layers[i].frames| ==>
      r.layers[i].frames[j] == EmptyGrid()
    ensures forall i, j :: 0 <= i < |p.layers| && 0 <= j < |p.layers[i].offsets| && j < |r.layers[i].offsets| ==>
      r.layers[i].offsets[j] == p.layers[i].offsets[j]
    ensures forall i, j :: 0 <= i < |p.layers| && |p.layers[i].offsets| <= j < |r.layers[i].offsets| ==>
      r.layers[i].offsets[j] == ORIGIN
    ensures forall i, j :: 0 <= i < |p.layers| && 0 <= j < |p.layers[i].framesExt| && j < |r.layers[i].framesExt| ==>
      r.layers[i].framesExt[j] == p.layers[i].framesExt[j]
    ensures forall i, j :: 0 <= i < |p.layers| && |p.layers[i].framesExt| <= j < |r.layers[i].framesExt| ==>
      r.layers[i].framesExt[j] == []
  {
    var n := p.framesCount;
    var hi := if n - 1 < 0 then 0 else n - 1;
    p.(layers := seq(|p.layers|, i requires 0 <= i < |p.layers| => ResizeLayer(p.layers[i], n)),
       current := if p.current < hi then p.current else hi)
  }

  /** After the resize effect a project with a positive frame count and well-formed grids is consistent. */
  lemma ResizeMakesValid(p: Project)
    requires p.framesCount >= 1 && 0 <= p.current
    requires forall i :: 0 <= i < |p.layers| ==> FramesWellFormed(p.layers[i])
    ensures ProjectValid(Resize(p))
  {
    var r := Resize(p);
    forall i | 0 <= i < |r.layers| ensures LayerShaped(r.layers[i], r.framesCount) {
      forall j | 0 <= j < |r.layers[i].frames| ensures WellFormed(r.layers[i].frames[j]) {
        if j < |p.layers[i].frames| {
          assert r.layers[i].frames[j] == p.layers[i].frames[j];
        }
      }
    }
  }

  /** On a consistent project the resize effect changes nothing. */
  lemma ResizeOfValidIsIdentity(p: Project)
    requires ProjectValid(p)
    ensures Resize(p) == p
  {
    var r := Resize(p);
    forall i | 0 <= i < |p.layers| ensures r.layers[i] == p.layers[i] {
      assert r.layers[i].frames == p.layers[i].frames;
      assert r.layers[i].offsets == p.layers[i].offsets;
      assert r.layers[i].framesExt == p.layers[i].framesExt;
    }
    assert r.layers == p.layers;
  }

  /**
   * The carry-forward effect on one layer at frame `c` (> 0): a blank
   * current grid is replaced by the previous frame's grid, offset and overflow points.
   * Only the grid is tested for blankness; overflow points at `c` do not stop the copy.
   */
  function CarryForwardLayer(l: Layer, c: int): (r: Layer)
    requires Aligned(l) && c >= 1
    ensures Aligned(r) && |r.frames| == |l.frames| && r.keyframes == l.keyframes
    ensures r.id == l.id && r.name == l.name && r.kind == l.kind && r.visible == l.visible
    ensures c < |l.frames| && IsBlank(l.frames[c]) ==>
      r.frames[c] == l.frames[c - 1] && r.offsets[c] == l.offsets[c - 1] && r.framesExt[c] == l.framesExt[c - 1]
    ensures !(c < |l.frames| && IsBlank(l.frames[c])) ==> r == l
    ensures forall j :: 0 <= j < |l.frames| && j != c ==>
      r.frames[j] == l.frames[j] && r.offsets[j] == l.offsets[j] && r.framesExt[j] == l.framesExt[j]
  {
    if c >= |l.frames| || !IsBlank(l.frames[c]) then l
    else l.(frames := l.frames[c := l.frames[c - 1]],
            offsets := l.offsets[c := l.offsets[c - 1]],
            framesExt := l.framesExt[c := l.framesExt[c - 1]])
  }

  /** The carry-forward effect, run whenever `current` changes. */
  function CarryForward(p: Project): (r: Project)
    requires forall i :: 0 <= i < |p.layers| ==> Aligned(p.layers[i])
    ensures r.(layers := p.layers) == p && |r.layers| == |p.layers|
    ensures p.current <= 0 ==> r == p
    ensures p.current > 0 ==> forall i :: 0 <= i < |p.layers| ==> r.layers[i] == CarryForwardLayer(p.layers[i], p.current)
    ensures forall i :: 0 <= i < |p.layers| ==> Aligned(r.layers[i])
  {
    if p.current <= 0 then p
    else p.(layers := seq(|p.layers|, i requires 0 <= i < |p.layers| => CarryForwardLayer(p.layers[i], p.current)))
  }

  /** Carry-forward keeps the project consistent. */
  lemma CarryForwardValid(p: Project)
    requires ProjectValid(p)
    ensures ProjectValid(CarryForward(p))
  {
    var r := CarryForward(p);
    if p.current > 0 {
      forall i | 0 <= i < |r.layers| ensures LayerShaped(r.layers[i], r.framesCount) {
        var l := p.layers[i];
        assert LayerShaped(l, p.framesCount);
        forall j | 0 <= j < |r.layers[i].frames| ensures WellFormed(r.layers[i].frames[j]) {
          if j == p.current && IsBlank(l.frames[j]) {
            assert r.layers[i].frames[j] == l.frames[j - 1];
          }
        }
      }
    }
  }

  /** Running the carry-forward effect twice is the same as running it once. */
  lemma CarryForwardIdempotent(p: Project)
    requires forall i :: 0 <= i < |p.layers| ==> Aligned(p.layers[i])
    ensures CarryForward(CarryForward(p)) == CarryForward(p)
  {
    var r := CarryForward(p);
    var r2 := CarryForward(r);
    if p.current > 0 {
      forall i | 0 <= i < |p.layers| ensures r2.layers[i] == r.layers[i] {
        var l := p.layers[i];
        var c := p.current;
        if c < |l.frames| && IsBlank(l.frames[c]) {
          var m := r.layers[i];
          if IsBlank(m.frames[c]) {
            assert m.frames[c := m.frames[c - 1]] == m.frames;
            assert m.offsets[c := m.offsets[c - 1]] == m.offsets;
            assert m.framesExt[c := m.framesExt[c - 1]] == m.framesExt;
          }
        }
      }
      assert r2.layers == r.layers;
    }
  }

  // ---------------------------------------------------------------------------
  // Painting
  // ---------------------------------------------------------------------------

  /** `arr.indexOf(key)`: the first position of `key`, or -1. */
  function IndexOf(s: seq<Point>, key: Point): (r: int)
    ensures -1 <= r < |s|
    ensures r == -1 <==> key !in s
    ensures r >= 0 ==> s[r] == key && key !in s[..r]
    decreases |s|
  {
    if s == [] then -1
    else if s[0] == key then 0
    else var i := IndexOf(s[1..], key); if i == -1 then -1 else i + 1
  }

  /** The overflow list edit of `paintAtGlobal`: add `key` if absent when painting, drop its first occurrence when erasing. */
  function EditOverflow(ext: seq<Point>, key: Point, value: bool): (r: seq<Point>)
    ensures forall q :: q != key ==> multiset(r)[q] == multiset(ext)[q]
    ensures value ==> multiset(r)[key] == if key in ext then multiset(ext)[key] else 1
    ensures !value ==> multiset(r)[key] == if key in ext then multiset(ext)[key] - 1 else 0
  {
    var idx := IndexOf(ext, key);
    if value then (if idx == -1 then ext + [key] else ext)
    else if idx != -1 then
      assert ext == ext[..idx] + [ext[idx]] + ext[idx + 1..];
      ext[..idx] + ext[idx + 1..]
    else ext
  }

  predicate NoDuplicates(s: seq<Point>) {
    forall i, j :: 0 <= i < j < |s| ==> s[i] != s[j]
  }

  /** Editing a duplicate-free overflow list keeps it duplicate-free, and `key` is then present exactly when painting. */
  lemma EditOverflowNoDuplicates(ext: seq<Point>, key: Point, value: bool)
    requires NoDuplicates(ext)
    ensures NoDuplicates(EditOverflow(ext, key, value))
    ensures key in EditOverflow(ext, key, value) <==> value
    ensures forall q :: q != key ==> (q in EditOverflow(ext, key, value) <==> q in ext)
  {
    var r := EditOverflow(ext, key, value);
    forall q ensures multiset(r)[q] <= 1 {
      MultisetAtMostOne(ext, q);
    }
    AtMostOneNoDuplicates(r);
    assert key in r <==> multiset(r)[key] > 0;
  }

  lemma MultisetAtMostOne(s: seq<Point>, q: Point)
    requires NoDuplicates(s)
    ensures multiset(s)[q] <= 1
    decreases |s|
  {
    if s != [] {
      assert s == [s[0]] + s[1..];
      MultisetAtMostOne(s[1..], q);
      if s[0] == q {
        assert q !in s[1..];
      }
    }
  }

  lemma AtMostOneNoDuplicates(s: seq<Point>)
    requires forall q :: multiset(s)[q] <= 1
    ensures NoDuplicates(s)
  {
    forall i, j | 0 <= i < j < |s| ensures s[i] != s[j] {
      TwoOccurrences(s, i, j);
    }
  }

  lemma TwoOccurrences(s: seq<Point>, i: nat, j: nat)
    requires i < j < |s|
    ensures s[i] == s[j] ==> multiset(s)[s[i]] >= 2
  {
    assert s == s[..i] + [s[i]] + s[i + 1..j] + [s[j]] + s[j + 1..];
  }

  /**
   * The edit `paintAtGlobal` makes once the target is in layer-local
   * coordinates `(lx, ly)`: a cell inside the grid is set in frame `c`,
   * any other point goes to frame `c`'s overflow list.
   */
  function PaintLocal(l: Layer, c: int, lx: int, ly: int, value: bool): (r: Layer)
    requires Aligned(l) && 0 <= c < |l.frames| && FramesWellFormed(l)
    ensures Aligned(r) && FramesWellFormed(r) && |r.frames| == |l.frames|
    ensures r.offsets == l.offsets && r.keyframes == l.keyframes
    ensures r.id == l.id && r.name == l.name && r.kind == l.kind && r.visible == l.visible
    ensures InBounds(lx, ly) ==>
      && r.framesExt == l.framesExt
      && (forall j :: 0 <= j < |l.frames| && j != c ==> r.frames[j] == l.frames[j])
      && (forall y, x :: 0 <= y < HEIGHT && 0 <= x < WIDTH ==>
            r.frames[c][y][x] == if x == lx && y == ly then value else l.frames[c][y][x])
    ensures !InBounds(lx, ly) ==>
      && r.frames == l.frames
      && r.framesExt[c] == EditOverflow(l.framesExt[c], Point(lx, ly), value)
      && (forall j :: 0 <= j < |l.frames| && j != c ==> r.framesExt[j] == l.framesExt[j])
  {
    if InBounds(lx, ly) then
      l.(frames := l.frames[c := SafeSet(l.frames[c], lx, ly, value)])
    else
      l.(framesExt := l.framesExt[c := EditOverflow(l.framesExt[c], Point(lx, ly), value)])
  }

  /** `paintAtGlobal`'s updater on one layer: the global cell is moved to local coordinates by subtracting the layer's offset at `c`. */
  function PaintLayer(l: Layer, c: int, gx: int, gy: int, value: bool): (r: Layer)
    requires Aligned(l) && 0 <= c < |l.frames| && FramesWellFormed(l)
    ensures Aligned(r) && FramesWellFormed(r) && |r.frames| == |l.frames|
  {
    var off := OffsetAt(l.keyframes, l.offsets, c);
    PaintLocal(l, c, gx - off.x, gy - off.y, value)
  }

  /** `paintAtGlobal(layerId, gx, gy, value)` at the current frame. */
  function PaintAtGlobal(p: Project, layerId: string, gx: int, gy: int, value: bool): (r: Project)
    requires ProjectValid(p)
    ensures ProjectValid(r) && r.(layers := p.layers) == p && |r.layers| == |p.layers|
    ensures forall i :: 0 <= i < |p.layers| ==>
      r.layers[i] == if p.layers[i].id == layerId then PaintLayer(p.layers[i], p.current, gx, gy, value) else p.layers[i]
  {
    p.(layers := seq(|p.layers|, i requires 0 <= i < |p.layers| =>
      if p.layers[i].id == layerId then PaintLayer(p.layers[i], p.current, gx, gy, value) else p.layers[i]))
  }

  // ---------------------------------------------------------------------------
  // Keyframe and offset edits on the selected layer
  // ---------------------------------------------------------------------------

  /** `upsertKF(id, f, x, y)` through `setLayer`. */
  function UpsertOn(ls: seq<Layer>, id: string, f: int, x: int, y: int): (r: seq<Layer>)
    ensures |r| == |ls|
    ensures forall i :: 0 <= i < |ls| ==>
      r[i] == if ls[i].id == id then ls[i].(keyframes := UpsertKeyframe(ls[i].keyframes, f, x, y)) else ls[i]
  {
    seq(|ls|, i requires 0 <= i < |ls| =>
      if ls[i].id == id then ls[i].(keyframes := UpsertKeyframe(ls[i].keyframes, f, x, y)) else ls[i])
  }

  /** A keyframe edit keeps each layer's shape. */
  lemma UpsertOnValid(p: Project, id: string, f: int, x: int, y: int)
    requires ProjectValid(p)
    ensures ProjectValid(p.(layers := UpsertOn(p.layers, id, f, x, y)))
  {
    var r := p.(layers := UpsertOn(p.layers, id, f, x, y));
    forall i | 0 <= i < |r.layers| ensures LayerShaped(r.layers[i], r.framesCount) {
      assert r.layers[i].frames == p.layers[i].frames;
      assert LayerShaped(p.layers[i], p.framesCount);
    }
  }

  /** `addKeyframe()`: a keyframe at the current frame holding the selected layer's present offset. */
  function AddKeyframe(p: Project): (r: Project)
    ensures r.(layers := p.layers) == p
  {
    match FindLayer(p.layers, p.selectedLayerId)
    case None => p
    case Some(i) =>
      var l := p.layers[i];
      var off := OffsetAt(l.keyframes, l.offsets, p.current);
      p.(layers := UpsertOn(p.layers, l.id, p.current, off.x, off.y))
  }

  /** Adding a keyframe does not move the selected layer at the current frame, and keeps the project consistent. */
  lemma AddKeyframeKeepsOffset(p: Project)
    requires ProjectValid(p) && FindLayer(p.layers, p.selectedLayerId).Some?
    ensures var i := FindLayer(p.layers, p.selectedLayerId).value;
      var l := AddKeyframe(p).layers[i];
      OffsetAt(l.keyframes, l.offsets, p.current) ==
        OffsetAt(p.layers[i].keyframes, p.layers[i].offsets, p.current)
    ensures ProjectValid(AddKeyframe(p))
  {
    var i := FindLayer(p.layers, p.selectedLayerId).value;
    var l := p.layers[i];
    var off := OffsetAt(l.keyframes, l.offsets, p.current);
    UpsertSetsOffset(l.keyframes, l.offsets, p.current, off.x, off.y);
    UpsertOnValid(p, l.id, p.current, off.x, off.y);
  }

  /** The no-keyframe branch of `nudgeSelected`: moves the static offset at frame `c`. */
  function NudgeStatic(l: Layer, c: int, dx: int, dy: int): (r: Layer)
    requires 0 <= c < |l.offsets|
    ensures r == l.(offsets := r.offsets) && |r.offsets| == |l.offsets|
    ensures r.offsets[c] == Point(Clamp(l.offsets[c].x + dx, MAX_OFFSET_X), Clamp(l.offsets[c].y + dy, MAX_OFFSET_Y))
    ensures forall j :: 0 <= j < |l.offsets| && j != c ==> r.offsets[j] == l.offsets[j]
  {
    l.(offsets := l.offsets[c := Point(Clamp(l.offsets[c].x + dx, MAX_OFFSET_X), Clamp(l.offsets[c].y + dy, MAX_OFFSET_Y))])
  }

  /** The static-offset nudge through `setLayer`. */
  function NudgeOn(ls: seq<Layer>, id: string, c: int, dx: int, dy: int): (r: seq<Layer>)
    requires forall j :: 0 <= j < |ls| ==> 0 <= c < |ls[j].offsets|
    ensures |r| == |ls|
    ensures forall j :: 0 <= j < |ls| ==> r[j] == if ls[j].id == id then NudgeStatic(ls[j], c, dx, dy) else ls[j]
  {
    seq(|ls|, j requires 0 <= j < |ls| => if ls[j].id == id then NudgeStatic(ls[j], c, dx, dy) else ls[j])
  }

  /** `nudgeSelected(dx, dy)`: with keyframes, a clamped keyframe at the current frame; without, a clamped static offset. */
  function Nudge(p: Project, dx: int, dy: int): (r: Project)
    requires ProjectValid(p)
    ensures r.(layers := p.layers) == p && |r.layers| == |p.layers|
  {
    match FindLayer(p.layers, p.selectedLayerId)
    case None => p
    case Some(i) => NudgeLayerAt(p, i, dx, dy)
  }

  /** The nudge of the layer found at index `i` (and of every layer sharing its id). */
  function NudgeLayerAt(p: Project, i: nat, dx: int, dy: int): (r: Project)
    requires ProjectValid(p) && i < |p.layers|
    ensures r.(layers := p.layers) == p && |r.layers| == |p.layers|
  {
    var l := p.layers[i];
    if |l.keyframes| > 0 then
      var t := Nudged(OffsetAt(l.keyframes, l.offsets, p.current), dx, dy);
      p.(layers := UpsertOn(p.layers, l.id, p.current, t.x, t.y))
    else
      assert forall j :: 0 <= j < |p.layers| ==> LayerShaped(p.layers[j], p.framesCount);
      p.(layers := NudgeOn(p.layers, l.id, p.current, dx, dy))
  }

  /** An offset moved by `(dx, dy)` and clamped to the offset bounds. */
  function Nudged(off: Point, dx: int, dy: int): Point {
    Point(Clamp(off.x + dx, MAX_OFFSET_X), Clamp(off.y + dy, MAX_OFFSET_Y))
  }

  /**
   * Whichever branch is taken, after a nudge the selected layer sits at the
   * clamped sum of its former offset and `(dx, dy)` at the current frame.
   */
  lemma NudgeMovesSelected(p: Project, dx: int, dy: int)
    requires ProjectValid(p) && FindLayer(p.layers, p.selectedLayerId).Some?
    ensures var i := FindLayer(p.layers, p.selectedLayerId).value;
      var before := OffsetAt(p.layers[i].keyframes, p.layers[i].offsets, p.current);
      var l := Nudge(p, dx, dy).layers[i];
      OffsetAt(l.keyframes, l.offsets, p.current) ==
        Nudged(before, dx, dy)
  {
    NudgeLayerAtMoves(p, FindLayer(p.layers, p.selectedLayerId).value, dx, dy);
  }

  lemma NudgeLayerAtMoves(p: Project, i: nat, dx: int, dy: int)
    requires ProjectValid(p) && i < |p.layers|
    ensures var before := OffsetAt(p.layers[i].keyframes, p.layers[i].offsets, p.current);
      var l := NudgeLayerAt(p, i, dx, dy).layers[i];
      OffsetAt(l.keyframes, l.offsets, p.current) ==
        Nudged(before, dx, dy)
  {
    if |p.layers[i].keyframes| > 0 {
      NudgeMovesKeyed(p, i, dx, dy);
    } else {
      NudgeMovesStatic(p, i, dx, dy);
    }
  }

  lemma NudgeMovesKeyed(p: Project, i: nat, dx: int, dy: int)
    requires ProjectValid(p) && i < |p.layers| && |p.layers[i].keyframes| > 0
    ensures var l := NudgeLayerAt(p, i, dx, dy).layers[i];
      OffsetAt(l.keyframes, l.offsets, p.current) == Nudged(OffsetAt(p.layers[i].keyframes, p.layers[i].offsets, p.current), dx, dy)
  {
    var l := p.layers[i];
    var t := Nudged(OffsetAt(l.keyframes, l.offsets, p.current), dx, dy);
    NudgeLayerAtKeyed(p, i, dx, dy);
    UpsertSetsOffset(l.keyframes, l.offsets, p.current, t.x, t.y);
  }

  lemma NudgeMovesStatic(p: Project, i: nat, dx: int, dy: int)
    requires ProjectValid(p) && i < |p.layers| && |p.layers[i].keyframes| == 0
    ensures var before := OffsetAt(p.layers[i].keyframes, p.layers[i].offsets, p.current);
      var l := NudgeLayerAt(p, i, dx, dy).layers[i];
      OffsetAt(l.keyframes, l.offsets, p.current) ==
        Nudged(before, dx, dy)
  {
    var r := NudgeLayerAt(p, i, dx, dy);
    NudgeLayerAtStatic(p, i, dx, dy);
    OffsetWithoutKeyframes(p.layers[i].offsets, p.current);
    OffsetWithoutKeyframes(r.layers[i].offsets, p.current);
  }

  lemma NudgeLayerAtKeyed(p: Project, i: nat, dx: int, dy: int)
    requires ProjectValid(p) && i < |p.layers| && |p.layers[i].keyframes| > 0
    ensures var l := p.layers[i]; var t := Nudged(OffsetAt(l.keyframes, l.offsets, p.current), dx, dy);
      NudgeLayerAt(p, i, dx, dy).layers[i] == l.(keyframes := UpsertKeyframe(l.keyframes, p.current, t.x, t.y))
  {
    var l := p.layers[i];
    var t := Nudged(OffsetAt(l.keyframes, l.offsets, p.current), dx, dy);
    assert NudgeLayerAt(p, i, dx, dy).layers == UpsertOn(p.layers, l.id, p.current, t.x, t.y);
    UpsertOnAt(p.layers, i, p.current, t.x, t.y);
  }

  lemma UpsertOnAt(ls: seq<Layer>, i: nat, c: int, x: int, y: int)
    requires i < |ls|
    ensures UpsertOn(ls, ls[i].id, c, x, y)[i] == ls[i].(keyframes := UpsertKeyframe(ls[i].keyframes, c, x, y))
  {
  }

  lemma NudgeLayerAtStatic(p: Project, i: nat, dx: int, dy: int)
    requires ProjectValid(p) && i < |p.layers| && |p.layers[i].keyframes| == 0
    ensures NudgeLayerAt(p, i, dx, dy).layers[i] == NudgeStatic(p.layers[i], p.current, dx, dy)
  {
    assert LayerShaped(p.layers[i], p.framesCount);
    assert forall j :: 0 <= j < |p.layers| ==> LayerShaped(p.layers[j], p.framesCount);
    var ls := NudgeOn(p.layers, p.layers[i].id, p.current, dx, dy);
    assert NudgeLayerAt(p, i, dx, dy).layers == ls;
  }

  /** A nudge keeps the project consistent. */
  lemma NudgeValid(p: Project, dx: int, dy: int)
    requires ProjectValid(p)
    ensures ProjectValid(Nudge(p, dx, dy))
  {
    match FindLayer(p.layers, p.selectedLayerId)
    case None =>
    case Some(i) =>
      if |p.layers[i].keyframes| > 0 {
        NudgeKeyedValid(p, i, dx, dy);
      } else {
        NudgeStaticValid(p, i, dx, dy);
      }
  }

  lemma NudgeKeyedValid(p: Project, i: nat, dx: int, dy: int)
    requires ProjectValid(p) && i < |p.layers| && |p.layers[i].keyframes| > 0
    ensures ProjectValid(NudgeLayerAt(p, i, dx, dy))
  {
    var l := p.layers[i];
    var t := Nudged(OffsetAt(l.keyframes, l.offsets, p.current), dx, dy);
    assert NudgeLayerAt(p, i, dx, dy) == p.(layers := UpsertOn(p.layers, l.id, p.current, t.x, t.y));
    UpsertOnValid(p, l.id, p.current, t.x, t.y);
  }

  lemma NudgeStaticValid(p: Project, i: nat, dx: int, dy: int)
    requires ProjectValid(p) && i < |p.layers| && |p.layers[i].keyframes| == 0
    ensures ProjectValid(NudgeLayerAt(p, i, dx, dy))
  {
    var r := NudgeLayerAt(p, i, dx, dy);
    assert forall j :: 0 <= j < |p.layers| ==> LayerShaped(p.layers[j], p.framesCount);
    assert r.layers == NudgeOn(p.layers, p.layers[i].id, p.current, dx, dy);
    forall j | 0 <= j < |r.layers| ensures LayerShaped(r.layers[j], r.framesCount) {
      assert LayerShaped(p.layers[j], p.framesCount);
      assert r.layers[j].frames == p.layers[j].frames;
    }
  }

  // ---------------------------------------------------------------------------
  // Frame-sequence edits
  // ---------------------------------------------------------------------------

  function DuplicateLayer(l: Layer, c: int): (r: Layer)
    requires Aligned(l) && 0 <= c && c + 1 < |l.frames|
    ensures r == l.(frames := r.frames, framesExt := r.framesExt, offsets := r.offsets)
    ensures Aligned(r) && |r.frames| == |l.frames|
    ensures r.frames[c + 1] == l.frames[c] && r.framesExt[c + 1] == l.framesExt[c] && r.offsets[c + 1] == l.offsets[c]
    ensures forall j :: 0 <= j < |l.frames| && j != c + 1 ==>
      r.frames[j] == l.frames[j] && r.framesExt[j] == l.framesExt[j] && r.offsets[j] == l.offsets[j]
  {
    l.(frames := l.frames[c + 1 := l.frames[c]],
       framesExt := l.framesExt[c + 1 := l.framesExt[c]],
       offsets := l.offsets[c + 1 := l.offsets[c]])
  }

  /** `duplicateToNext()`: copies the current frame of every layer over the next one and advances. */
  function DuplicateToNext(p: Project): (r: Project)
    requires ProjectValid(p)
    ensures ProjectValid(r)
    ensures p.current >= p.framesCount - 1 ==> r == p
    ensures p.current < p.framesCount - 1 ==>
      && r.current == p.current + 1
      && r.(layers := p.layers, current := p.current) == p
      && |r.layers| == |p.layers|
      && forall i :: 0 <= i < |p.layers| ==> r.layers[i] == DuplicateLayer(p.layers[i], p.current)
  {
    if p.current >= p.framesCount - 1 then p
    else
      var r := p.(layers := seq(|p.layers|, i requires 0 <= i < |p.layers| => DuplicateLayer(p.layers[i], p.current)),
                  current := p.current + 1);
      assert forall i :: 0 <= i < |r.layers| ==> LayerShaped(r.layers[i], r.framesCount) by {
        forall i | 0 <= i < |r.layers| ensures LayerShaped(r.layers[i], r.framesCount) {
          assert LayerShaped(p.layers[i], p.framesCount);
        }
      }
      r
  }

  /** `s` without its element at index `c` (`splice(c, 1)` on a copy). */
  function RemoveAt<T>(s: seq<T>, c: nat): (r: seq<T>)
    requires c < |s|
    ensures |r| == |s| - 1
    ensures forall j :: 0 <= j < |r| ==> r[j] == if j < c then s[j] else s[j + 1]
  {
    s[..c] + s[c + 1..]
  }

  /** A keyframe's frame index after frame `c` is deleted (defined for `k.f != c`). */
  function Shift(k: Keyframe, c: int): Keyframe {
    if k.f > c then k.(f := k.f - 1) else k
  }

  /** The keyframe that becomes `k` when frame `c` is deleted. */
  function Unshift(k: Keyframe, c: int): Keyframe {
    if k.f >= c then k.(f := k.f + 1) else k
  }

  /** `ks.filter((k) => k.f !== c).map(shift)`. */
  function DropAndShift(ks: seq<Keyframe>, c: int): (r: seq<Keyframe>)
    ensures forall k :: k in r <==> Unshift(k, c) in ks
    ensures forall k :: k in r ==> exists j :: 0 <= j < |ks| && ks[j].f != c && Shift(ks[j], c) == k
    ensures SortedByFrame(ks) ==> SortedByFrame(r)
    ensures UniqueFrames(ks) ==> UniqueFrames(r)
    ensures |r| <= |ks|
    decreases |ks|
  {
    if ks == [] then []
    else
      var rest := DropAndShift(ks[1..], c);
      var r := (if ks[0].f == c then [] else [Shift(ks[0], c)]) + rest;
      DropAndShiftStep(ks, c, rest, r);
      r
  }

  lemma DropAndShiftStep(ks: seq<Keyframe>, c: int, rest: seq<Keyframe>, r: seq<Keyframe>)
    requires ks != []
    requires forall k :: k in rest <==> Unshift(k, c) in ks[1..]
    requires forall k :: k in rest ==> exists j :: 0 <= j < |ks[1..]| && ks[1..][j].f != c && Shift(ks[1..][j], c) == k
    requires SortedByFrame(ks[1..]) ==> SortedByFrame(rest)
    requires UniqueFrames(ks[1..]) ==> UniqueFrames(rest)
    requires r == (if ks[0].f == c then [] else [Shift(ks[0], c)]) + rest
    ensures forall k :: k in r <==> Unshift(k, c) in ks
    ensures forall k :: k in r ==> exists j :: 0 <= j < |ks| && ks[j].f != c && Shift(ks[j], c) == k
    ensures SortedByFrame(ks) ==> SortedByFrame(r)
    ensures UniqueFrames(ks) ==> UniqueFrames(r)
  {
    assert ks == [ks[0]] + ks[1..];
    forall k ensures k in r <==> Unshift(k, c) in ks {
      if ks[0].f != c && k == Shift(ks[0], c) {
        assert Unshift(k, c) == ks[0];
      }
      if Unshift(k, c) == ks[0] {
        assert ks[0].f != c && Shift(ks[0], c) == k;
      }
    }
    forall k | k in r ensures exists j :: 0 <= j < |ks| && ks[j].f != c && Shift(ks[j], c) == k {
      if k in rest {
        var j :| 0 <= j < |ks[1..]| && ks[1..][j].f != c && Shift(ks[1..][j], c) == k;
        assert ks[j + 1] == ks[1..][j];
      } else {
        assert ks[0].f != c && Shift(ks[0], c) == k;
      }
    }
    if ks[0].f != c {
      var h := Shift(ks[0], c);
      if SortedByFrame(ks) {
        SortedTail(ks);
        forall k | k in rest ensures h.f <= k.f {
          var j :| 0 <= j < |ks[1..]| && ks[1..][j].f != c && Shift(ks[1..][j], c) == k;
          assert ks[0].f <= ks[1..][j].f;
        }
        PrependSortedBy(h, rest);
      }
      if UniqueFrames(ks) {
        UniqueTail(ks);
        forall k | k in rest ensures h.f != k.f {
          var j :| 0 <= j < |ks[1..]| && ks[1..][j].f != c && Shift(ks[1..][j], c) == k;
          assert ks[0].f != ks[1..][j].f;
        }
        PrependUniqueBy(h, rest);
      }
    } else {
      if SortedByFrame(ks) { SortedTail(ks); }
      if UniqueFrames(ks) { UniqueTail(ks); }
    }
  }

  lemma SortedTail(ks: seq<Keyframe>)
    requires ks != [] && SortedByFrame(ks)
    ensures SortedByFrame(ks[1..]) && forall j :: 0 <= j < |ks[1..]| ==> ks[0].f <= ks[1..][j].f
  {
    forall j | 0 <= j < |ks[1..]| ensures ks[0].f <= ks[1..][j].f {
      assert ks[1..][j] == ks[j + 1];
    }
  }

  lemma UniqueTail(ks: seq<Keyframe>)
    requires ks != [] && UniqueFrames(ks)
    ensures UniqueFrames(ks[1..]) && forall j :: 0 <= j < |ks[1..]| ==> ks[0].f != ks[1..][j].f
  {
    forall j | 0 <= j < |ks[1..]| ensures ks[0].f != ks[1..][j].f {
      assert ks[1..][j] == ks[j + 1];
    }
  }

  lemma PrependSortedBy(h: Keyframe, s: seq<Keyframe>)
    requires SortedByFrame(s) && forall k :: k in s ==> h.f <= k.f
    ensures SortedByFrame([h] + s)
  {
    var r := [h] + s;
    forall i, j | 0 <= i < j < |r| ensures r[i].f <= r[j].f {
      assert r[j] == s[j - 1];
      if i > 0 { assert r[i] == s[i - 1]; }
    }
  }

  lemma PrependUniqueBy(h: Keyframe, s: seq<Keyframe>)
    requires UniqueFrames(s) && forall k :: k in s ==> h.f != k.f
    ensures UniqueFrames([h] + s)
  {
    var r := [h] + s;
    forall i, j | 0 <= i < j < |r| ensures r[i].f != r[j].f {
      assert r[j] == s[j - 1];
      if i > 0 { assert r[i] == s[i - 1]; }
    }
  }

  function DeleteInLayer(l: Layer, c: nat): (r: Layer)
    requires Aligned(l) && c < |l.frames|
    ensures r == l.(frames := r.frames, framesExt := r.framesExt, offsets := r.offsets, keyframes := r.keyframes)
    ensures Aligned(r) && |r.frames| == |l.frames| - 1
    ensures forall j :: 0 <= j < |r.frames| ==>
      var s := if j < c then j else j + 1;
      r.frames[j] == l.frames[s] && r.framesExt[j] == l.framesExt[s] && r.offsets[j] == l.offsets[s]
    ensures r.keyframes == DropAndShift(l.keyframes, c)
  {
    l.(frames := RemoveAt(l.frames, c), framesExt := RemoveAt(l.framesExt, c),
       offsets := RemoveAt(l.offsets, c), keyframes := DropAndShift(l.keyframes, c))
  }

  /** `deleteCurrentFrame()`: removes the current frame from every layer; a single-frame project is left alone. */
  function DeleteCurrentFrame(p: Project): (r: Project)
    requires ProjectValid(p)
    ensures ProjectValid(r)
    ensures p.framesCount <= 1 ==> r == p
    ensures p.framesCount > 1 ==>
      && r.framesCount == p.framesCount - 1
      && r.current == (if p.current < p.framesCount - 2 then p.current else p.framesCount - 2)
      && r.fps == p.fps && r.selectedLayerId == p.selectedLayerId
      && |r.layers| == |p.layers|
      && forall i :: 0 <= i < |p.layers| ==> r.layers[i] == DeleteInLayer(p.layers[i], p.current)
  {
    if p.framesCount <= 1 then p
    else
      var hi := if p.current < p.framesCount - 2 then p.current else p.framesCount - 2;
      var r := p.(layers := seq(|p.layers|, i requires 0 <= i < |p.layers| => DeleteInLayer(p.layers[i], p.current)),
                  framesCount := p.framesCount - 1,
                  current := if 0 < hi then hi else 0);
      assert forall i :: 0 <= i < |r.layers| ==> LayerShaped(r.layers[i], r.framesCount) by {
        forall i | 0 <= i < |r.layers| ensures LayerShaped(r.layers[i], r.framesCount) {
          var l := p.layers[i];
          assert LayerShaped(l, p.framesCount);
          forall j | 0 <= j < |r.layers[i].frames| ensures WellFormed(r.layers[i].frames[j]) {
            assert r.layers[i].frames[j] == l.frames[if j < p.current then j else j + 1];
          }
        }
      }
      r
  }

  /**
   * Deleting a frame keeps each layer's keyframes sorted and unique when they
   * were, and a keyframe `k` survives exactly when its pre-deletion image
   * `Unshift(k)` was there: none lands on another's frame.
   */
  lemma DeleteKeepsKeyframesUnique(p: Project, i: nat)
    requires ProjectValid(p) && p.framesCount > 1 && i < |p.layers|
    requires UniqueFrames(p.layers[i].keyframes)
    ensures var ks := DeleteCurrentFrame(p).layers[i].keyframes;
      UniqueFrames(ks) && forall k :: k in ks <==> Unshift(k, p.current) in p.layers[i].keyframes
  {
  }

  // ---------------------------------------------------------------------------
  // Copy and paste by layer name
  // ---------------------------------------------------------------------------

  /** One layer's contribution to the clipboard. */
  datatype ClipEntry = ClipEntry(grid: Grid, ext: seq<Point>, offset: Point)

  function EntryOf(l: Layer, c: int): ClipEntry
    requires Aligned(l) && 0 <= c < |l.frames|
  {
    ClipEntry(l.frames[c], l.framesExt[c], l.offsets[c])
  }

  /** No layer after index `i` has the same name as `ls[i]`. */
  predicate LastOfName(ls: seq<Layer>, i: int)
    requires 0 <= i < |ls|
  {
    forall j :: i < j < |ls| ==> ls[j].name != ls[i].name
  }

  predicate HasName(ls: seq<Layer>, nm: string) {
    exists i :: 0 <= i < |ls| && ls[i].name == nm
  }

  /** `copyFrame()`: the current frame of every layer, keyed by name; a later layer overwrites an earlier namesake. */
  function CopyLayers(ls: seq<Layer>, c: int): (clip: map<string, ClipEntry>)
    requires forall i :: 0 <= i < |ls| ==> Aligned(ls[i]) && 0 <= c < |ls[i].frames|
    ensures forall nm :: nm in clip <==> HasName(ls, nm)
    ensures forall i :: 0 <= i < |ls| && LastOfName(ls, i) ==> ls[i].name in clip && clip[ls[i].name] == EntryOf(ls[i], c)
    decreases |ls|
  {
    if ls == [] then map[]
    else
      var n := |ls| - 1;
      var prev := CopyLayers(ls[..n], c);
      var clip := prev[ls[n].name := EntryOf(ls[n], c)];
      CopyStep(ls, ls[..n], c, prev, clip);
      clip
  }

  lemma CopyStep(ls: seq<Layer>, init: seq<Layer>, c: int, prev: map<string, ClipEntry>, clip: map<string, ClipEntry>)
    requires ls != [] && init == ls[..|ls| - 1]
    requires forall i :: 0 <= i < |ls| ==> Aligned(ls[i]) && 0 <= c < |ls[i].frames|
    requires forall nm :: nm in prev <==> HasName(init, nm)
    requires forall i :: 0 <= i < |init| && LastOfName(init, i) ==>
      init[i].name in prev && prev[init[i].name] == EntryOf(init[i], c)
    requires clip == prev[ls[|ls| - 1].name := EntryOf(ls[|ls| - 1], c)]
    ensures forall nm :: nm in clip <==> HasName(ls, nm)
    ensures forall i :: 0 <= i < |ls| && LastOfName(ls, i) ==> ls[i].name in clip && clip[ls[i].name] == EntryOf(ls[i], c)
  {
    var n := |ls| - 1;
    forall nm ensures nm in clip <==> HasName(ls, nm) {
      if HasName(init, nm) {
        var i :| 0 <= i < n && init[i].name == nm;
        assert ls[i].name == nm;
      }
      if HasName(ls, nm) {
        var i :| 0 <= i < |ls| && ls[i].name == nm;
        if i < n {
          assert init[i].name == nm;
        }
      }
    }
    forall i | 0 <= i < |ls| && LastOfName(ls, i)
      ensures ls[i].name in clip && clip[ls[i].name] == EntryOf(ls[i], c)
    {
      if i < n {
        CopyStepEarlier(ls, init, c, prev, clip, i);
      }
    }
  }

  /** An earlier layer that is the last of its name keeps the entry it had in the shorter clipboard. */
  lemma CopyStepEarlier(ls: seq<Layer>, init: seq<Layer>, c: int, prev: map<string, ClipEntry>, clip: map<string, ClipEntry>, i: int)
    requires ls != [] && init == ls[..|ls| - 1] && 0 <= i < |init|
    requires forall k :: 0 <= k < |ls| ==> Aligned(ls[k]) && 0 <= c < |ls[k].frames|
    requires forall k :: 0 <= k < |init| && LastOfName(init, k) ==>
      init[k].name in prev && prev[init[k].name] == EntryOf(init[k], c)
    requires clip == prev[ls[|ls| - 1].name := EntryOf(ls[|ls| - 1], c)]
    requires LastOfName(ls, i)
    ensures ls[i].name in clip && clip[ls[i].name] == EntryOf(ls[i], c)
  {
    assert init[i] == ls[i];
    assert LastOfName(init, i) by {
      forall j | i < j < |init| ensures init[j].name != init[i].name {
        assert init[j] == ls[j];
      }
    }
    assert ls[i].name != ls[|ls| - 1].name;
  }

  /** `pasteFrame()` with a clipboard: each layer whose name is on it takes the stored frame at `current`. */
  function PasteFrame(p: Project, clip: Option<map<string, ClipEntry>>): (r: Project)
    requires ProjectValid(p)
    ensures r.(layers := p.layers) == p && |r.layers| == |p.layers|
    ensures clip.None? ==> r == p
    ensures clip.Some? ==> forall i :: 0 <= i < |p.layers| ==>
      var l := p.layers[i];
      (l.name !in clip.value ==> r.layers[i] == l) &&
      (l.name in clip.value ==> r.layers[i] == l.(frames := l.frames[p.current := clip.value[l.name].grid],
                                                  offsets := l.offsets[p.current := clip.value[l.name].offset],
                                                  framesExt := l.framesExt[p.current := clip.value[l.name].ext]))
  {
    match clip
    case None => p
    case Some(m) =>
      p.(layers := seq(|p.layers|, i requires 0 <= i < |p.layers| =>
        var l := p.layers[i];
        if l.name !in m then l
        else
          assert LayerShaped(l, p.framesCount);
          l.(frames := l.frames[p.current := m[l.name].grid],
             offsets := l.offsets[p.current := m[l.name].offset],
             framesExt := l.framesExt[p.current := m[l.name].ext])))
  }

  predicate UniqueNames(ls: seq<Layer>) {
    forall i, j :: 0 <= i < j < |ls| ==> ls[i].name != ls[j].name
  }

  /** With unique names every layer is the last of its name, so the clipboard holds its own entry. */
  lemma CopyUniqueEntry(ls: seq<Layer>, c: int, i: int)
    requires forall k :: 0 <= k < |ls| ==> Aligned(ls[k]) && 0 <= c < |ls[k].frames|
    requires UniqueNames(ls) && 0 <= i < |ls|
    ensures ls[i].name in CopyLayers(ls, c) && CopyLayers(ls, c)[ls[i].name] == EntryOf(ls[i], c)
  {
    assert LastOfName(ls, i);
  }

  /** One layer of a paste of what was copied at `c1`. */
  lemma PastedLayer(p: Project, c1: int, i: int)
    requires ProjectValid(p) && 0 <= c1 < p.framesCount && UniqueNames(p.layers) && 0 <= i < |p.layers|
    ensures var l := p.layers[i];
      var m := PasteFrame(p, Some(CopyLayers(p.layers, c1))).layers[i];
      m == l.(frames := l.frames[p.current := l.frames[c1]],
              offsets := l.offsets[p.current := l.offsets[c1]],
              framesExt := l.framesExt[p.current := l.framesExt[c1]]) &&
      LayerShaped(m, p.framesCount)
  {
    assert LayerShaped(p.layers[i], p.framesCount);
    CopyUniqueEntry(p.layers, c1, i);
    FrameCopyShaped(p.layers[i], p.framesCount, p.current, c1);
  }

  lemma FrameCopyShaped(l: Layer, n: int, c: int, c1: int)
    requires LayerShaped(l, n) && 0 <= c < n && 0 <= c1 < n
    ensures LayerShaped(l.(frames := l.frames[c := l.frames[c1]],
                           offsets := l.offsets[c := l.offsets[c1]],
                           framesExt := l.framesExt[c := l.framesExt[c1]]), n)
  {
  }

  /**
   * With unique layer names, copying at frame `c1` and pasting at the current
   * frame makes every layer's current frame (grid, overflow points and offset)
   * equal to its frame `c1`, and nothing else changes.
   */
  lemma CopyPasteMovesFrame(p: Project, c1: int)
    requires ProjectValid(p) && 0 <= c1 < p.framesCount && UniqueNames(p.layers)
    ensures var r := PasteFrame(p, Some(CopyLayers(p.layers, c1)));
      ProjectValid(r) &&
      forall i :: 0 <= i < |p.layers| ==>
        var l := p.layers[i];
        r.layers[i] == l.(frames := l.frames[p.current := l.frames[c1]],
                          offsets := l.offsets[p.current := l.offsets[c1]],
                          framesExt := l.framesExt[p.current := l.framesExt[c1]])
  {
    forall i | 0 <= i < |p.layers| {
      PastedLayer(p, c1, i);
    }
  }

  /** With unique layer names, pasting what was just copied changes nothing. */
  lemma PasteOfCopyIsIdentity(p: Project)
    requires ProjectValid(p) && UniqueNames(p.layers)
    ensures PasteFrame(p, Some(CopyLayers(p.layers, p.current))) == p
  {
    var r := PasteFrame(p, Some(CopyLayers(p.layers, p.current)));
    forall i | 0 <= i < |p.layers| ensures r.layers[i] == p.layers[i] {
      PastedLayer(p, p.current, i);
      var l := p.layers[i];
      assert l.frames[p.current := l.frames[p.current]] == l.frames;
      assert l.offsets[p.current := l.offsets[p.current]] == l.offsets;
      assert l.framesExt[p.current := l.framesExt[p.current]] == l.framesExt;
    }
    assert r.layers == p.layers;
  }

  // ---------------------------------------------------------------------------
  // Carry-forward after the playhead moves (app.jsx:97-110 runs on [current])
  // ---------------------------------------------------------------------------

  /**
   * The state after a commit that took `before` to `after`: the carry-forward
   * effect depends on `current` alone, so it runs exactly when the playhead
   * moved. It only ever replaces a blank current grid.
   */
  function AfterMove(before: Project, after: Project): (r: Project)
    requires ProjectValid(after)
    ensures ProjectValid(r)
    ensures r.(layers := after.layers) == after && |r.layers| == |after.layers|
    ensures after.current == before.current ==> r == after
    ensures forall i, j :: 0 <= i < |after.layers| && 0 <= j < after.framesCount && !IsBlank(after.layers[i].frames[j]) ==>
      r.layers[i].frames[j] == after.layers[i].frames[j]
  {
    if after.current == before.current then after
    else
      CarryForwardValid(after);
      AfterMoveKeepsInk(after);
      CarryForward(after)
  }

  lemma AfterMoveKeepsInk(p: Project)
    requires ProjectValid(p)
    ensures forall i, j :: 0 <= i < |p.layers| && 0 <= j < p.framesCount && !IsBlank(p.layers[i].frames[j]) ==>
      CarryForward(p).layers[i].frames[j] == p.layers[i].frames[j]
  {
    forall i, j | 0 <= i < |p.layers| && 0 <= j < p.framesCount && !IsBlank(p.layers[i].frames[j])
      ensures CarryForward(p).layers[i].frames[j] == p.layers[i].frames[j]
    {
      assert LayerShaped(p.layers[i], p.framesCount);
    }
  }

  /**
   * The delete button as the editor runs it: `deleteCurrentFrame()`, the
   * resize effect (which does nothing, the layers already having the new
   * count), and carry-forward when deleting the last frame moved the playhead.
   */
  function DeleteFrame(p: Project): (r: Project)
    requires ProjectValid(p)
    ensures ProjectValid(r)
    ensures r.framesCount == (if p.framesCount <= 1 then p.framesCount else p.framesCount - 1)
    ensures p.current < p.framesCount - 1 ==> r == DeleteCurrentFrame(p)
  {
    ResizeOfValidIsIdentity(DeleteCurrentFrame(p));
    AfterMove(p, Resize(DeleteCurrentFrame(p)))
  }

  /**
   * Deleting the last frame moves the playhead back one, so a layer whose new
   * current frame is blank has it filled from the frame before.
   */
  lemma DeleteLastCarries(p: Project, i: int)
    requires ProjectValid(p) && p.framesCount >= 3 && p.current == p.framesCount - 1
    requires 0 <= i < |p.layers| && IsBlank(p.layers[i].frames[p.current - 1])
    ensures DeleteFrame(p).current == p.current - 1
    ensures var m := DeleteFrame(p).layers[i];
      && m.frames[p.current - 1] == p.layers[i].frames[p.current - 2]
      && m.offsets[p.current - 1] == p.layers[i].offsets[p.current - 2]
      && m.framesExt[p.current - 1] == p.layers[i].framesExt[p.current - 2]
  {
    var d := DeleteCurrentFrame(p);
    ResizeOfValidIsIdentity(d);
    assert LayerShaped(p.layers[i], p.framesCount);
    var l := d.layers[i];
    assert l == DeleteInLayer(p.layers[i], p.current);
    assert l.frames[p.current - 1] == p.layers[i].frames[p.current - 1];
    assert l.frames[p.current - 2] == p.layers[i].frames[p.current - 2];
    assert LayerShaped(l, d.framesCount);
  }

  /** One tick of playback: `setCurrent` advances the playhead, then carry-forward runs if it moved. */
  function PlaybackStep(p: Project): (r: Project)
    requires ProjectValid(p)
    ensures ProjectValid(r) && r.current == Tick(p.current, p.framesCount)
    ensures r.framesCount == p.framesCount && r.fps == p.fps && |r.layers| == |p.layers|
    ensures p.framesCount == 1 ==> r == p
  {
    AfterMove(p, p.(current := Tick(p.current, p.framesCount)))
  }

  /**
   * Duplicating forward moves the playhead onto a copy of the frame it left,
   * so the carry-forward effect that follows changes nothing.
   */
  lemma DuplicateNeedsNoCarry(p: Project)
    requires ProjectValid(p)
    ensures AfterMove(p, DuplicateToNext(p)) == DuplicateToNext(p)
  {
    var r := DuplicateToNext(p);
    if p.current < p.framesCount - 1 {
      var c := r.current;
      forall i | 0 <= i < |r.layers| ensures CarryForwardLayer(r.layers[i], c) == r.layers[i] {
        assert LayerShaped(p.layers[i], p.framesCount);
        var m := r.layers[i];
        if IsBlank(m.frames[c]) {
          assert m.frames[c := m.frames[c - 1]] == m.frames;
          assert m.offsets[c := m.offsets[c - 1]] == m.offsets;
          assert m.framesExt[c := m.framesExt[c - 1]] == m.framesExt;
        }
      }
      assert CarryForward(r).layers == r.layers;
    }
  }
}
