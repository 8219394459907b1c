/**
 * Saving and loading: the project document written by "Export Project"
 * (app.jsx `serializeProject`), its restoration (`applyProject`), and the
 * upload handler that accepts either a project document or a raw
 * frames-bitmap document (`onUploadProject`).
 *
 * A parsed JSON document is a `Doc` whose fields are optional: `None`
 * stands for a key that is absent, and each `Some` holds a value of the type
 * the editor expects there.
 */
module ProjectCodec {
  import opened Options
  import opened Grid
  import opened Keyframes
  import opened Layers
  import opened BitCodec
  import opened Compositor
  import opened Header

  datatype MetaDoc = MetaDoc(width: Option<int>, height: Option<int>, framesCount: Option<int>, fps: Option<int>)

  /** One layer of a project document; grids are rows of numbers (1 lit, 0 unlit). */
  datatype LayerDoc = LayerDoc(
    id: Option<string>, name: Option<string>, kind: Option<string>, visible: Option<bool>,
    offsets: Option<seq<Point>>, keyframes: Option<seq<Keyframe>>,
    frames: Option<seq<seq<seq<int>>>>, framesExt: Option<seq<Option<seq<Point>>>>)

  /**
   * A parsed upload. A project document uses `schema`, `meta`, `layers` and
   * `selectedLayerId` (and, in older files, a top-level `framesCount`/`fps`);
   * a frames document uses `width`, `height`, `framesCount`, `fps` and
   * `frames`, one byte list per frame.
   */
  datatype Doc = Doc(
    schema: Option<int>, meta: Option<MetaDoc>, framesCount: Option<int>, fps: Option<int>,
    layers: Option<seq<LayerDoc>>, selectedLayerId: Option<string>,
    width: Option<int>, height: Option<int>, frames: Option<seq<seq<bv8>>>)

  const SCHEMA := 1
  const DEFAULT_FPS := 4

  // ---------------------------------------------------------------------------
  // JavaScript defaults
  // ---------------------------------------------------------------------------

  /** `a || b` for an optional number: absent and 0 both fall through to `b`. */
  function NumOr(a: Option<int>, b: int): (r: int)
    ensures a.Some? && a.value != 0 ==> r == a.value
    ensures a.None? || a.value == 0 ==> r == b
  {
    if a.Some? && a.value != 0 then a.value else b
  }

  /** `a || b` for an optional string: absent and "" both fall through to `b`. */
  function StrOr(a: Option<string>, b: string): (r: string)
    ensures Truthy(a) ==> r == a.value
    ensures !Truthy(a) ==> r == b
  {
    if Truthy(a) then a.value else b
  }

  /** A string in a template literal: an absent value prints as "undefined". */
  function TemplateText(a: Option<string>): string {
    if a.Some? then a.value else "undefined"
  }

  /** `Math.max(1, Math.floor(v))` for an integral `v`. */
  function AtLeastOne(v: int): (r: int)
    ensures r >= 1 && r >= v
    ensures v >= 1 ==> r == v
  {
    if v < 1 then 1 else v
  }

  // ---------------------------------------------------------------------------
  // Grids as rows of numbers
  // ---------------------------------------------------------------------------

  /** `g.map(row => row.map(v => v ? 1 : 0))`. */
  function GridToDoc(g: Grid): (d: seq<seq<int>>)
    ensures |d| == |g|
    ensures forall y :: 0 <= y < |g| ==> |d[y]| == |g[y]|
    ensures forall y, x :: 0 <= y < |g| && 0 <= x < |g[y]| ==> (d[y][x] == 1 <==> g[y][x]) && (d[y][x] == 0 <==> !g[y][x])
  {
    seq(|g|, y requires 0 <= y < |g| => seq(|g[y]|, x requires 0 <= x < |g[y]| => if g[y][x] then 1 else 0))
  }

  /** `g.map(row => row.map(v => !!v))`: every non-zero number is lit. */
  function GridFromDoc(d: seq<seq<int>>): (g: Grid)
    ensures |g| == |d|
    ensures forall y :: 0 <= y < |d| ==> |g[y]| == |d[y]|
    ensures forall y, x :: 0 <= y < |d| && 0 <= x < |d[y]| ==> (g[y][x] <==> d[y][x] != 0)
  {
    seq(|d|, y requires 0 <= y < |d| => seq(|d[y]|, x requires 0 <= x < |d[y]| => d[y][x] != 0))
  }

  /** A grid written to a project document reads back unchanged, whatever its shape. */
  lemma GridDocRoundTrip(g: Grid)
    ensures GridFromDoc(GridToDoc(g)) == g
  {
    var g2 := GridFromDoc(GridToDoc(g));
    forall y | 0 <= y < |g| ensures g2[y] == g[y] {
    }
  }

  /** A grid in a document with the editor's 27x9 shape. */
  predicate GridDocShaped(d: seq<seq<int>>) {
    |d| == HEIGHT && forall y :: 0 <= y < HEIGHT ==> |d[y]| == WIDTH
  }

  // ---------------------------------------------------------------------------
  // Save Project
  // ---------------------------------------------------------------------------

  function LayerToDoc(l: Layer): (d: LayerDoc)
    ensures d.id == Some(l.id) && d.name == Some(l.name) && d.kind == Some(l.kind) && d.visible == Some(l.visible)
    ensures d.offsets == Some(l.offsets) && d.keyframes == Some(l.keyframes)
    ensures d.frames.Some? && |d.frames.value| == |l.frames|
    ensures forall f :: 0 <= f < |l.frames| ==> d.frames.value[f] == GridToDoc(l.frames[f])
    ensures d.framesExt.Some? && |d.framesExt.value| == |l.framesExt|
    ensures forall f :: 0 <= f < |l.framesExt| ==> d.framesExt.value[f] == Some(l.framesExt[f])
  {
    LayerDoc(Some(l.id), Some(l.name), Some(l.kind), Some(l.visible), Some(l.offsets), Some(l.keyframes),
             Some(seq(|l.frames|, f requires 0 <= f < |l.frames| => GridToDoc(l.frames[f]))),
             Some(seq(|l.framesExt|, f requires 0 <= f < |l.framesExt| => Some(l.framesExt[f]))))
  }

  /** `serializeProject()`: schema 1, the matrix size and timing in `meta`, every layer, the selection. */
  function Serialize(p: Project): (d: Doc)
    ensures d.schema == Some(SCHEMA) && d.layers.Some? && |d.layers.value| == |p.layers|
    ensures d.meta == Some(MetaDoc(Some(WIDTH), Some(HEIGHT), Some(p.framesCount), Some(p.fps)))
    ensures forall i :: 0 <= i < |p.layers| ==> d.layers.value[i] == LayerToDoc(p.layers[i])
    ensures d.selectedLayerId == p.selectedLayerId
    ensures d.framesCount.None? && d.fps.None? && d.frames.None?
  {
    Doc(Some(SCHEMA), Some(MetaDoc(Some(WIDTH), Some(HEIGHT), Some(p.framesCount), Some(p.fps))), None, None,
        Some(seq(|p.layers|, i requires 0 <= i < |p.layers| => LayerToDoc(p.layers[i]))),
        p.selectedLayerId, None, None, None)
  }

  // ---------------------------------------------------------------------------
  // Load Project
  // ---------------------------------------------------------------------------

  /** `p.layers || []`. */
  function LayerDocs(doc: Doc): seq<LayerDoc> {
    if doc.layers.Some? then doc.layers.value else []
  }

  /** `p.meta || {}`. */
  function MetaOf(doc: Doc): MetaDoc {
    if doc.meta.Some? then doc.meta.value else MetaDoc(None, None, None, None)
  }

  /** `meta.framesCount || p.framesCount || 1`. */
  function RestoredFramesCount(doc: Doc): (fc: int)
    ensures fc != 0
    ensures NumOr(MetaOf(doc).framesCount, 0) != 0 ==> fc == MetaOf(doc).framesCount.value
  {
    NumOr(MetaOf(doc).framesCount, NumOr(doc.framesCount, 1))
  }

  /** `meta.fps || p.fps || 4`. */
  function RestoredFps(doc: Doc): (fps: int)
    ensures fps != 0
    ensures NumOr(MetaOf(doc).fps, 0) != 0 ==> fps == MetaOf(doc).fps.value
  {
    NumOr(MetaOf(doc).fps, NumOr(doc.fps, DEFAULT_FPS))
  }

  /**
   * One restored layer for frame count `fc`; `suffix` stands for the random
   * part of a generated id. Sequences are cut to `fc` but never padded.
   */
  function RestoreLayer(d: LayerDoc, fc: int, suffix: string): (l: Layer)
    ensures l.id != ""
    ensures l.id == if Truthy(d.id) then d.id.value else TemplateText(d.name) + "-" + suffix
    ensures l.name == StrOr(d.name, "Layer") && l.kind == StrOr(d.kind, "draw")
    ensures l.visible <==> d.visible != Some(false)
    ensures l.keyframes == if d.keyframes.Some? then d.keyframes.value else []
    ensures d.offsets.Some? ==> l.offsets == SliceTo(d.offsets.value, fc)
    ensures d.offsets.None? ==> l.offsets == seq(Len(fc), _ => ORIGIN)
    ensures var fs := SliceTo(if d.frames.Some? then d.frames.value else [], fc);
            |l.frames| == |fs| && forall f :: 0 <= f < |fs| ==> l.frames[f] == GridFromDoc(fs[f])
    ensures var xs := SliceTo(if d.framesExt.Some? then d.framesExt.value else [], fc);
            |l.framesExt| == |xs| &&
            forall f :: 0 <= f < |xs| ==> l.framesExt[f] == if xs[f].Some? then xs[f].value else []
  {
    var fs := SliceTo(if d.frames.Some? then d.frames.value else [], fc);
    var xs := SliceTo(if d.framesExt.Some? then d.framesExt.value else [], fc);
    Layer(if Truthy(d.id) then d.id.value else TemplateText(d.name) + "-" + suffix,
          StrOr(d.name, "Layer"), StrOr(d.kind, "draw"), d.visible != Some(false),
          seq(|fs|, f requires 0 <= f < |fs| => GridFromDoc(fs[f])),
          seq(|xs|, f requires 0 <= f < |xs| => if xs[f].Some? then xs[f].value else []),
          if d.offsets.Some? then SliceTo(d.offsets.value, fc) else seq(Len(fc), _ => ORIGIN),
          if d.keyframes.Some? then d.keyframes.value else [])
  }

  /**
   * `applyProject(p)`: the five state variables it sets. The selection is
   * the document's when that is non-empty, else the first restored layer's.
   * A selection naming no restored layer is kept as it is.
   */
  function ApplyProject(doc: Doc, suffixes: seq<string>): (p: Project)
    requires |suffixes| >= |LayerDocs(doc)|
    ensures p.framesCount == RestoredFramesCount(doc) && p.fps == RestoredFps(doc) && p.current == 0
    ensures |p.layers| == |LayerDocs(doc)|
    ensures forall i :: 0 <= i < |p.layers| ==> p.layers[i] == RestoreLayer(LayerDocs(doc)[i], p.framesCount, suffixes[i])
    ensures Truthy(doc.selectedLayerId) ==> p.selectedLayerId == doc.selectedLayerId
    ensures !Truthy(doc.selectedLayerId) && |p.layers| > 0 ==> p.selectedLayerId == Some(p.layers[0].id)
    ensures !Truthy(doc.selectedLayerId) && |p.layers| == 0 ==> p.selectedLayerId.None?
  {
    var fc := RestoredFramesCount(doc);
    var ds := LayerDocs(doc);
    var restored := seq(|ds|, i requires 0 <= i < |ds| => RestoreLayer(ds[i], fc, suffixes[i]));
    var sel := if Truthy(doc.selectedLayerId) then doc.selectedLayerId
               else if |restored| > 0 then Some(restored[0].id) else None;
    Project(fc, RestoredFps(doc), 0, restored, sel)
  }

  /** Every restored layer has an id, so the selection is non-empty whenever there is a layer. */
  lemma ApplyProjectSelects(doc: Doc, suffixes: seq<string>)
    requires |suffixes| >= |LayerDocs(doc)|
    ensures var p := ApplyProject(doc, suffixes); |p.layers| > 0 ==> Truthy(p.selectedLayerId)
    ensures var p := ApplyProject(doc, suffixes); SelectFirst(p) == p
  {
  }

  /** A layer entry with no keys at all restores to a visible, empty draw layer called "Layer". */
  lemma RestoreEmptyLayer(fc: int, suffix: string)
    requires fc >= 0
    ensures var l := RestoreLayer(LayerDoc(None, None, None, None, None, None, None, None), fc, suffix);
            && l.id == "undefined-" + suffix && l.name == "Layer" && l.kind == "draw" && l.visible
            && l.frames == [] && l.framesExt == [] && l.keyframes == []
            && |l.offsets| == fc && forall f :: 0 <= f < fc ==> l.offsets[f] == ORIGIN
  {
  }

  /** A document without `meta` and without top-level counts restores to one frame at 4 fps. */
  lemma ApplyDefaults(doc: Doc, suffixes: seq<string>)
    requires doc.meta.None? && doc.framesCount.None? && doc.fps.None?
    requires |suffixes| >= |LayerDocs(doc)|
    ensures ApplyProject(doc, suffixes).framesCount == 1
    ensures ApplyProject(doc, suffixes).fps == DEFAULT_FPS
  {
  }

  /** What the editor keeps true, plus what a save-and-load must not lose to JavaScript defaults. */
  predicate Saveable(p: Project) {
    && ProjectValid(p)
    && p.fps != 0
    && (Truthy(p.selectedLayerId) || (p.selectedLayerId.None? && |p.layers| == 0))
    && forall i :: 0 <= i < |p.layers| ==> p.layers[i].id != "" && p.layers[i].name != "" && p.layers[i].kind != ""
  }

  lemma RestoreLayerOfDoc(l: Layer, fc: int, suffix: string)
    requires fc >= 1 && LayerShaped(l, fc)
    requires l.id != "" && l.name != "" && l.kind != ""
    ensures RestoreLayer(LayerToDoc(l), fc, suffix) == l
  {
    var d := LayerToDoc(l);
    var r := RestoreLayer(d, fc, suffix);
    assert SliceTo(d.frames.value, fc) == d.frames.value;
    assert SliceTo(d.framesExt.value, fc) == d.framesExt.value;
    assert SliceTo(l.offsets, fc) == l.offsets;
    forall f | 0 <= f < fc ensures r.frames[f] == l.frames[f] {
      GridDocRoundTrip(l.frames[f]);
    }
    assert r.frames == l.frames;
    assert r.framesExt == l.framesExt;
  }

  /** Loading a saved project gives back the project, with the playhead on the first frame. */
  lemma ProjectRoundTrip(p: Project, suffixes: seq<string>)
    requires Saveable(p)
    requires |suffixes| >= |p.layers|
    ensures ApplyProject(Serialize(p), suffixes) == p.(current := 0)
  {
    var d := Serialize(p);
    var r := ApplyProject(d, suffixes);
    assert LayerDocs(d) == d.layers.value;
    forall i | 0 <= i < |p.layers| ensures r.layers[i] == p.layers[i] {
      RestoreLayerOfDoc(p.layers[i], p.framesCount, suffixes[i]);
    }
    assert r.layers == p.layers;
  }

  // ---------------------------------------------------------------------------
  // The upload handler
  // ---------------------------------------------------------------------------

  /** Taken as a project document: it has a `layers` list, or says schema 1. */
  predicate IsProjectShape(doc: Doc) {
    doc.layers.Some? || doc.schema == Some(SCHEMA)
  }

  /** Taken as a frames document: a `frames` list and a numeric width and height. */
  predicate IsRawShape(doc: Doc) {
    doc.frames.Some? && doc.width.Some? && doc.height.Some?
  }

  /**
   * A project document loaded as the code does it: the resize effect only
   * runs when the frame count changes, so with an unchanged count the layers
   * keep whatever lengths the document gave them. This is the state once the
   * effects have run; the render before them is `RenderPrecedesResize`'s.
   */
  function ImportProjectAsWritten(prev: Project, doc: Doc, suffixes: seq<string>): Project
    requires |suffixes| >= |LayerDocs(doc)|
  {
    var a := ApplyProject(doc, suffixes);
    if a.framesCount != prev.framesCount then Resize(a) else a
  }

  /** The short document of the finding: `n` frames announced, a layer with none. */
  function ShortDoc(n: int): Doc {
    Doc(Some(SCHEMA), Some(MetaDoc(None, None, Some(n), None)), None, None,
        Some([LayerDoc(Some("a"), None, None, None, None, None, Some([]), None)]), None, None, None, None)
  }

  /**
   * With the editor on its initial eight frames, loading `ShortDoc(8)` leaves
   * a visible layer with no grids, so compositing the current frame reads a
   * grid that is not there.
   */
  lemma ShortLayerSurvivesImport(prev: Project, suffixes: seq<string>)
    requires prev.framesCount == 8 && |suffixes| >= 1
    ensures var p := ImportProjectAsWritten(prev, ShortDoc(8), suffixes);
            p.current == 0 && |p.layers| == 1 && p.layers[0].frames == [] && !CanMerge(p.layers, p.current)
  {
    var doc := ShortDoc(8);
    assert LayerDocs(doc) == doc.layers.value;
    var a := ApplyProject(doc, suffixes);
    assert a.framesCount == 8;
    var none: seq<seq<seq<int>>> := [];
    assert SliceTo(none, 8) == [];
    assert a.layers[0].visible;
  }

  /**
   * React renders before it runs effects, so the render of app.jsx:639
   * composites the layers exactly as `applyProject` restored them. Loading
   * `ShortDoc(5)` into an eight-frame editor would end, once the resize
   * effect ran, in a consistent five-frame project; but the state rendered
   * first still has a visible layer with no grids, so the render throws
   * before that effect can pad it.
   */
  lemma RenderPrecedesResize(prev: Project, suffixes: seq<string>)
    requires prev.framesCount == 8 && |suffixes| >= 1
    ensures !CanMerge(ApplyProject(ShortDoc(5), suffixes).layers, 0)
    ensures var p := ImportProjectAsWritten(prev, ShortDoc(5), suffixes);
            p.framesCount == 5 && ProjectValid(p) && CanMerge(p.layers, 0)
  {
    var doc := ShortDoc(5);
    assert LayerDocs(doc) == doc.layers.value;
    var a := ApplyProject(doc, suffixes);
    assert a.framesCount == 5;
    var none: seq<seq<seq<int>>> := [];
    assert SliceTo(none, 5) == [];
    assert a.layers[0].visible && a.layers[0].frames == [];
    ResizeMakesValid(a);
    ValidIsExportable(Resize(a));
  }

  /** A project document loaded with every layer brought to the restored frame count. */
  function ImportProject(doc: Doc, suffixes: seq<string>): Project
    requires |suffixes| >= |LayerDocs(doc)|
  {
    Resize(ApplyProject(doc, suffixes))
  }

  /** A document with a positive frame count and well-shaped grids loads into a consistent project. */
  lemma ImportProjectValid(doc: Doc, suffixes: seq<string>)
    requires |suffixes| >= |LayerDocs(doc)|
    requires RestoredFramesCount(doc) >= 1
    requires forall i :: 0 <= i < |LayerDocs(doc)| && LayerDocs(doc)[i].frames.Some? ==>
               forall f :: 0 <= f < |LayerDocs(doc)[i].frames.value| ==> GridDocShaped(LayerDocs(doc)[i].frames.value[f])
    ensures ProjectValid(ImportProject(doc, suffixes))
    ensures forall f :: 0 <= f < ImportProject(doc, suffixes).framesCount ==> CanMerge(ImportProject(doc, suffixes).layers, f)
  {
    var a := ApplyProject(doc, suffixes);
    var ds := LayerDocs(doc);
    forall i | 0 <= i < |a.layers| ensures FramesWellFormed(a.layers[i]) {
      var fs := SliceTo(if ds[i].frames.Some? then ds[i].frames.value else [], a.framesCount);
      forall f | 0 <= f < |a.layers[i].frames| ensures WellFormed(a.layers[i].frames[f]) {
        assert fs[f] == ds[i].frames.value[f];
        assert GridDocShaped(fs[f]);
      }
    }
    ResizeMakesValid(a);
    ValidIsExportable(Resize(a));
  }

  /** Loading a saved project the corrected way also gives it back. */
  lemma ImportRoundTrip(p: Project, suffixes: seq<string>)
    requires Saveable(p)
    requires |suffixes| >= |p.layers|
    ensures ImportProject(Serialize(p), suffixes) == p.(current := 0)
  {
    ProjectRoundTrip(p, suffixes);
    ResizeOfValidIsIdentity(p.(current := 0));
  }

  /** Uploading a saved project gives it back whatever frame count the editor had before. */
  lemma UploadRoundTrip(prev: Project, p: Project, suffixes: seq<string>)
    requires Saveable(p)
    requires |suffixes| >= |p.layers|
    ensures ImportProjectAsWritten(prev, Serialize(p), suffixes) == p.(current := 0)
  {
    ProjectRoundTrip(p, suffixes);
    ResizeOfValidIsIdentity(p.(current := 0));
  }

  lemma ValidIsExportable(p: Project)
    requires ProjectValid(p)
    ensures Exportable(p)
  {
    forall f | 0 <= f < p.framesCount ensures CanMerge(p.layers, f) {
      forall i | 0 <= i < |p.layers| && p.layers[i].visible ensures 0 <= f < |p.layers[i].frames| && WellFormed(p.layers[i].frames[f]) {
        assert LayerShaped(p.layers[i], p.framesCount);
      }
    }
  }

  // ---------------------------------------------------------------------------
  // Raw frames import
  // ---------------------------------------------------------------------------

  /** `data.frames[fidx] || []`. */
  function RawFrame(frames: seq<seq<bv8>>, f: int): seq<bv8> {
    if 0 <= f < |frames| then frames[f] else []
  }

  /** `Math.max(1, Math.floor(data.framesCount || data.frames.length))`. */
  function RawFramesCount(doc: Doc): (fc: int)
    requires IsRawShape(doc)
    ensures fc >= 1
  {
    AtLeastOne(NumOr(doc.framesCount, |doc.frames.value|))
  }

  /**
   * The state after a frames document is loaded and the resize effect has
   * run: one draw layer holding the decoded frames, then an empty text and
   * an empty number layer. The new layers are made with the OLD frame count;
   * only the decoded grids follow the document's count, until the resize
   * effect (which runs when the count changes) aligns them.
   */
  function RawImportResult(prev: Project, doc: Doc, suffixes: seq<string>): (p: Project)
    requires IsRawShape(doc) && |suffixes| >= 3
    ensures p.framesCount == RawFramesCount(doc) && p.current == 0
    ensures p.fps == AtLeastOne(NumOr(doc.fps, prev.fps))
  {
    var w := AtLeastOne(doc.width.value);
    var h := AtLeastOne(doc.height.value);
    var fc := RawFramesCount(doc);
    var drawn := MakeLayer("Imported Draw-" + suffixes[0], "Imported Draw", "draw", prev.framesCount)
      .(frames := seq(fc, f => DecodedGrid(RawFrame(doc.frames.value, f), w, h)));
    var s := Project(fc, AtLeastOne(NumOr(doc.fps, prev.fps)), 0,
                     [drawn, MakeLayer("Text Layer-" + suffixes[1], "Text Layer", "text", prev.framesCount),
                      MakeLayer("Number Layer-" + suffixes[2], "Number Layer", "number", prev.framesCount)],
                     Some(drawn.id));
    if fc != prev.framesCount then Resize(s) else s
  }

  /** The frames-document branch: every frame decoded with `toGrid` into a fresh frame list. */
  method RawImport(prev: Project, doc: Doc, suffixes: seq<string>) returns (r: Project)
    requires IsRawShape(doc) && |suffixes| >= 3
    ensures r == RawImportResult(prev, doc, suffixes)
  {
    var w := AtLeastOne(doc.width.value);
    var h := AtLeastOne(doc.height.value);
    var fc := RawFramesCount(doc);
    var frames := new Grid[fc](_ => EmptyGrid());
    var f := 0;
    while f < fc
      invariant 0 <= f <= fc
      invariant forall j :: 0 <= j < f ==> frames[j] == DecodedGrid(RawFrame(doc.frames.value, j), w, h)
    {
      var g := ToGrid(RawFrame(doc.frames.value, f), w, h);
      DecodedGridUnique(g, RawFrame(doc.frames.value, f), w, h);
      frames[f] := g;
      f := f + 1;
    }
    assert frames[..] == seq(fc, j => DecodedGrid(RawFrame(doc.frames.value, j), w, h));
    var drawn := MakeLayer("Imported Draw-" + suffixes[0], "Imported Draw", "draw", prev.framesCount).(frames := frames[..]);
    var s := Project(fc, AtLeastOne(NumOr(doc.fps, prev.fps)), 0,
                     [drawn, MakeLayer("Text Layer-" + suffixes[1], "Text Layer", "text", prev.framesCount),
                      MakeLayer("Number Layer-" + suffixes[2], "Number Layer", "number", prev.framesCount)],
                     Some(drawn.id));
    if fc != prev.framesCount {
      r := Resize(s);
    } else {
      r := s;
    }
  }

  /**
   * A loaded frames document is consistent: three layers, the imported one
   * selected, its grids the decoded frames, whatever the previous frame count was.
   */
  lemma RawImportValid(prev: Project, doc: Doc, suffixes: seq<string>)
    requires IsRawShape(doc) && |suffixes| >= 3
    ensures var p := RawImportResult(prev, doc, suffixes);
            && ProjectValid(p) && |p.layers| == 3
            && p.selectedLayerId == Some(p.layers[0].id)
            && p.layers[0].kind == "draw" && p.layers[1].kind == "text" && p.layers[2].kind == "number"
            && forall f :: 0 <= f < p.framesCount ==>
                 p.layers[0].frames[f] == DecodedGrid(RawFrame(doc.frames.value, f), AtLeastOne(doc.width.value), AtLeastOne(doc.height.value))
  {
    var w := AtLeastOne(doc.width.value);
    var h := AtLeastOne(doc.height.value);
    var fc := RawFramesCount(doc);
    var drawn := MakeLayer("Imported Draw-" + suffixes[0], "Imported Draw", "draw", prev.framesCount)
      .(frames := seq(fc, f => DecodedGrid(RawFrame(doc.frames.value, f), w, h)));
    var s := Project(fc, AtLeastOne(NumOr(doc.fps, prev.fps)), 0,
                     [drawn, MakeLayer("Text Layer-" + suffixes[1], "Text Layer", "text", prev.framesCount),
                      MakeLayer("Number Layer-" + suffixes[2], "Number Layer", "number", prev.framesCount)],
                     Some(drawn.id));
    assert FramesWellFormed(drawn);
    if fc != prev.framesCount {
      ResizeMakesValid(s);
    } else {
      assert ProjectValid(s);
    }
  }

  /** The upload handler on a parsed document; `None` is a document that is not an object. */
  method ImportDocument(prev: Project, doc: Option<Doc>, suffixes: seq<string>) returns (r: Project)
    requires doc.Some? ==> |suffixes| >= |LayerDocs(doc.value)| && |suffixes| >= 3
    ensures doc.Some? && IsProjectShape(doc.value) ==> r == ImportProjectAsWritten(prev, doc.value, suffixes)
    ensures doc.Some? && !IsProjectShape(doc.value) && IsRawShape(doc.value) ==> r == RawImportResult(prev, doc.value, suffixes)
    ensures doc.None? || (!IsProjectShape(doc.value) && !IsRawShape(doc.value)) ==> r == prev
  {
    if doc.Some? && IsProjectShape(doc.value) {
      r := ImportProjectAsWritten(prev, doc.value, suffixes);
    } else if doc.Some? && IsRawShape(doc.value) {
      r := RawImport(prev, doc.value, suffixes);
    } else {
      r := prev;
    }
  }

  /** The parsed form of an "Export Frames JSON" file; the byte count per frame is not read back. */
  function FramesDocToDoc(fd: FramesDoc): (d: Doc)
    ensures IsRawShape(d) && !IsProjectShape(d)
    ensures d.frames == Some(fd.frames) && d.width == Some(fd.width) && d.height == Some(fd.height)
    ensures d.framesCount == Some(fd.framesCount) && d.fps == Some(fd.fps)
  {
    Doc(None, None, Some(fd.framesCount), Some(fd.fps), None, None, Some(fd.width), Some(fd.height), Some(fd.frames))
  }

  /**
   * Exporting the frames of a consistent project and uploading the file gives
   * a project with the same frame count whose imported layer holds exactly
   * the composited pictures.
   */
  method ReimportFrames(p: Project, prev: Project, suffixes: seq<string>) returns (r: Project)
    requires ProjectValid(p) && |suffixes| >= 3
    ensures ProjectValid(r) && r.framesCount == p.framesCount && |r.layers| == 3
    ensures forall f :: 0 <= f < p.framesCount ==> CanMerge(p.layers, f) && r.layers[0].frames[f] == ImageOf(p.layers, f)
  {
    ValidIsExportable(p);
    var fd := ExportFrames(p);
    var doc := FramesDocToDoc(fd);
    assert LayerDocs(doc) == [];
    r := ImportDocument(prev, Some(doc), suffixes);
    RawImportValid(prev, doc, suffixes);
    assert AtLeastOne(doc.width.value) == WIDTH && AtLeastOne(doc.height.value) == HEIGHT;
    assert RawFramesCount(doc) == p.framesCount;
    forall f | 0 <= f < p.framesCount ensures r.layers[0].frames[f] == ImageOf(p.layers, f) {
      var img := ImageOf(p.layers, f);
      assert Images(p)[f] == img;
      assert RawFrame(doc.frames.value, f) == fd.frames[f];
      BytesRoundTrip(img, fd.frames[f], DecodedGrid(fd.frames[f], WIDTH, HEIGHT));
    }
  }
}
