# LED matrix animator: a verified model of its data core

The animator edits short animations for a 27 x 9 on/off LED matrix. An
animation has `framesCount` frames and a list of layers. Each layer holds,
per frame:

- a 27 x 9 grid of lit and unlit cells;
- a list of overflow points: cells painted outside the layer's own grid,
  in layer-local coordinates;
- a static offset.

A layer also has a list of keyframes. When it has any, they decide the
layer's offset instead of the static offsets, by holding and linear
interpolation. The frame the user sees is the logical OR of every visible
layer, each layer moved by its offset at that frame.

The editor exports the composited frames in two forms:

- a C header, one 32-bit word per row;
- a frames JSON file, an LSB-first bitstream of 31 bytes per frame.

It also saves and loads a lossless project document, and it can load a
frames file back as a single drawing layer.

The model lifts every React state updater and effect of `app.jsx` out as a
function from the old `Project` value to the new one. The code built from
loops becomes methods with loop invariants, proved against specification
functions:

- the byte and word packers;
- the `toGrid` decoder;
- the compositor `mergeFrame`;
- the glyph stamping of `applyText` and `stampNumber`;
- `emptyCheck`;
- the two exports and the raw import.

The modules follow the program's parts:

| file | module | what it holds |
|---|---|---|
| grid.dfy | `Options`, `Grid` | the constants, `emptyGrid`, `safeSet`, `emptyCheck`, the offset clamp |
| keyframes.dfy | `Keyframes` | `kfs`, `upsertKF`, `removeKF`, `interp`, `getOffsetAt` |
| layers.dfy | `Layers` | the project state and the frame-sequence edits |
| compositor.dfy | `Compositor` | `mergeFrame` and what painting and duplicating do to the picture |
| bitcodec.dfy | `BitCodec` | `packFrameToBytes`, `packFrameToWords`, `toGrid` |
| glyphs.dfy | `Glyphs` | `applyText`, `stampNumber` |
| header.dfy | `Header` | `toString` numerals, the header text, both exports |
| projectcodec.dfy | `ProjectCodec` | `serializeProject`, `applyProject`, the upload handler |

Facts about `app.jsx` that the model makes explicit:

- The byte packer allocates `Math.ceil(243 / 8)` = 31 bytes per frame; the last five bits of the last byte are padding.
- `Math.round` is floor(v + 1/2), so a tie goes toward +infinity: -2.5 rounds to -2.
- The carry-forward effect tests only a frame's grid for blankness. Overflow points at that frame do not stop the copy.
- The resize effect leaves keyframes alone, so a keyframe past the new last frame survives a shrink.
- `applyProject` keeps a non-empty `selectedLayerId` even when no restored layer has that id.
- The code has no header parser and no word unpacker. The model proves that the word packing can be read back (`BitCodec.WordsLossless`) and that it is unique.

## Model

| member | source | states |
|---|---|---|
| Grid.EmptyGrid | app.jsx:17 | the fresh grid has 9 rows of 27 cells, all unlit |
| Grid.SafeSet | app.jsx:94 | exactly cell (x, y) takes the new value when it exists; every other cell, and the whole grid when (x, y) is outside, is unchanged |
| Grid.EmptyCheck | app.jsx:95 | the loop answers true exactly when no cell of any row is lit |
| Grid.Clamp | app.jsx:193-194 | the result lies in [-bound, bound]; a value inside is kept, a value below or above saturates at the nearer bound |
| Keyframes.InsertByFrame | app.jsx:72 | inserting into a sorted list keeps it sorted and adds exactly one entry (multiset) |
| Keyframes.SortByFrame | app.jsx:72 | `kfs` returns a list sorted by frame index that is a permutation of the keyframes |
| Keyframes.SortSortedIsIdentity | app.jsx:72 | an already sorted list comes back unchanged |
| Keyframes.SortKeepsUnique | app.jsx:72 | sorting keeps frame indices unique |
| Keyframes.WithoutFrame | app.jsx:73-74 | the filter `k.f !== f` removes exactly the entries at `f` and keeps every other entry with its count, and it keeps sortedness and uniqueness |
| Keyframes.UpsertKeyframe | app.jsx:73 | after `upsertKF(f, x, y)` the list is sorted and contains `{f, x, y}`; it is the only entry at `f`; every other keyframe keeps its count; unique indices stay unique |
| Keyframes.RemoveKeyframe | app.jsx:74 | `removeKF(f)` gives a sorted list without the entries at `f`; every other entry keeps its count; unique indices stay unique |
| Keyframes.RoundDiv | app.jsx:75 | `Math.round(n / d)` is the integer r with r <= n/d + 1/2 < r + 1 |
| Keyframes.Interp | app.jsx:75 | for 0 <= t <= 1 the interpolated value lies between the two endpoints; t = 0 gives `a` and t = 1 gives `b` |
| Keyframes.InterpBetween | app.jsx:75 | the rounded quotient of `a + (b - a) * num / den` lies between `a` and `b` |
| Keyframes.RoundDivExact | app.jsx:75 | rounding an exact quotient changes nothing |
| Keyframes.RoundingTieExample | app.jsx:75 | halfway from 0 to -5 is -2.5, which rounds to -2 |
| Keyframes.FirstAt | app.jsx:80 | `list.find(k => k.f === f)`: the first index at `f`, or none at all |
| Keyframes.LastBefore | app.jsx:82 | the last index with `k.f < f`; no later entry is before `f` |
| Keyframes.FirstAfter | app.jsx:83 | the first index with `k.f > f`; no earlier entry is after `f` |
| Keyframes.OffsetEntry | app.jsx:79 | `l.offsets[f] \|\| {x: 0, y: 0}`; defined directly, its use is stated by `OffsetWithoutKeyframes` |
| Keyframes.OffsetInList | app.jsx:80-90 | the search of `getOffsetAt` over the sorted list, by cases; each case is stated by the lemmas below, and `ListSpanned` bounds it |
| Keyframes.OffsetAt | app.jsx:76-91 | `getOffsetAt(l, f)`: sort the keyframes, then search; defined directly, stated by the case lemmas below and by `OffsetWithinKeyframes` |
| Keyframes.ListSpanned | app.jsx:80-90 | on a non-empty sorted list, each axis of the offset lies between two keyframes' values on that axis |
| Keyframes.OffsetWithinKeyframes | app.jsx:76-91 | once a layer has keyframes, each axis of its offset at any frame lies between two keyframes' values on that axis: holding and rounded interpolation never leave the range |
| Keyframes.OffsetWithoutKeyframes | app.jsx:79 | without keyframes the offset is `offsets[f]`, or (0, 0) past the end of the array |
| Keyframes.OffsetAtKeyframe | app.jsx:80-81 | with unique frame indices, a keyframe exactly at `f` gives its own value |
| Keyframes.OffsetBeforeFirst | app.jsx:84 | when every keyframe is after `f`, the earliest keyframe's value is held backward |
| Keyframes.OffsetAfterLast | app.jsx:85 | when every keyframe is before `f`, the latest keyframe's value is held forward |
| Keyframes.OffsetBetween | app.jsx:86-89 | between neighbouring keyframes `kb.f < f < ka.f`, each axis is `interp(kb, ka, (f - kb.f) / (ka.f - kb.f))` |
| Keyframes.OffsetInterior | app.jsx:86-89 | when the searches find `before` and `after` and nothing at `f`, the offset is their interpolation |
| Keyframes.OffsetBetweenBounded | app.jsx:86-89 | the interpolated offset lies between the two endpoint values on both axes |
| Keyframes.UpsertSetsOffset | app.jsx:73-81 | after `upsertKF(f, x, y)` the offset at `f` is `(x, y)` |
| Keyframes.ExampleScenario | app.jsx:76-91 | keyframes 2 -> (0,0) and 8 -> (10,0) give (5,0) at frame 5, (0,0) at frame 0 and (10,0) at frame 10 |
| Layers.MakeLayer | app.jsx:19-26 | a new layer is visible and has no keyframes; each of its `n` frames is blank, with no overflow points and offset (0,0) |
| Layers.FindLayer | app.jsx:40 | `getLayer(id)` finds the first layer with that id, or reports that none has it |
| Layers.SelectFirst | app.jsx:43 | with nothing (or "") selected and at least one layer, the first layer is selected; otherwise nothing changes |
| Layers.Tick | app.jsx:68 | the playback step stays in [0, max(F,1)); it advances by one and wraps from the last frame to 0 |
| Layers.SliceTo | app.jsx:50 | `slice(0, n)` is a prefix: of length min(n, len) for n >= 0 and max(0, len + n) for negative n |
| Layers.PadOrTruncate | app.jsx:48-58 | each sequence gets exactly `n` entries: the old prefix, then the fill value |
| Layers.ResizeLayer | app.jsx:47-60 | only the frames, overflow lists and offsets of a layer change; each of the three keeps its old entries up to the new length and is padded with blank grids, (0,0) and [] respectively; for `n >= 0` each has length `n` |
| Layers.Resize | app.jsx:45-64 | every layer's three sequences get length `framesCount`; old entries are kept and new ones are blank grids, (0,0) and []; `current` is clamped; keyframes and other fields are untouched |
| Layers.ResizeMakesValid | app.jsx:45-64 | after the resize effect a positive frame count with well-formed grids gives a consistent project |
| Layers.ResizeOfValidIsIdentity | app.jsx:45-64 | the resize effect does nothing to a consistent project |
| Layers.CarryForwardLayer | app.jsx:100-107 | a blank current grid takes the previous frame's grid, offset and overflow points; a non-blank one is left alone; other frames never change |
| Layers.CarryForward | app.jsx:97-110 | at frame 0 nothing changes; otherwise each layer is carried forward on its own |
| Layers.CarryForwardValid | app.jsx:97-110 | carry-forward keeps the project consistent |
| Layers.CarryForwardIdempotent | app.jsx:97-110 | running the effect twice equals running it once |
| Layers.AfterMove | app.jsx:97-110 | the state after a commit: carry-forward runs exactly when `current` moved, keeps the project consistent, changes only the layers and never replaces a non-blank grid |
| Layers.AfterMoveKeepsInk | app.jsx:101-102 | carry-forward leaves every non-blank grid of every frame in place |
| Layers.PlaybackStep | app.jsx:66-70 | a playback tick, followed by the carry-forward effect of app.jsx:97-110, moves the playhead as `Tick` says and keeps the project consistent; at one frame it changes nothing |
| Layers.DeleteFrame | app.jsx:223-247 | the delete button with the resize (app.jsx:45-64) and carry-forward (app.jsx:97-110) effects it triggers: the count drops by one (never below one), the project stays consistent, and when the playhead stays put the result is the plain deletion |
| Layers.DeleteLastCarries | app.jsx:97-110 | deleting the last of three or more frames moves the playhead back one (app.jsx:246), and a blank grid there is filled with the frame before, along with its offset and overflow points |
| Layers.DuplicateNeedsNoCarry | app.jsx:210-221 | after duplicating forward, the carry-forward effect (app.jsx:97-110) that follows changes nothing |
| Layers.IndexOf | app.jsx:155 | `indexOf` returns -1 exactly when the key is absent, else its first position |
| Layers.EditOverflow | app.jsx:155-156 | painting adds the key only if absent; erasing removes one occurrence when present; no other point's count changes |
| Layers.EditOverflowNoDuplicates | app.jsx:155-156 | a duplicate-free overflow list stays duplicate-free; after the edit the key is present exactly when painting |
| Layers.PaintLayer | app.jsx:142-160 | painting through the offset keeps the layer's shape; what it changes is stated by `PaintLocal` and `PaintAtGlobal` |
| Layers.PaintLocal | app.jsx:144-159 | an in-bounds local cell sets exactly that cell of the current frame and leaves overflow alone; an out-of-bounds one edits only the current overflow list; other frames are unchanged |
| Layers.PaintAtGlobal | app.jsx:141-161 | only the layers with the target id change, each by the paint at the global cell minus its offset; the project stays consistent |
| Layers.UpsertOn | app.jsx:73 | `upsertKF` through `setLayer` updates the keyframes of exactly the layers with that id |
| Layers.UpsertOnValid | app.jsx:73 | a keyframe edit keeps the project consistent |
| Layers.AddKeyframe | app.jsx:183-187 | only the layers change; its effect is stated by `AddKeyframeKeepsOffset` |
| Layers.AddKeyframeKeepsOffset | app.jsx:183-187 | adding a keyframe does not move the selected layer at the current frame and keeps the project consistent |
| Layers.Nudged | app.jsx:193-203 | the offset moved by `(dx, dy)` and clamped per axis; the bounds come from `Grid.Clamp` |
| Layers.Nudge | app.jsx:189-208 | only the layers change and their number is kept; without a selected layer nothing changes; the moves are stated by `NudgeMovesSelected` |
| Layers.NudgeLayerAt | app.jsx:190-207 | the nudge of layer `i`: only the layers change; its branches are stated by `NudgeLayerAtKeyed` and `NudgeLayerAtStatic` |
| Layers.NudgeStatic | app.jsx:197-206 | the no-keyframe branch moves only `offsets[current]`, by `(dx, dy)` clamped to ±(W+64), ±(H+64) |
| Layers.NudgeOn | app.jsx:197-206 | the static nudge reaches exactly the layers with the selected id |
| Layers.NudgeMovesSelected | app.jsx:189-208 | on either branch the selected layer's offset at the current frame becomes its former offset plus `(dx, dy)`, clamped |
| Layers.NudgeLayerAtKeyed | app.jsx:192-195 | with keyframes the nudge is an upsert, at the current frame, of the clamped moved offset |
| Layers.NudgeLayerAtStatic | app.jsx:196-206 | without keyframes the nudge is the static-offset update |
| Layers.NudgeValid | app.jsx:189-208 | a nudge keeps the project consistent |
| Layers.DuplicateLayer | app.jsx:213-218 | frame `c + 1` takes frame `c`'s grid, overflow points and offset; every other frame is kept |
| Layers.DuplicateToNext | app.jsx:210-221 | on the last frame nothing changes; otherwise every layer is duplicated forward and `current` advances by one |
| Layers.RemoveAt | app.jsx:228-235 | `splice(c, 1)` removes exactly entry `c` and shifts the rest down |
| Layers.DropAndShift | app.jsx:237-239 | a keyframe survives deletion exactly when its pre-image was there and not at `c`; sortedness and uniqueness are kept |
| Layers.DeleteInLayer | app.jsx:227-241 | frame `c` is removed from all three sequences and the keyframes are dropped and renumbered |
| Layers.DeleteCurrentFrame | app.jsx:223-247 | with one frame nothing changes; otherwise the count drops by one, `current` is clamped and every layer deletes the frame; the project stays consistent |
| Layers.DeleteKeepsKeyframesUnique | app.jsx:237-239 | after deleting a frame the keyframe indices stay unique, and `k` is present exactly when `Unshift(k)` was |
| Layers.CopyLayers | app.jsx:249-257 | the clipboard has exactly the layers' names; each name maps to the current frame of the last layer with that name |
| Layers.PasteFrame | app.jsx:258-269 | without a clipboard nothing changes; otherwise each layer whose name is on it takes the stored grid, offset and overflow at `current` |
| Layers.CopyPasteMovesFrame | app.jsx:249-269 | with unique names, copy at `c1` and paste make each layer's current frame equal its frame `c1`; nothing else changes |
| Layers.PasteOfCopyIsIdentity | app.jsx:249-269 | with unique names, pasting what was just copied changes nothing |
| Compositor.Place | app.jsx:114-117 | a cell of the result is lit exactly when it was lit before or the source cell it receives, if any, is lit |
| Compositor.PlaceOverflow | app.jsx:122-126 | a cell of the result is lit exactly when it was lit before or some overflow point moved by the offset lands on it |
| Compositor.MergeFrame | app.jsx:112-129 | a cell of `mergeFrame(fi)` is lit exactly when some visible layer lights it, by a grid cell or an overflow point moved by its offset; nothing off-grid is written |
| Compositor.LitSameVisible | app.jsx:118-119 | two layer lists with the same visible layers give the same picture |
| Compositor.LitOrderIndependent | app.jsx:118-127 | the picture does not depend on the order of the layers |
| Compositor.LitIgnoresHidden | app.jsx:119 | inserting a hidden layer anywhere changes no cell |
| Compositor.PaintLightsCell | app.jsx:141-161 | painting an on-grid cell with a visible layer lights it in the current picture, through the grid or the overflow list |
| Compositor.PaintKeepsOverflowOutside | app.jsx:147-157 | painting only ever puts off-grid points into the overflow list |
| Compositor.EraseClearsLayer | app.jsx:141-161 | erasing a cell leaves the erasing layer without ink there, when its overflow list is duplicate-free and off-grid |
| Compositor.DuplicateShowsSameImage | app.jsx:210-221 | without keyframes, the new current frame after `duplicateToNext` shows the same picture as the frame it copied |
| BitCodec.OrInto | app.jsx:397-398 | `bytes[bi] \|= on << bo` sets bit `n` when `on` is 1 and changes no other bit |
| BitCodec.PackFrameToBytes | app.jsx:390-403 | the packing has 31 bytes; cell (x, y) is bit `k & 7` of byte `k >> 3` with `k = 27y + x`; the padding bits are zero |
| BitCodec.ReadBit | app.jsx:514-515 | `(bytes[bi] >> bo) & 1` is bit `i` of the stream, and 0 past its end |
| BitCodec.ToGrid | app.jsx:509-522 | the decoded cell (x, y) is lit exactly when x < W, y < H and bit `y*W + x` of the stream is set; short arrays decode as unlit |
| BitCodec.DecodedGrid | app.jsx:509-522 | the value form of `toGrid`, with the same cell-by-cell contract |
| BitCodec.BytesRoundTrip | app.jsx:509-522 | decoding a 27 x 9 packing gives back the grid that was packed |
| BitCodec.PackedBytesUnique | app.jsx:390-403 | a grid has exactly one byte packing |
| BitCodec.OriginOnlyBytes | app.jsx:390-403 | only cell (0,0) lit packs to byte 1 followed by thirty zero bytes |
| BitCodec.PackFrameToWords | app.jsx:405-415 | the packing has 9 words; bit `31 - x` of word `y` is set exactly when `g[y][x]`; the five low bits are zero |
| BitCodec.WordsLossless | app.jsx:405-415 | reading the columns back out of the words gives back the grid |
| BitCodec.PackedWordsUnique | app.jsx:405-415 | a grid has exactly one word packing |
| BitCodec.OriginOnlyWords | app.jsx:405-415 | only cell (0,0) lit gives row 0 = 0x80000000 and eight zero rows |
| Glyphs.UpperAscii | app.jsx:359 | `toUpperCase` maps `a`-`z` to `A`-`Z` and keeps every other character |
| Glyphs.Lookup | app.jsx:359 | the glyph is the character's own when the font has it, else its upper case's, else none |
| Glyphs.WithGlyphs | app.jsx:363-364 | a cell is lit exactly when it was lit or some placed glyph inks it; ink off the grid is dropped |
| Glyphs.StampGlyph | app.jsx:363-364 | the 5 x 7 loop ORs exactly one placed glyph into the grid |
| Glyphs.Layout | app.jsx:357-366 | the glyphs the cursor loop places, by cases on the next character; each case is stated by the `Layout*` lemmas below |
| Glyphs.LayoutSpace | app.jsx:360 | a space draws nothing and advances the cursor by 3 |
| Glyphs.LayoutUnknown | app.jsx:361 | an unknown character draws nothing and advances the cursor by 6 |
| Glyphs.LayoutStop | app.jsx:362 | the first glyph that would cross the right edge ends the layout |
| Glyphs.LayoutGlyph | app.jsx:362-365 | a glyph that fits is placed at the cursor and the cursor advances by 6 |
| Glyphs.ApplyTextToGrid | app.jsx:356-367 | the cursor loop draws exactly the glyphs of the layout of the text |
| Glyphs.LayoutInBounds | app.jsx:357-366 | every placed glyph lies wholly within the 27 columns, at least 6 columns after the previous one |
| Glyphs.AtMostFourGlyphs | app.jsx:357-366 | at most four glyphs fit on the grid |
| Glyphs.PlacedInkInGrid | app.jsx:362-364 | every `'1'` of a placed glyph lands inside the grid, on rows 1 to 7 |
| Glyphs.WithGlyphsIdempotent | app.jsx:363-364 | ORing the same glyphs again changes nothing |
| Glyphs.WithDigit | app.jsx:379-383 | inside the 3 x 6 area at the right edge the cell shows the pattern; outside it the grid is kept |
| Glyphs.StampDigit | app.jsx:378-384 | the nested loop writes exactly the digit area from the pattern |
| Glyphs.LastDigitWins | app.jsx:379-383 | stamping two digits in a row shows only the second |
| Glyphs.Targeted | app.jsx:351-354 | layer `i` is edited by `setLayer(l.id, …)`: it has the id of the selected layer, which has the required kind |
| Glyphs.SelectedOfKind | app.jsx:351-352 | a layer is targeted exactly when `getLayer(selectedLayerId)` finds one of the required kind |
| Glyphs.EditCurrent | app.jsx:354-369 | exactly the layers with the target id get the new current grid; the project stays consistent |
| Glyphs.ApplyText | app.jsx:350-370 | without a selected text layer, or with empty text, nothing changes; otherwise each layer with the selected id has exactly its current frame replaced, each cell lit when it was lit or a laid-out glyph inks it; other frames, layers and fields are kept; the project stays consistent |
| Glyphs.ApplyTextIdempotent | app.jsx:350-370 | applying the same text twice equals applying it once |
| Glyphs.StampNumber | app.jsx:372-387 | without a selected number layer, or with a key the table lacks, nothing changes; otherwise each layer with the selected id has exactly its current frame replaced, showing the digit in the digit area and keeping every other cell; other frames, layers and fields are kept; the project stays consistent |
| Glyphs.StampNumberShows | app.jsx:372-387 | the stamped frame shows the digit in the digit area and keeps every other cell |
| Header.DigitValue | app.jsx:545 | each digit has a value below the base, and writing that value gives the digit back |
| Header.Numeral | app.jsx:545 | `v.toString(base)`: at least one digit, all of them digits of the base; its value is stated by `NumeralRoundTrip` |
| Header.NumeralRoundTrip | app.jsx:545 | reading `v.toString(base)` back gives `v`, and the numeral has no leading zero |
| Header.CanonicalIsNumeral | app.jsx:545 | every digit string without a leading zero is the numeral of its value |
| Header.WordLiteralValue | app.jsx:545 | a word literal is `0x` followed by the canonical lower-case hexadecimal numeral of the word |
| Header.WordLiteral | app.jsx:545 | `'0x' + v.toString(16)`; its meaning is stated by `WordLiteralValue` |
| Header.Join | app.jsx:545-546 | `Array.prototype.join`; stated by `JoinSnoc` |
| Header.RowText | app.jsx:545 | one frame's braces-wrapped, `", "`-joined word literals |
| Header.Body | app.jsx:544-546 | the frames' initializers joined with `",\n  "` |
| Header.HeaderText | app.jsx:547-557 | the template literal of the header, with the same defines and array declaration |
| Header.JoinSnoc | app.jsx:544-546 | joining one more part appends the separator and the part |
| Header.ImageOf | app.jsx:543 | frame `f`'s picture is lit exactly where some visible layer lights it |
| Header.Images | app.jsx:543 | one well-formed picture per frame, in order |
| Header.ExportHeader | app.jsx:542-557 | one word packing per frame, each of the picture of the same index, written into the header template |
| Header.ExportFrames | app.jsx:592-596 | the width, height, fps, frame count and 31 bytes per frame, with one byte packing per frame of the picture of the same index |
| Header.OriginOnlyLiterals | app.jsx:545 | only cell (0,0) lit writes `0x80000000` and eight `0x0` |
| ProjectCodec.NumOr | app.jsx:432 | `a \|\| b` on numbers: an absent value or 0 falls through to `b` |
| ProjectCodec.StrOr | app.jsx:437 | `a \|\| b` on strings: an absent value or "" falls through to `b` |
| ProjectCodec.AtLeastOne | app.jsx:506-508 | `Math.max(1, v)`: at least 1 and at least `v`, and `v` itself when `v >= 1` |
| ProjectCodec.GridToDoc | app.jsx:423 | a grid becomes rows of 1 for lit and 0 for unlit, of the same shape |
| ProjectCodec.GridFromDoc | app.jsx:442 | `!!v`: every non-zero number is lit, with the shape kept |
| ProjectCodec.GridDocRoundTrip | app.jsx:423-442 | a grid written as 0/1 rows reads back unchanged, whatever its shape |
| ProjectCodec.LayerToDoc | app.jsx:420-425 | a saved layer has the id, name, kind, visibility, offsets and keyframes verbatim, 0/1 grids and copied overflow lists |
| ProjectCodec.Serialize | app.jsx:417-427 | schema 1, `meta` with 27, 9, the frame count and fps, every layer in order and the selection |
| ProjectCodec.RestoredFramesCount | app.jsx:432 | the restored frame count is `meta.framesCount` when non-zero and is never 0 |
| ProjectCodec.RestoredFps | app.jsx:434 | the restored fps is `meta.fps` when non-zero and is never 0 |
| ProjectCodec.RestoreLayer | app.jsx:435-444 | each field's default: the document id (or name + "-" + random part), "Layer", "draw", and visible unless `false`; sequences are cut to `fc` but never padded |
| ProjectCodec.ApplyProject | app.jsx:429-448 | frame count, fps, `current = 0`, one restored layer per document layer; the selection is the document's when non-empty, else the first layer's |
| ProjectCodec.ApplyProjectSelects | app.jsx:446 | with a layer present the selection is non-empty, so the select-first effect then does nothing |
| ProjectCodec.RestoreEmptyLayer | app.jsx:435-444 | a layer entry with no keys restores to a visible draw layer called "Layer" with id "undefined-" + random part, no grids, no overflow lists and `fc` offsets of (0,0) |
| ProjectCodec.ApplyDefaults | app.jsx:431-434 | without `meta` and top-level counts, a project loads with 1 frame at 4 fps |
| ProjectCodec.RestoreLayerOfDoc | app.jsx:420-444 | restoring a saved layer whose id, name and kind are non-empty gives back the layer |
| ProjectCodec.ProjectRoundTrip | app.jsx:417-448 | loading a saved project gives it back with the playhead on frame 0, given a non-zero fps and non-empty ids, names, kinds and selection |
| ProjectCodec.IsProjectShape | app.jsx:503 | a document with a `layers` list or with `schema === 1` is loaded as a project |
| ProjectCodec.IsRawShape | app.jsx:505 | a document with a `frames` list and a numeric width and height is loaded as raw bitmaps |
| ProjectCodec.ImportProjectAsWritten | app.jsx:503-504 | the state after the effects, as the code runs them: the resize effect follows `applyProject` only when the frame count changed; stated by `ShortLayerSurvivesImport`, `RenderPrecedesResize` and `UploadRoundTrip` |
| ProjectCodec.ShortLayerSurvivesImport | app.jsx:429-448 | the finding below: a layer with no frames survives loading at an unchanged count, so `mergeFrame` would read a missing grid |
| ProjectCodec.RenderPrecedesResize | app.jsx:429-448 | the finding below at a changed count: loading a 5-frame document with a frameless layer into an 8-frame editor ends, after the resize effect, consistent and compositable, but the state `applyProject` leaves for the first render cannot composite frame 0 |
| ProjectCodec.ImportProject | app.jsx:503-504 | the corrected load, `applyProject` followed by the resize effect in every case; stated by `ImportProjectValid` and `ImportRoundTrip` |
| ProjectCodec.ImportProjectValid | app.jsx:429-448 | a positive frame count with 27 x 9 document grids loads into a consistent project where every frame can be composited |
| ProjectCodec.UploadRoundTrip | app.jsx:417-448 | uploading a saved project gives it back with the playhead on frame 0, whatever frame count the editor had before |
| ProjectCodec.ImportRoundTrip | app.jsx:417-448 | the corrected load also gives a saved project back |
| ProjectCodec.RawFramesCount | app.jsx:508 | `Math.max(1, framesCount \|\| frames.length)` is at least 1 |
| ProjectCodec.RawImportResult | app.jsx:505-533 | loading a frames file sets the frame count and `current = 0`; fps becomes `max(1, data.fps \|\| fps)` |
| ProjectCodec.RawImport | app.jsx:523-531 | the per-frame `toGrid` loop builds exactly the state `RawImportResult` describes |
| ProjectCodec.RawImportValid | app.jsx:505-533 | a loaded frames file gives a consistent project: draw, text and number layers, the first selected, each of its grids the decoding of that frame's bytes |
| ProjectCodec.ImportDocument | app.jsx:502-533 | a project document is loaded as the code does it, by `applyProject` and the resize effect only when the count changed (the state after the effects, see `RenderPrecedesResize` for the render before them); else a frames document is loaded as raw bitmaps; anything else changes nothing |
| ProjectCodec.FramesDocToDoc | app.jsx:596 | a frames file reads back as a raw-bitmap document, never a project document |
| ProjectCodec.ReimportFrames | app.jsx:592-596 | exporting the frames of a consistent project and loading the file gives the same frame count, and the imported layer holds exactly each composited picture |

## Left out

- File I/O: `saveFile`, the Blob and download code, FileReader and `JSON.parse`, app.jsx:450-501 and 534-538. Uploads are modelled from an already parsed document (`Doc`), with `None` for absent keys.
- JSON values of an unexpected type: a string where a number belongs, fractional or non-finite numbers, byte values above 255, and `null`. A `null` would mostly fall through `||` as an absent key does, but the id template at app.jsx:436 prints it as `"null-…"` where an absent name gives `"undefined-…"`. `Math.floor` on an integer is the identity, and the model's `Doc` fields already have the types the editor expects.
- The byte-exact text of `JSON.stringify`: the model stops at the document value.
- The `"x,y"` string encoding of overflow points: they are integer pairs. As a result, the `parseInt`/`Number.isFinite` filter of `mergeFrame` always passes.
- The random parts of ids (`Math.random().toString(36)`): they are parameters (`suffix`, `suffixes`).
- The playback timer's `setInterval` and its `1000 / fps` float interval, app.jsx:66-70. Only the step `Layers.Tick` is modelled.
- `clientToCell`, mouse and touch handling, JSX rendering, modals, the layer list and the Clear button, app.jsx:131-139, 163-181 and 562-787; icons.jsx as a whole. These are UI.
- React scheduling: each effect is a `Project -> Project` function. The carry-forward effect follows a change of `current` in `Layers.AfterMove`, which `Layers.PlaybackStep` and `Layers.DeleteFrame` apply; `Layers.DuplicateNeedsNoCarry` shows it changes nothing after `duplicateToNext`. The project and raw loads set `current` to 0, where it does nothing. Carry-forward after scrubbing, the frame buttons or a frame-count edit (all UI) is not composed. The loads apply the resize effect only when the frame count changes, as the dependency list says; the render that comes before it is covered by the `ProjectCodec.ImportProjectAsWritten` line below.
- Keyframes.Interp: it rounds the exact rational `a + (b - a) * t`, while app.jsx:75 and 87 compute `t` and the product in IEEE doubles. The two can disagree next to a tie. For keyframes (f=0, x=-90) and (f=10, x=-5), frame 7 gives exactly -30.5, which the model rounds to -30, but in doubles the value is -30.500000000000007 and `Math.round` gives -31.
- The font and digit tables, app.jsx:271-348: they are parameters of type `map<char, seq<string>>` and `map<string, seq<string>>` with the stated shapes.
- Glyphs.UpperAscii: it maps only `a`-`z`, while `toUpperCase` also maps non-ASCII letters, and some of them reach the font: 'ı' (U+0131) becomes 'I' and 'ſ' (U+017F) becomes 'S', so the source draws a glyph where the model treats the character as unknown and only advances 6.
- Aliasing between React state and the copies the updaters make: every updater is a value-to-value function.
- Compositor.MergeFrame: it requires every visible layer to hold frame `f` as a 27 x 9 grid (`CanMerge`), and so do `Header.ExportHeader` and `Header.ExportFrames`. A load can break this, as the finding below shows. The code's error paths are not modelled:
  - a missing frame, or a grid with fewer than 9 rows, makes `src[y][x]` at app.jsx:116 throw a TypeError;
  - in the render (app.jsx:639) that throw crashes the editor;
  - in both exports (app.jsx:543 and 594) an empty `catch {}` swallows it, and nothing is saved;
  - a grid whose rows are shorter than 27 reads its missing cells as unlit without throwing.
- ProjectCodec.ImportProjectAsWritten: it and `ProjectCodec.ImportDocument` give the state after the effects have run. The render between `applyProject` and the effects is not modelled. React renders first, so `mergeFrame(current)` at app.jsx:639 composites the layers as `applyProject` left them, before the resize effect (app.jsx:45-64) can pad them. A visible restored layer without a 27 x 9 frame 0 therefore crashes the editor whether or not the frame count changed, and the resized state is never reached. `ProjectCodec.RenderPrecedesResize` shows this for a changed count.
- Layers.PasteFrame: the clipboard is a `map` from names, while `copyFrame` and `pasteFrame` (app.jsx:250-262) use a plain `{}` object. There `clip.byName[l.name]` also finds inherited `Object.prototype` members. A layer named, say, "constructor", "toString" or "valueOf" that is not on the clipboard gets that function as `e`, which is truthy, so `e.grid.map` throws inside the `setLayers` updater and crashes the editor; the model leaves such a layer unchanged. A layer named `__proto__` at copy time re-parents `byName` instead of adding an entry. Add Layer (app.jsx:739-747) accepts any non-empty name, so these are reachable.
- Compositor.EraseClearsLayer: it assumes an overflow list that is duplicate-free and off the grid. Painting keeps both (`Layers.EditOverflowNoDuplicates`, `Compositor.PaintKeepsOverflowOutside`), but a loaded document need not satisfy them.
- Layers.CopyPasteMovesFrame: it assumes unique layer names. With namesakes the last layer of a name fills the clipboard, as `Layers.CopyLayers` states.

## Findings

| source | as written | input that shows it | evidently intended | confidence | as-written member | corrected member |
|---|---|---|---|---|---|---|
| app.jsx:429-448 | `applyProject` truncates each layer's sequences to the restored frame count but never pads them. The resize effect (app.jsx:45-64), which would pad them, runs only when `framesCount` changes, and in any case only after the render at app.jsx:639 has composited the unpadded layers. So a visible layer without frame 0 crashes the editor whether or not the count changed. | With the editor on its initial 8 frames, load `{schema: 1, meta: {framesCount: 8}, layers: [{id: "a", frames: []}]}`. The layer keeps zero frames while `framesCount` stays 8, and `mergeFrame(0)` reads `l.frames[0]`, which is missing. With `framesCount: 5` instead, the first render after loading still sees the frameless layer. | Every restored layer has exactly `framesCount` frames, offsets and overflow lists, as after a resize. | not executed | ProjectCodec.ShortLayerSurvivesImport | ProjectCodec.ImportProjectValid |
