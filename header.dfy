/**
 * Text and data of the two exports built from composited frames
 * (app.jsx `exportHeader` and the "Export Frames JSON" button): numerals as
 * JavaScript's `toString` writes them, the C header template, and the
 * per-frame packings.
 */
module Header {
  import opened Grid
  import opened BitCodec
  import opened Layers
  import opened Compositor

  /** The bases the exports write numbers in: decimal and hexadecimal. */
  type Base = b: nat | b == 10 || b == 16 witness 10

  /** Digit `d` as `Number.prototype.toString` writes it: `0-9`, then lower-case `a-f`. */
  function Digit(d: nat): (c: char)
    requires d < 16
  {
    if d < 10 then ('0' as int + d) as char else ('a' as int + d - 10) as char
  }

  /** `c` is a digit of the given base. */
  predicate IsDigit(c: char, base: Base) {
    ('0' <= c <= '9' && (c as int - '0' as int) < base) || ('a' <= c <= 'f' && (c as int - 'a' as int) + 10 < base)
  }

  predicate AllDigits(s: string, base: Base) {
    forall i :: 0 <= i < |s| ==> IsDigit(s[i], base)
  }

  /** The value of a digit. */
  function DigitValue(c: char, base: Base): (d: nat)
    requires IsDigit(c, base)
    ensures d < base && Digit(d) == c
  {
    if '0' <= c <= '9' then c as int - '0' as int else c as int - 'a' as int + 10
  }

  lemma DigitValueOfDigit(d: nat, base: Base)
    requires d < base
    ensures IsDigit(Digit(d), base) && DigitValue(Digit(d), base) == d
  {
  }

  lemma DivStep(v: nat, base: Base)
    ensures v == v / base * base + v % base && v % base < base
    ensures v >= base ==> 1 <= v / base < v
  {
  }

  /**
   * `v.toString(base)` for a non-negative integer: most significant digit
   * first, lower case, no leading zeros.
   */
  function Numeral(v: nat, base: Base): (s: string)
    ensures 1 <= |s| && AllDigits(s, base)
    decreases v
  {
    DivStep(v, base);
    DigitValueOfDigit(v % base, base);
    if v < base then [Digit(v)] else Numeral(v / base, base) + [Digit(v % base)]
  }

  /** Reference reading of a string of digits, most significant first. */
  function ValueOf(s: string, base: Base): nat
    requires AllDigits(s, base)
  {
    if s == [] then 0 else ValueOf(s[..|s| - 1], base) * base + DigitValue(s[|s| - 1], base)
  }

  /** A numeral has no leading zero, except the numeral of zero itself. */
  predicate Canonical(s: string) {
    1 <= |s| && (s[0] == '0' ==> |s| == 1)
  }

  lemma NumeralStep(v: nat, base: Base)
    requires v >= base
    ensures var s := Numeral(v, base);
      s[..|s| - 1] == Numeral(v / base, base) && s[|s| - 1] == Digit(v % base) && s[0] == Numeral(v / base, base)[0]
  {
    DivStep(v, base);
  }

  /** Reading a numeral back gives the number written, and the numeral has no leading zero. */
  lemma {:induction false} NumeralRoundTrip(v: nat, base: Base)
    ensures ValueOf(Numeral(v, base), base) == v
    ensures Canonical(Numeral(v, base))
    decreases v
  {
    DivStep(v, base);
    DigitValueOfDigit(v % base, base);
    if v >= base {
      NumeralRoundTrip(v / base, base);
      NumeralStep(v, base);
      var s := Numeral(v, base);
      assert ValueOf(s, base) == ValueOf(Numeral(v / base, base), base) * base + v % base;
      assert v / base < base ==> Numeral(v / base, base) == [Digit(v / base)];
    } else {
      assert Numeral(v, base) == [Digit(v)];
    }
  }

  lemma {:induction false} ValueOfPositive(s: string, base: Base)
    requires AllDigits(s, base) && 1 <= |s| && s[0] != '0'
    ensures ValueOf(s, base) >= 1
    decreases |s|
  {
    if |s| > 1 {
      ValueOfPositive(s[..|s| - 1], base);
    } else {
      DigitValueOfDigit(0, base);
    }
  }

  /** Every canonical digit string is the numeral of its value: the numerals are exactly the canonical strings. */
  lemma {:induction false} CanonicalIsNumeral(s: string, base: Base)
    requires AllDigits(s, base) && Canonical(s)
    ensures Numeral(ValueOf(s, base), base) == s
    decreases |s|
  {
    if |s| == 1 {
      SingleDigitIsNumeral(s, base);
    } else {
      var init := s[..|s| - 1];
      assert init[0] == s[0];
      ValueOfPositive(init, base);
      CanonicalIsNumeral(init, base);
      LongerIsNumeral(s, base);
    }
  }

  lemma SingleDigitIsNumeral(s: string, base: Base)
    requires AllDigits(s, base) && |s| == 1
    ensures Numeral(ValueOf(s, base), base) == s
  {
    var last := DigitValue(s[0], base);
    assert s[..0] == [];
    assert ValueOf(s, base) == ValueOf(s[..0], base) * base + last;
    assert s == [Digit(last)];
  }

  /** Appending one digit to the numeral of a positive value gives the numeral of the extended value. */
  lemma LongerIsNumeral(s: string, base: Base)
    requires AllDigits(s, base) && |s| >= 2
    requires ValueOf(s[..|s| - 1], base) >= 1
    requires Numeral(ValueOf(s[..|s| - 1], base), base) == s[..|s| - 1]
    ensures Numeral(ValueOf(s, base), base) == s
  {
    var init := s[..|s| - 1];
    var last := DigitValue(s[|s| - 1], base);
    var v := ValueOf(s, base);
    ValueDivMod(ValueOf(init, base), last, base);
    NumeralStep(v, base);
    SameInitAndLast(Numeral(v, base), s);
  }

  lemma SameInitAndLast(a: string, b: string)
    requires |a| >= 1 && |b| >= 1 && a[..|a| - 1] == b[..|b| - 1] && a[|a| - 1] == b[|b| - 1]
    ensures a == b
  {
    assert a == a[..|a| - 1] + [a[|a| - 1]];
    assert b == b[..|b| - 1] + [b[|b| - 1]];
  }

  lemma ValueDivMod(u: nat, d: nat, base: Base)
    requires 1 <= u && d < base
    ensures var v := u * base + d; v >= base && v / base == u && v % base == d
  {
  }

  /** `String(n)` for an integer. */
  function Decimal(n: int): (s: string)
    ensures 0 <= n ==> s == Numeral(n, 10)
    ensures n < 0 ==> s == "-" + Numeral(-n, 10)
  {
    if n < 0 then "-" + Numeral(-n, 10) else Numeral(n, 10)
  }

  /** `'0x' + v.toString(16)` for a word. */
  function WordLiteral(v: bv32): string {
    "0x" + Numeral(v as int, 16)
  }

  /** A word literal is `0x` and the canonical hexadecimal numeral of the word's value. */
  lemma WordLiteralValue(v: bv32)
    ensures var s := WordLiteral(v);
      |s| >= 3 && s[..2] == "0x" && AllDigits(s[2..], 16) && Canonical(s[2..]) && ValueOf(s[2..], 16) == v as int
  {
    NumeralRoundTrip(v as int, 16);
    assert WordLiteral(v)[2..] == Numeral(v as int, 16);
  }

  /** `parts.join(sep)` */
  function Join(parts: seq<string>, sep: string): string {
    if |parts| == 0 then ""
    else if |parts| == 1 then parts[0]
    else parts[0] + sep + Join(parts[1..], sep)
  }

  /** Joining one more part appends the separator and the part. */
  lemma {:induction false} JoinSnoc(parts: seq<string>, p: string, sep: string)
    requires |parts| >= 1
    ensures Join(parts + [p], sep) == Join(parts, sep) + sep + p
  {
    var q := parts + [p];
    assert q[0] == parts[0] && q[1..] == parts[1..] + [p];
    if |parts| == 1 {
      assert q[1..] == [p];
    } else {
      JoinSnoc(parts[1..], p, sep);
    }
  }

  /** One frame's initializer: `'{' + words.join(', ') + '}'`. */
  function RowText(frame: seq<bv32>): string {
    "{" + Join(Literals(frame), ", ") + "}"
  }

  /** The frames' initializers joined with `',\n  '`. */
  function Body(frames: seq<seq<bv32>>): string {
    Join(seq(|frames|, f requires 0 <= f < |frames| => RowText(frames[f])), ",\n  ")
  }

  /** The `led_animation.h` text. */
  function HeaderText(framesCount: int, fps: int, frames: seq<seq<bv32>>): string {
    "#pragma once\n#include <stdint.h>\n#include <avr/pgmspace.h>\n"
    + "#define LED_W " + Decimal(WIDTH) + "\n"
    + "#define LED_H " + Decimal(HEIGHT) + "\n"
    + "#define LED_FRAMES " + Decimal(framesCount) + "\n"
    + "#define LED_FPS " + Decimal(fps) + "\n"
    + "const uint32_t led_anim[LED_FRAMES][" + Decimal(HEIGHT) + "] PROGMEM = {\n  "
    + Body(frames)
    + "\n};"
  }

  /** The composited image of frame `f`: `mergeFrame(f)` as a value. */
  function ImageOf(ls: seq<Layer>, f: int): (g: Grid)
    requires CanMerge(ls, f)
    ensures WellFormed(g)
    ensures forall y, x :: 0 <= y < HEIGHT && 0 <= x < WIDTH ==> (g[y][x] <==> Lit(ls, f, x, y))
  {
    seq(HEIGHT, y requires 0 <= y < HEIGHT => seq(WIDTH, x requires 0 <= x < WIDTH => Lit(ls, f, x, y)))
  }

  lemma MergedIsImage(ls: seq<Layer>, f: int, g: Grid)
    requires CanMerge(ls, f) && WellFormed(g)
    requires forall y, x :: 0 <= y < HEIGHT && 0 <= x < WIDTH ==> (g[y][x] <==> Lit(ls, f, x, y))
    ensures g == ImageOf(ls, f)
  {
    var im := ImageOf(ls, f);
    forall y | 0 <= y < HEIGHT ensures g[y] == im[y] {
      assert forall x :: 0 <= x < WIDTH ==> g[y][x] == im[y][x];
    }
  }

  /** Every frame the exports walk can be composited. */
  predicate Exportable(p: Project) {
    forall f :: 0 <= f < p.framesCount ==> CanMerge(p.layers, f)
  }

  /** The composited picture of every frame, in order. */
  function Images(p: Project): (ims: seq<Grid>)
    requires Exportable(p)
    ensures |ims| == Len(p.framesCount)
    ensures forall f :: 0 <= f < |ims| ==> WellFormed(ims[f]) && ims[f] == ImageOf(p.layers, f)
  {
    seq(Len(p.framesCount), f requires 0 <= f < Len(p.framesCount) => ImageOf(p.layers, f))
  }

  /** Each of `frames` is the word packing of the picture of the same index. */
  ghost predicate AllPacked(images: seq<Grid>, frames: seq<seq<bv32>>) {
    forall f :: 0 <= f < |frames| ==> f < |images| && WellFormed(images[f]) && PackedWords(images[f], frames[f])
  }

  lemma PackedSnoc(images: seq<Grid>, frames: seq<seq<bv32>>, words: seq<bv32>)
    requires |frames| < |images| && WellFormed(images[|frames|])
    requires AllPacked(images, frames) && PackedWords(images[|frames|], words)
    ensures AllPacked(images, frames + [words])
  {
    var r := frames + [words];
    forall f | 0 <= f < |r| ensures f < |images| && WellFormed(images[f]) && PackedWords(images[f], r[f]) {
      if f < |frames| {
        assert r[f] == frames[f];
      }
    }
  }

  /** `exportHeader`: every frame composited and word-packed, then written into the header template. */
  method ExportHeader(p: Project) returns (frames: seq<seq<bv32>>, text: string)
    requires Exportable(p)
    ensures |frames| == Len(p.framesCount)
    ensures AllPacked(Images(p), frames)
    ensures text == HeaderText(p.framesCount, p.fps, frames)
  {
    ghost var images := Images(p);
    frames := [];
    var f := 0;
    while f < p.framesCount
      invariant 0 <= f && (f <= p.framesCount || f == 0) && |frames| == f
      invariant AllPacked(images, frames)
    {
      var g := MergeFrame(p.layers, f);
      MergedIsImage(p.layers, f, g);
      assert g == images[f];
      var words := PackFrameToWords(g);
      PackedSnoc(images, frames, words);
      frames := frames + [words];
      f := f + 1;
    }
    text := HeaderText(p.framesCount, p.fps, frames);
  }

  /** The frames JSON export: `{ width, height, fps, framesCount, bytesPerFrame, frames }`. */
  datatype FramesDoc = FramesDoc(width: int, height: int, fps: int, framesCount: int, bytesPerFrame: int, frames: seq<seq<bv8>>)

  /** Each of `frames` is the byte packing of the picture of the same index. */
  predicate AllBytesPacked(images: seq<Grid>, frames: seq<seq<bv8>>) {
    forall f :: 0 <= f < |frames| ==> f < |images| && WellFormed(images[f]) && PackedBytes(images[f], frames[f])
  }

  lemma BytesSnoc(images: seq<Grid>, frames: seq<seq<bv8>>, bytes: seq<bv8>)
    requires |frames| < |images| && WellFormed(images[|frames|])
    requires AllBytesPacked(images, frames) && PackedBytes(images[|frames|], bytes)
    ensures AllBytesPacked(images, frames + [bytes])
  {
    var r := frames + [bytes];
    forall f | 0 <= f < |r| ensures f < |images| && WellFormed(images[f]) && PackedBytes(images[f], r[f]) {
      if f < |frames| {
        assert r[f] == frames[f];
      }
    }
  }

  /** "Export Frames JSON": every frame composited and byte-packed. */
  method ExportFrames(p: Project) returns (doc: FramesDoc)
    requires Exportable(p)
    ensures doc.width == WIDTH && doc.height == HEIGHT && doc.bytesPerFrame == BYTES_PER_FRAME
    ensures doc.fps == p.fps && doc.framesCount == p.framesCount
    ensures |doc.frames| == Len(p.framesCount)
    ensures AllBytesPacked(Images(p), doc.frames)
  {
    ghost var images := Images(p);
    var frames := [];
    var f := 0;
    while f < p.framesCount
      invariant 0 <= f && (f <= p.framesCount || f == 0) && |frames| == f
      invariant AllBytesPacked(images, frames)
    {
      var g := MergeFrame(p.layers, f);
      MergedIsImage(p.layers, f, g);
      assert g == images[f];
      var bytes := PackFrameToBytes(g);
      BytesSnoc(images, frames, bytes);
      frames := frames + [bytes];
      f := f + 1;
    }
    doc := FramesDoc(WIDTH, HEIGHT, p.fps, p.framesCount, BYTES_PER_FRAME, frames);
  }

  /** The literals of a frame's initializer, in order. */
  function Literals(frame: seq<bv32>): (lits: seq<string>)
    ensures |lits| == |frame|
    ensures forall i :: 0 <= i < |frame| ==> lits[i] == WordLiteral(frame[i])
  {
    seq(|frame|, i requires 0 <= i < |frame| => WordLiteral(frame[i]))
  }

  /** Only cell (0, 0) lit gives the initializer literals `0x80000000` and eight `0x0`. */
  lemma OriginOnlyLiterals(words: seq<bv32>)
    requires PackedWords(OriginOnly(), words)
    ensures Literals(words) == ["0x80000000", "0x0", "0x0", "0x0", "0x0", "0x0", "0x0", "0x0", "0x0"]
  {
    OriginOnlyWords(words);
    assert Numeral(0x8, 16) == "8";
    assert Numeral(0x80, 16) == "80";
    assert Numeral(0x800, 16) == "800";
    assert Numeral(0x8000, 16) == "8000";
    assert Numeral(0x8_0000, 16) == "80000";
    assert Numeral(0x80_0000, 16) == "800000";
    assert Numeral(0x800_0000, 16) == "8000000";
    assert Numeral(0x8000_0000, 16) == "80000000";
    assert Numeral(0, 16) == "0";
    assert words[0] as int == 0x8000_0000;
    assert forall i :: 1 <= i < |words| ==> words[i] as int == 0;
    assert WordLiteral(words[0]) == "0x80000000";
    assert forall i :: 1 <= i < |words| ==> WordLiteral(words[i]) == "0x0";
  }
}
