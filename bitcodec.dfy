/**
 * The two frame packers and the raw-bitmap decoder (app.jsx
 * `packFrameToBytes`, `packFrameToWords` and `toGrid`).
 *
 * Bytes are a row-major, LSB-first bitstream: cell `(x, y)` is bit
 * `k % 8` of byte `k / 8` with `k = y * WIDTH + x`. Words hold one row
 * each, column `x` at bit `31 - x`.
 */
module BitCodec {
  import opened Grid

  const BITS: nat := WIDTH * HEIGHT
  /** `Math.ceil(WIDTH * HEIGHT / 8)`: 31 bytes for 243 cells. */
  const BYTES_PER_FRAME: nat := (BITS + 7) / 8

  /** Bit `j` (0 = least significant) of a byte. */
  predicate Bit8(b: bv8, j: nat)
    requires j < 8
  {
    (b >> j) & 1 == 1
  }

  /** Bit `k` of an LSB-first bitstream; bits past the end read as 0 (`undefined >> n` is 0). */
  predicate ByteBit(bytes: seq<bv8>, k: nat) {
    k / 8 < |bytes| && Bit8(bytes[k / 8], k % 8)
  }

  /** Cell number `k` of a grid in row-major order; cells past the grid are unlit. */
  predicate CellAt(g: Grid, k: nat)
    requires WellFormed(g)
  {
    k < BITS && g[k / WIDTH][k % WIDTH]
  }

  /** `bytes` is the packing of `g`: one bit per cell, padding bits zero. */
  predicate PackedBytes(g: Grid, bytes: seq<bv8>)
    requires WellFormed(g)
  {
    |bytes| == BYTES_PER_FRAME && forall k :: 0 <= k < 8 * BYTES_PER_FRAME ==> (ByteBit(bytes, k) <==> CellAt(g, k))
  }

  lemma CellIndex(y: int, x: int)
    requires 0 <= y && 0 <= x < WIDTH
    ensures (y * WIDTH + x) / WIDTH == y && (y * WIDTH + x) % WIDTH == x
  {
  }

  /** Or-ing `on << bo` into a byte sets at most bit `bo`. */
  lemma OrBit(b: bv8, on: bv8, bo: nat, j: nat)
    requires on <= 1 && bo < 8 && j < 8
    ensures Bit8(b | (on << bo), j) <==> Bit8(b, j) || (j == bo && on == 1)
  {
  }

  /** The first `n` cells of `g` are in `bytes`, and no other bit is set. */
  ghost predicate PackedPrefix(g: Grid, bytes: seq<bv8>, n: nat)
    requires WellFormed(g)
  {
    |bytes| == BYTES_PER_FRAME && forall k :: 0 <= k < 8 * BYTES_PER_FRAME ==> (ByteBit(bytes, k) <==> k < n && CellAt(g, k))
  }

  /** The bitstream with bit `n` or-ed with `on`. */
  function OrInto(bytes: seq<bv8>, n: nat, on: bv8): (r: seq<bv8>)
    requires n / 8 < |bytes| && on <= 1
    ensures |r| == |bytes|
    ensures forall k: nat :: ByteBit(r, k) <==> ByteBit(bytes, k) || (k == n && on == 1)
  {
    var r := bytes[n / 8 := bytes[n / 8] | (on << (n % 8))];
    assert forall k: nat :: ByteBit(r, k) <==> ByteBit(bytes, k) || (k == n && on == 1) by {
      forall k: nat ensures ByteBit(r, k) <==> ByteBit(bytes, k) || (k == n && on == 1) {
        if k / 8 == n / 8 {
          OrBit(bytes[n / 8], on, n % 8, k % 8);
        }
      }
    }
    r
  }

  lemma PackStep(g: Grid, bytes: seq<bv8>, y: int, x: int)
    requires WellFormed(g) && 0 <= y < HEIGHT && 0 <= x < WIDTH
    requires PackedPrefix(g, bytes, y * WIDTH + x)
    ensures PackedPrefix(g, OrInto(bytes, y * WIDTH + x, if g[y][x] then 1 else 0), y * WIDTH + x + 1)
  {
    CellIndex(y, x);
    assert CellAt(g, y * WIDTH + x) == g[y][x];
    assert !ByteBit(bytes, y * WIDTH + x);
  }

  lemma PackStart(g: Grid)
    requires WellFormed(g)
    ensures PackedPrefix(g, seq(BYTES_PER_FRAME, _ => 0), 0)
  {
  }

  lemma PackDone(g: Grid, bytes: seq<bv8>)
    requires WellFormed(g) && PackedPrefix(g, bytes, BITS)
    ensures PackedBytes(g, bytes)
  {
  }

  /** `bytes[bitIndex >> 3] |= (on << (bitIndex & 7))` */
  method OrBitAt(a: array<bv8>, n: nat, on: bv8)
    requires n / 8 < a.Length && on <= 1
    modifies a
    ensures a[..] == OrInto(old(a[..]), n, on)
  {
    ghost var before := a[..];
    a[n / 8] := a[n / 8] | (on << (n % 8));
    assert a[..] == before[n / 8 := before[n / 8] | (on << (n % 8))];
  }

  /** `packFrameToBytes(g)` */
  method PackFrameToBytes(g: Grid) returns (bytes: seq<bv8>)
    requires WellFormed(g)
    ensures PackedBytes(g, bytes)
  {
    var a := new bv8[BYTES_PER_FRAME](_ => 0);
    PackStart(g);
    assert a[..] == seq(BYTES_PER_FRAME, _ => 0);
    var bitIndex := 0;
    var y := 0;
    while y < HEIGHT
      invariant 0 <= y <= HEIGHT && bitIndex == y * WIDTH
      invariant PackedPrefix(g, a[..], bitIndex)
    {
      var x := 0;
      while x < WIDTH
        invariant 0 <= x <= WIDTH && bitIndex == y * WIDTH + x
        invariant PackedPrefix(g, a[..], bitIndex)
      {
        var on: bv8 := if g[y][x] then 1 else 0;
        PackStep(g, a[..], y, x);
        OrBitAt(a, bitIndex, on);
        bitIndex := bitIndex + 1;
        x := x + 1;
      }
      y := y + 1;
    }
    bytes := a[..];
    PackDone(g, bytes);
  }

  /** What `toGrid` reads for cell `(x, y)` from a `w` x `h` source bitstream. */
  predicate DecodedCell(bytes: seq<bv8>, w: int, h: int, x: nat, y: nat) {
    x < w && y < h && ByteBit(bytes, y * w + x)
  }

  /** `(bytes[bi] >> bo) & 1` for bit `i`, where an index past the end reads `undefined` (0). */
  function ReadBit(bytes: seq<bv8>, i: nat): (r: bv8)
    ensures r <= 1
    ensures r == 1 <==> ByteBit(bytes, i)
  {
    if i / 8 < |bytes| then (bytes[i / 8] >> (i % 8)) & 1 else 0
  }

  /** `g` holds the decoding of every source cell before `(x, y)` in row-major order. */
  ghost predicate DecodedUpTo(g: Grid, bytes: seq<bv8>, w: int, h: int, y: int, x: int) {
    WellFormed(g) &&
    forall y', x' :: 0 <= y' < HEIGHT && 0 <= x' < WIDTH ==>
      (g[y'][x'] <==> (y' < y || (y' == y && x' < x)) && DecodedCell(bytes, w, h, x', y'))
  }

  /** One cell of `toGrid`: the bit read is the cell's own, or past the end of `bytes`. */
  lemma DecodeStep(g: Grid, bytes: seq<bv8>, w: int, h: int, y: int, x: int, bitIndex: nat)
    requires 0 <= y < h && 0 <= x < w
    requires DecodedUpTo(g, bytes, w, h, y, x)
    requires bitIndex == y * w + x || 8 * |bytes| <= bitIndex <= y * w + x
    ensures DecodedUpTo(if x < WIDTH && y < HEIGHT then g[y := g[y][x := ReadBit(bytes, bitIndex) == 1]] else g,
                        bytes, w, h, y, x + 1)
  {
    assert ReadBit(bytes, bitIndex) == 1 <==> ByteBit(bytes, y * w + x);
  }

  lemma RowEnd(g: Grid, bytes: seq<bv8>, w: int, h: int, y: int)
    requires 0 <= y && DecodedUpTo(g, bytes, w, h, y, w)
    ensures DecodedUpTo(g, bytes, w, h, y + 1, 0)
  {
  }

  /** After a read past the end, the rest of the row is unlit in the source too. */
  lemma BreakRow(g: Grid, bytes: seq<bv8>, w: int, h: int, y: int, x: int, bitIndex: nat)
    requires 0 <= y && 0 <= x < w
    requires DecodedUpTo(g, bytes, w, h, y, x + 1)
    requires 8 * |bytes| <= bitIndex <= y * w + x
    ensures DecodedUpTo(g, bytes, w, h, y + 1, 0)
  {
    forall x': nat | x < x' < w ensures !DecodedCell(bytes, w, h, x', y) {
    }
  }

  /**
   * The raw-bitmap `toGrid(bytes)` for a source of `w` x `h` cells: source
   * cells outside the grid are skipped, and a row stops after the first
   * read past the end of `bytes`.
   */
  method ToGrid(bytes: seq<bv8>, w: int, h: int) returns (g: Grid)
    requires 1 <= w && 1 <= h
    ensures WellFormed(g)
    ensures forall y, x :: 0 <= y < HEIGHT && 0 <= x < WIDTH ==> (g[y][x] <==> DecodedCell(bytes, w, h, x, y))
  {
    g := EmptyGrid();
    var bitIndex := 0;
    ghost var rowStart := 0;
    var y := 0;
    while y < h
      invariant 0 <= y <= h && rowStart == y * w
      invariant 0 <= bitIndex <= rowStart && (bitIndex < rowStart ==> 8 * |bytes| <= bitIndex)
      invariant DecodedUpTo(g, bytes, w, h, y, 0)
    {
      var x := 0;
      while x < w
        invariant 0 <= x <= w
        invariant 0 <= bitIndex <= rowStart + x && (bitIndex < rowStart + x ==> 8 * |bytes| <= bitIndex)
        invariant DecodedUpTo(g, bytes, w, h, y, x)
      {
        var bi, bo := bitIndex / 8, bitIndex % 8;
        var on: bv8 := if bi < |bytes| then (bytes[bi] >> bo) & 1 else 0;
        assert on == ReadBit(bytes, bitIndex);
        DecodeStep(g, bytes, w, h, y, x, bitIndex);
        if x < WIDTH && y < HEIGHT {
          g := g[y := g[y][x := on == 1]];
        }
        bitIndex := bitIndex + 1;
        if bi >= |bytes| {
          BreakRow(g, bytes, w, h, y, x, bitIndex - 1);
          break;
        }
        x := x + 1;
      }
      if x == w {
        RowEnd(g, bytes, w, h, y);
      }
      rowStart := rowStart + w;
      y := y + 1;
    }
  }

  /** The grid `toGrid` produces, cell by cell. */
  function DecodedGrid(bytes: seq<bv8>, w: int, h: int): (g: Grid)
    ensures WellFormed(g)
    ensures forall y, x :: 0 <= y < HEIGHT && 0 <= x < WIDTH ==> (g[y][x] <==> DecodedCell(bytes, w, h, x, y))
  {
    seq(HEIGHT, y requires 0 <= y < HEIGHT => seq(WIDTH, x requires 0 <= x < WIDTH => DecodedCell(bytes, w, h, x, y)))
  }

  /** A well-formed grid with the decoded cells is the decoded grid. */
  lemma DecodedGridUnique(g: Grid, bytes: seq<bv8>, w: int, h: int)
    requires WellFormed(g)
    requires forall y, x :: 0 <= y < HEIGHT && 0 <= x < WIDTH ==> (g[y][x] <==> DecodedCell(bytes, w, h, x, y))
    ensures g == DecodedGrid(bytes, w, h)
  {
    var d := DecodedGrid(bytes, w, h);
    forall y | 0 <= y < HEIGHT ensures g[y] == d[y] {
    }
  }

  /** Decoding a full-size packing gives back the grid that was packed. */
  lemma BytesRoundTrip(g: Grid, bytes: seq<bv8>, g2: Grid)
    requires WellFormed(g) && PackedBytes(g, bytes)
    requires WellFormed(g2)
    requires forall y, x :: 0 <= y < HEIGHT && 0 <= x < WIDTH ==> (g2[y][x] <==> DecodedCell(bytes, WIDTH, HEIGHT, x, y))
    ensures g2 == g
  {
    forall y | 0 <= y < HEIGHT ensures g2[y] == g[y] {
      forall x | 0 <= x < WIDTH ensures g2[y][x] == g[y][x] {
        CellIndex(y, x);
        assert CellAt(g, y * WIDTH + x) == g[y][x];
      }
    }
  }

  /** A byte is determined by its eight bits. */
  lemma ByteFromBits(a: bv8, b: bv8)
    requires forall j :: 0 <= j < 8 ==> (Bit8(a, j) <==> Bit8(b, j))
    ensures a == b
  {
    assert Bit8(a, 0) == Bit8(b, 0);
    assert Bit8(a, 1) == Bit8(b, 1);
    assert Bit8(a, 2) == Bit8(b, 2);
    assert Bit8(a, 3) == Bit8(b, 3);
    assert Bit8(a, 4) == Bit8(b, 4);
    assert Bit8(a, 5) == Bit8(b, 5);
    assert Bit8(a, 6) == Bit8(b, 6);
    assert Bit8(a, 7) == Bit8(b, 7);
  }

  /** The packing of a grid is unique. */
  lemma PackedBytesUnique(g: Grid, b1: seq<bv8>, b2: seq<bv8>)
    requires WellFormed(g) && PackedBytes(g, b1) && PackedBytes(g, b2)
    ensures b1 == b2
  {
    forall i | 0 <= i < BYTES_PER_FRAME ensures b1[i] == b2[i] {
      forall j | 0 <= j < 8 ensures Bit8(b1[i], j) <==> Bit8(b2[i], j) {
        var k := 8 * i + j;
        assert k / 8 == i && k % 8 == j;
        assert ByteBit(b1, k) <==> ByteBit(b2, k);
      }
      ByteFromBits(b1[i], b2[i]);
    }
  }

  /** The grid with only cell (0, 0) lit. */
  function OriginOnly(): (g: Grid)
    ensures WellFormed(g)
    ensures forall y, x :: 0 <= y < HEIGHT && 0 <= x < WIDTH ==> (g[y][x] <==> x == 0 && y == 0)
  {
    SafeSet(EmptyGrid(), 0, 0, true)
  }

  /** Only cell (0, 0) lit packs to byte 0 = 1 and thirty zero bytes. */
  lemma OriginOnlyBytes(bytes: seq<bv8>)
    requires PackedBytes(OriginOnly(), bytes)
    ensures bytes == [1] + seq(BYTES_PER_FRAME - 1, _ => 0)
  {
    var want: seq<bv8> := [1] + seq(BYTES_PER_FRAME - 1, _ => 0);
    var g := OriginOnly();
    forall k | 0 <= k < 8 * BYTES_PER_FRAME ensures ByteBit(want, k) <==> CellAt(g, k) {
      if k < BITS {
        CellIndex(k / WIDTH, k % WIDTH);
      }
      if k / 8 == 0 {
        assert want[0] == 1;
      } else {
        assert want[k / 8] == 0;
      }
    }
    PackedBytesUnique(g, bytes, want);
  }

  // ---------------------------------------------------------------------------
  // Words
  // ---------------------------------------------------------------------------

  /** `WIDTH` as a word-sized value, for the word packer's column counter. */
  const COLUMNS: bv32 := 27

  /** Bit `j` (0 = least significant) of a word. */
  predicate Bit32(v: bv32, j: bv32)
    requires j < 32
  {
    (v >> j) & 1 == 1
  }

  /** Bit `31 - c` of a word: column `c` of its row. */
  predicate ColumnBit(v: bv32, c: bv32)
    requires c < 32
  {
    Bit32(v, 31 - c)
  }

  /**
   * `words` is the word packing of `g`: one word per row, bit `31 - x` set
   * exactly when column `x < WIDTH` is lit, the five low bits zero.
   */
  ghost predicate PackedWords(g: Grid, words: seq<bv32>)
    requires WellFormed(g)
  {
    |words| == HEIGHT &&
    forall y, c: bv32 :: 0 <= y < HEIGHT && c < 32 ==> (ColumnBit(words[y], c) <==> c < COLUMNS && g[y][c as int])
  }

  lemma OrColumn(v: bv32, s: bv32, c: bv32)
    requires s < 32 && c < 32
    ensures ColumnBit(v | (1 << (31 - s)), c) <==> ColumnBit(v, c) || c == s
  {
  }

  /** Columns `0 .. x-1` of `row` are in `v`, and no other bit is set. */
  ghost predicate RowPrefix(v: bv32, row: seq<bool>, x: bv32)
    requires |row| == WIDTH && x <= COLUMNS
  {
    forall c: bv32 :: c < 32 ==> (ColumnBit(v, c) <==> c < x && row[c as int])
  }

  lemma RowStep(v: bv32, row: seq<bool>, x: bv32)
    requires |row| == WIDTH && x < COLUMNS
    requires RowPrefix(v, row, x)
    ensures RowPrefix(if row[x as int] then v | (1 << (31 - x)) else v, row, x + 1)
  {
    if row[x as int] {
      var v' := v | (1 << (31 - x));
      forall c: bv32 | c < 32 ensures ColumnBit(v', c) <==> c < x + 1 && row[c as int] {
        OrColumn(v, x, c);
      }
    } else {
      forall c: bv32 | c < 32 ensures ColumnBit(v, c) <==> c < x + 1 && row[c as int] {
        if c == x {
          assert !row[c as int];
        }
      }
    }
  }

  /** `packFrameToWords(g)` */
  method PackFrameToWords(g: Grid) returns (words: seq<bv32>)
    requires WellFormed(g)
    ensures PackedWords(g, words)
  {
    var a := new bv32[HEIGHT](_ => 0);
    var y := 0;
    while y < HEIGHT
      invariant 0 <= y <= HEIGHT
      invariant forall y' :: 0 <= y' < y ==> RowPrefix(a[y'], g[y'], COLUMNS)
    {
      var v: bv32 := 0;
      var x: bv32 := 0;
      while x < COLUMNS
        invariant x <= COLUMNS
        invariant RowPrefix(v, g[y], x)
        invariant forall y' :: 0 <= y' < y ==> RowPrefix(a[y'], g[y'], COLUMNS)
      {
        RowStep(v, g[y], x);
        if g[y][x as int] {
          v := v | (1 << (31 - x));
        }
        x := x + 1;
      }
      a[y] := v;
      y := y + 1;
    }
    words := a[..];
  }

  /** Reads a grid back out of a word packing; the packer's reference inverse. */
  function RowsFromWords(words: seq<bv32>): (g: Grid)
    requires |words| == HEIGHT
    ensures WellFormed(g)
  {
    seq(HEIGHT, y requires 0 <= y < HEIGHT => seq(WIDTH, x requires 0 <= x < WIDTH => ColumnBit(words[y], x as bv32)))
  }

  /** The word packing loses nothing: the grid can be read back from it. */
  lemma WordsLossless(g: Grid, words: seq<bv32>)
    requires WellFormed(g) && PackedWords(g, words)
    ensures RowsFromWords(words) == g
  {
    var r := RowsFromWords(words);
    forall y | 0 <= y < HEIGHT ensures r[y] == g[y] {
      forall x | 0 <= x < WIDTH ensures r[y][x] == g[y][x] {
        PackedColumn(g, words, y, x);
      }
    }
  }

  lemma PackedColumn(g: Grid, words: seq<bv32>, y: int, x: int)
    requires WellFormed(g) && PackedWords(g, words) && 0 <= y < HEIGHT && 0 <= x < WIDTH
    ensures ColumnBit(words[y], x as bv32) <==> g[y][x]
  {
    var c := x as bv32;
    assert c < COLUMNS && c as int == x;
  }

  ghost predicate SameBits(a: bv32, b: bv32) {
    forall j: bv32 :: j < 32 ==> (Bit32(a, j) <==> Bit32(b, j))
  }

  lemma SameByte0(a: bv32, b: bv32)
    requires SameBits(a, b)
    ensures (a >> 0) & 0xFF == (b >> 0) & 0xFF
  {
    assert Bit32(a, 0) == Bit32(b, 0);
    assert Bit32(a, 1) == Bit32(b, 1);
    assert Bit32(a, 2) == Bit32(b, 2);
    assert Bit32(a, 3) == Bit32(b, 3);
    assert Bit32(a, 4) == Bit32(b, 4);
    assert Bit32(a, 5) == Bit32(b, 5);
    assert Bit32(a, 6) == Bit32(b, 6);
    assert Bit32(a, 7) == Bit32(b, 7);
  }

  lemma SameByte1(a: bv32, b: bv32)
    requires SameBits(a, b)
    ensures (a >> 8) & 0xFF == (b >> 8) & 0xFF
  {
    assert Bit32(a, 8) == Bit32(b, 8);
    assert Bit32(a, 9) == Bit32(b, 9);
    assert Bit32(a, 10) == Bit32(b, 10);
    assert Bit32(a, 11) == Bit32(b, 11);
    assert Bit32(a, 12) == Bit32(b, 12);
    assert Bit32(a, 13) == Bit32(b, 13);
    assert Bit32(a, 14) == Bit32(b, 14);
    assert Bit32(a, 15) == Bit32(b, 15);
  }

  lemma SameByte2(a: bv32, b: bv32)
    requires SameBits(a, b)
    ensures (a >> 16) & 0xFF == (b >> 16) & 0xFF
  {
    assert Bit32(a, 16) == Bit32(b, 16);
    assert Bit32(a, 17) == Bit32(b, 17);
    assert Bit32(a, 18) == Bit32(b, 18);
    assert Bit32(a, 19) == Bit32(b, 19);
    assert Bit32(a, 20) == Bit32(b, 20);
    assert Bit32(a, 21) == Bit32(b, 21);
    assert Bit32(a, 22) == Bit32(b, 22);
    assert Bit32(a, 23) == Bit32(b, 23);
  }

  lemma SameByte3(a: bv32, b: bv32)
    requires SameBits(a, b)
    ensures (a >> 24) & 0xFF == (b >> 24) & 0xFF
  {
    assert Bit32(a, 24) == Bit32(b, 24);
    assert Bit32(a, 25) == Bit32(b, 25);
    assert Bit32(a, 26) == Bit32(b, 26);
    assert Bit32(a, 27) == Bit32(b, 27);
    assert Bit32(a, 28) == Bit32(b, 28);
    assert Bit32(a, 29) == Bit32(b, 29);
    assert Bit32(a, 30) == Bit32(b, 30);
    assert Bit32(a, 31) == Bit32(b, 31);
  }

  /** A word is determined by its 32 columns. */
  lemma WordFromColumns(a: bv32, b: bv32)
    requires forall c: bv32 :: c < 32 ==> (ColumnBit(a, c) <==> ColumnBit(b, c))
    ensures a == b
  {
    forall j: bv32 | j < 32 ensures Bit32(a, j) <==> Bit32(b, j) {
      assert ColumnBit(a, 31 - j) == ColumnBit(b, 31 - j);
    }
    SameByte0(a, b);
    SameByte1(a, b);
    SameByte2(a, b);
    SameByte3(a, b);
  }

  /** The word packing of a grid is unique. */
  lemma PackedWordsUnique(g: Grid, w1: seq<bv32>, w2: seq<bv32>)
    requires WellFormed(g) && PackedWords(g, w1) && PackedWords(g, w2)
    ensures w1 == w2
  {
    forall y | 0 <= y < HEIGHT ensures w1[y] == w2[y] {
      WordFromColumns(w1[y], w2[y]);
    }
  }

  /** Only cell (0, 0) lit packs to row 0 = 0x80000000 and eight zero rows. */
  lemma OriginOnlyWords(words: seq<bv32>)
    requires PackedWords(OriginOnly(), words)
    ensures words == [0x8000_0000] + seq(HEIGHT - 1, _ => 0)
  {
    var want: seq<bv32> := [0x8000_0000] + seq(HEIGHT - 1, _ => 0);
    var g := OriginOnly();
    forall y, c: bv32 | 0 <= y < HEIGHT && c < 32
      ensures ColumnBit(want[y], c) <==> c < COLUMNS && g[y][c as int]
    {
      if y == 0 {
        assert want[0] == 0x8000_0000;
        assert ColumnBit(0x8000_0000, c) <==> c == 0;
      } else {
        assert want[y] == 0;
      }
    }
    PackedWordsUnique(g, words, want);
  }
}
