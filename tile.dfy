/** The Game Boy tile format: an 8x8 tile of 2-bit colour indices is stored
    in 16 bytes, two per row. Row `y` keeps the low bit of each pixel in
    byte `2y` and the high bit in byte `2y + 1`; pixel `x` of the row is bit
    `7 - x` of both bytes. Images are arrays of palette indices addressed
    `[x, y]`; a tile image is 8 by 8. */
module Tile {
  import opened Bytes
  import opened GB

  /** The rows of an image, top to bottom, each left to right. */
  type Grid = seq<seq<bv8>>

  predicate IsTile(g: Grid)
  {
    |g| == 8 && forall y :: 0 <= y < 8 ==> |g[y]| == 8
  }

  /** A grid of `w` by `h` tiles: `h * 8` rows of `w * 8` pixels. */
  predicate IsImage(g: Grid, w: nat, h: nat)
  {
    |g| == h * 8 && forall Y :: 0 <= Y < h * 8 ==> |g[Y]| == w * 8
  }

  /** The pixels of `img` as rows: `Pixels(img)[y][x] == img[x, y]`. */
  function Pixels(img: array2<bv8>): (g: Grid)
    reads img
    ensures |g| == img.Length1
    ensures forall y :: 0 <= y < |g| ==> |g[y]| == img.Length0
  {
    seq(img.Length1, y requires 0 <= y < img.Length1 reads img =>
      seq(img.Length0, x requires 0 <= x < img.Length0 reads img => img[x, y]))
  }

  // ---------------------------------------------------------------------
  // Bit positions

  /** The bit that holds pixel `x` of a row: `1 << (7 - x)`. */
  function PixelMask(x: nat): bv8
    requires x < 8
  {
    if x == 0 then 0x80 else if x == 1 then 0x40 else if x == 2 then 0x20
    else if x == 3 then 0x10 else if x == 4 then 0x08 else if x == 5 then 0x04
    else if x == 6 then 0x02 else 0x01
  }

  lemma ShiftIsPixelMask(x: nat)
    requires x < 8
    ensures (1 as bv8) << (7 - x) == PixelMask(x)
  {
  }

  /** Two pixel bits share nothing unless they are the same. */
  lemma PixelMasksDisjoint(j: nat, k: nat)
    requires j < 8 && k < 8
    ensures PixelMask(j) & PixelMask(k) != 0 <==> j == k
  {
  }

  /** A byte is determined by its eight pixel bits. */
  lemma SameBits(a: bv8, b: bv8)
    requires forall k :: 0 <= k < 8 ==> (a & PixelMask(k) != 0) == (b & PixelMask(k) != 0)
    ensures a == b
  {
    assert (a & PixelMask(0) != 0) == (b & PixelMask(0) != 0);
    assert (a & PixelMask(1) != 0) == (b & PixelMask(1) != 0);
    assert (a & PixelMask(2) != 0) == (b & PixelMask(2) != 0);
    assert (a & PixelMask(3) != 0) == (b & PixelMask(3) != 0);
    assert (a & PixelMask(4) != 0) == (b & PixelMask(4) != 0);
    assert (a & PixelMask(5) != 0) == (b & PixelMask(5) != 0);
    assert (a & PixelMask(6) != 0) == (b & PixelMask(6) != 0);
    assert (a & PixelMask(7) != 0) == (b & PixelMask(7) != 0);
  }

  // ---------------------------------------------------------------------
  // Decoding

  /** The colour index of pixel `x` of a row stored in `lo` and `hi`: a
      2-bit value. */
  function DecodePixel(lo: bv8, hi: bv8, x: nat): (c: bv8)
    requires x < 8
    ensures c < 4
  {
    ((lo >> (7 - x)) & 1) | (((hi >> (7 - x)) & 1) << 1)
  }

  /** Pixel `x` takes its low bit from `lo` and its high bit from `hi`, at
      bit `7 - x`, and nothing else: it is a colour index 0 to 3. */
  lemma DecodePixelBits(lo: bv8, hi: bv8, x: nat)
    requires x < 8
    ensures DecodePixel(lo, hi, x)
      == (if lo & PixelMask(x) != 0 then 1 else 0) | (if hi & PixelMask(x) != 0 then 2 else 0)
    ensures DecodePixel(lo, hi, x) < 4
  {
    if x == 0 { } else if x == 1 { } else if x == 2 { } else if x == 3 { }
    else if x == 4 { } else if x == 5 { } else if x == 6 { } else { }
  }

  /** The tile stored in 16 bytes, as 8 rows of 8 colour indices 0 to 3. */
  function DecodeTile(data: seq<bv8>): (g: Grid)
    requires |data| == 16
    ensures IsTile(g)
    ensures forall y, x :: 0 <= y < 8 && 0 <= x < 8 ==> g[y][x] < 4
  {
    var rows := seq(8, y requires 0 <= y < 8 => seq(8, x requires 0 <= x < 8 => DecodePixel(data[2 * y], data[2 * y + 1], x)));
    assert forall y, x :: 0 <= y < 8 && 0 <= x < 8 ==> rows[y][x] == DecodePixel(data[2 * y], data[2 * y + 1], x);
    rows
  }

  // ---------------------------------------------------------------------
  // Encoding

  /** Which byte of a row a plane goes to: 1 selects the low plane (byte
      `2y`), 2 the high plane (byte `2y + 1`). */
  function PlaneOf(j: nat): bv8
  {
    if j % 2 == 0 then 1 else 2
  }

  /** The byte for one plane of a row after the first `n` pixels: the bit
      of pixel `x` is set when the pixel's colour has the plane's bit. */
  function PlaneBits(row: seq<bv8>, plane: bv8, n: nat): bv8
    requires n <= |row|
    requires n <= 8
  {
    if n == 0 then 0
    else PlaneBits(row, plane, n - 1) | (if row[n - 1] & plane != 0 then PixelMask(n - 1) else 0)
  }

  lemma {:induction false} PlaneBitsAt(row: seq<bv8>, plane: bv8, n: nat, k: nat)
    requires n <= |row| && n <= 8 && k < 8
    ensures PlaneBits(row, plane, n) & PixelMask(k) != 0 <==> k < n && row[k] & plane != 0
  {
    if n > 0 {
      PlaneBitsAt(row, plane, n - 1, k);
      PixelMasksDisjoint(n - 1, k);
    }
  }

  /** The 16 bytes `write_tile` produces for a tile. */
  function EncodeTile(g: Grid): (data: seq<bv8>)
    requires IsTile(g)
    ensures |data| == 16
  {
    seq(16, j requires 0 <= j < 16 => PlaneBits(g[j / 2], PlaneOf(j), 8))
  }

  /** Each pixel's colour with the bits above bit 1 cleared. */
  function Mask3(g: Grid): (m: Grid)
    ensures |m| == |g| && forall y :: 0 <= y < |g| ==> |m[y]| == |g[y]|
    ensures IsTile(g) ==> IsTile(m)
  {
    seq(|g|, y requires 0 <= y < |g| => seq(|g[y]|, x requires 0 <= x < |g[y]| => g[y][x] & 3))
  }

  /** A pixel read back from the two plane bytes of its row. */
  lemma DecodeEncodePixel(row: seq<bv8>, x: nat)
    requires |row| == 8 && x < 8
    ensures DecodePixel(PlaneBits(row, 1, 8), PlaneBits(row, 2, 8), x) == row[x] & 3
  {
    PlaneBitsAt(row, 1, 8, x);
    PlaneBitsAt(row, 2, 8, x);
    DecodePixelBits(PlaneBits(row, 1, 8), PlaneBits(row, 2, 8), x);
    var c := row[x];
    assert ((if c & 1 != 0 then 1 else 0) | (if c & 2 != 0 then 2 else 0)) == c & 3;
  }

  /** Decoding what was encoded gives each colour back modulo 4. */
  lemma DecodeEncode(g: Grid)
    requires IsTile(g)
    ensures DecodeTile(EncodeTile(g)) == Mask3(g)
  {
    var data := EncodeTile(g);
    forall y | 0 <= y < 8
      ensures DecodeTile(data)[y] == Mask3(g)[y]
    {
      assert data[2 * y] == PlaneBits(g[y], 1, 8);
      assert data[2 * y + 1] == PlaneBits(g[y], 2, 8);
      forall x | 0 <= x < 8
        ensures DecodeTile(data)[y][x] == Mask3(g)[y][x]
      {
        DecodeEncodePixel(g[y], x);
      }
    }
  }

  /** Encoding what was decoded gives back the same 16 bytes. */
  lemma EncodeDecode(data: seq<bv8>)
    requires |data| == 16
    ensures EncodeTile(DecodeTile(data)) == data
  {
    var g := DecodeTile(data);
    forall j | 0 <= j < 16
      ensures EncodeTile(g)[j] == data[j]
    {
      forall k | 0 <= k < 8
        ensures (EncodeTile(g)[j] & PixelMask(k) != 0) == (data[j] & PixelMask(k) != 0)
      {
        EncodeDecodeBit(data, j, k);
      }
      SameBits(EncodeTile(g)[j], data[j]);
    }
  }

  /** Bit `k` of byte `j` survives decoding and encoding again. */
  lemma EncodeDecodeBit(data: seq<bv8>, j: nat, k: nat)
    requires |data| == 16 && j < 16 && k < 8
    ensures (EncodeTile(DecodeTile(data))[j] & PixelMask(k) != 0) == (data[j] & PixelMask(k) != 0)
  {
    var g := DecodeTile(data);
    var y := j / 2;
    EncodeTileAt(g, j);
    PlaneBitsAt(g[y], PlaneOf(j), 8, k);
    DecodeTileAt(data, y, k);
    DecodedPlaneBits(data[2 * y], data[2 * y + 1], k);
    if j % 2 == 0 {
      assert j == 2 * y && PlaneOf(j) == 1;
    } else {
      assert j == 2 * y + 1 && PlaneOf(j) == 2;
    }
  }

  /** Byte `j` of an encoded tile is a plane of row `j / 2`. */
  lemma EncodeTileAt(g: Grid, j: nat)
    requires IsTile(g) && j < 16
    ensures EncodeTile(g)[j] == PlaneBits(g[j / 2], PlaneOf(j), 8)
  {
  }

  /** Pixel `(x, y)` of a decoded tile comes from bytes `2y` and `2y + 1`. */
  lemma DecodeTileAt(data: seq<bv8>, y: nat, x: nat)
    requires |data| == 16 && y < 8 && x < 8
    ensures DecodeTile(data)[y][x] == DecodePixel(data[2 * y], data[2 * y + 1], x)
  {
  }

  /** Bit 0 of a decoded pixel is its bit in the low plane byte, bit 1 its
      bit in the high plane byte. */
  lemma DecodedPlaneBits(lo: bv8, hi: bv8, x: nat)
    requires x < 8
    ensures (DecodePixel(lo, hi, x) & 1 != 0) == (lo & PixelMask(x) != 0)
    ensures (DecodePixel(lo, hi, x) & 2 != 0) == (hi & PixelMask(x) != 0)
  {
    DecodePixelBits(lo, hi, x);
  }

  // ---------------------------------------------------------------------
  // One tile in the ROM

  /** `read_tile`: reads 16 bytes at `index` and decodes them into a new
      8x8 image. A read cut short by the end of the ROM makes the decoding
      loop index past the bytes read (an `IndexError`, raised at the first
      pixel of the first row whose bytes are missing), modelled as None. */
  method ReadTile(rom: GBFile, index: nat) returns (r: Option<array2<bv8>>)
    ensures r.None? <==> |ReadAt(rom.contents, index, 16)| < 16
    ensures r.Some? ==>
      && fresh(r.value) && r.value.Length0 == 8 && r.value.Length1 == 8
      && Pixels(r.value) == DecodeTile(ReadAt(rom.contents, index, 16))
  {
    var img := new bv8[8, 8]((_, _) => 0);
    var tileData := rom.Read(index, 16);
    for y := 0 to 8
      invariant 2 * y <= |tileData|
      invariant forall yy, xx :: 0 <= yy < y && 0 <= xx < 8 ==>
        img[xx, yy] == DecodePixel(tileData[2 * yy], tileData[2 * yy + 1], xx)
    {
      if y * 2 + 1 >= |tileData| {
        return None;
      }
      DecodeRow(img, tileData, y);
    }
    var g := DecodeTile(tileData);
    forall y | 0 <= y < 8
      ensures Pixels(img)[y] == g[y]
    {
      assert forall x :: 0 <= x < 8 ==> Pixels(img)[y][x] == g[y][x];
    }
    return Some(img);
  }

  /** The inner loop of `read_tile`: row `y` of the image from bytes `2y`
      and `2y + 1`. */
  method DecodeRow(img: array2<bv8>, tileData: seq<bv8>, y: nat)
    requires img.Length0 == 8 && img.Length1 == 8 && y < 8 && 2 * y + 1 < |tileData|
    modifies img
    ensures forall yy, xx :: 0 <= yy < 8 && 0 <= xx < 8 ==>
      img[xx, yy] == if yy == y then DecodePixel(tileData[2 * y], tileData[2 * y + 1], xx) else old(img[xx, yy])
  {
    for x := 0 to 8
      invariant forall yy, xx :: 0 <= yy < 8 && 0 <= xx < 8 ==>
        img[xx, yy] == if yy == y && xx < x then DecodePixel(tileData[2 * y], tileData[2 * y + 1], xx) else old(img[xx, yy])
    {
      var byteIndex := y * 2;
      img[x, y] := DecodePixel(tileData[byteIndex], tileData[byteIndex + 1], x);
    }
  }

  /** `write_tile`: a tile that is not 8x8 is refused (a `ValueError`)
      before anything is written; otherwise its 16 bytes are built in a
      zeroed buffer and written at `index`. */
  method WriteTile(rom: GBFile, index: nat, tile: array2<bv8>) returns (ok: bool)
    modifies rom
    ensures ok <==> tile.Length0 == 8 && tile.Length1 == 8
    ensures !ok ==> rom.contents == old(rom.contents)
    ensures ok ==> rom.contents == Overwrite(old(rom.contents), index, EncodeTile(Pixels(tile)))
  {
    if tile.Length0 != 8 || tile.Length1 != 8 {
      return false;
    }
    var tileData := EncodeBuffer(tile);
    rom.Write(index, tileData[..]);
    return true;
  }

  /** The loops of `write_tile`: a zeroed 16-byte buffer in which each
      pixel's plane bits are ORed, row by row. */
  method EncodeBuffer(tile: array2<bv8>) returns (tileData: array<bv8>)
    requires tile.Length0 == 8 && tile.Length1 == 8
    ensures fresh(tileData) && tileData[..] == EncodeTile(Pixels(tile))
  {
    ghost var g := Pixels(tile);
    tileData := new bv8[16](_ => 0);
    for y := 0 to 8
      invariant forall j :: 0 <= j < 2 * y ==> tileData[j] == EncodeTile(g)[j]
      invariant forall j :: 2 * y <= j < 16 ==> tileData[j] == 0
    {
      EncodeRow(tile, tileData, y);
      EncodeTileRow(g, y);
    }
    assert forall j :: 0 <= j < 16 ==> tileData[..][j] == EncodeTile(g)[j];
  }

  /** Bytes `2y` and `2y + 1` of an encoded tile are the two planes of row
      `y`. */
  lemma EncodeTileRow(g: Grid, y: nat)
    requires IsTile(g) && y < 8
    ensures EncodeTile(g)[2 * y] == PlaneBits(g[y], 1, 8)
    ensures EncodeTile(g)[2 * y + 1] == PlaneBits(g[y], 2, 8)
  {
    assert (2 * y) / 2 == y && (2 * y + 1) / 2 == y;
  }

  /** The inner loop of `write_tile`: for each pixel of row `y`, its colour
      bit 0 is ORed into byte `2y` and its bit 1 into byte `2y + 1`, at the
      pixel's bit `1 << (7 - x)`. */
  method EncodeRow(tile: array2<bv8>, tileData: array<bv8>, y: nat)
    requires tile.Length0 == 8 && tile.Length1 == 8 && tileData.Length == 16 && y < 8
    requires tileData[2 * y] == 0 && tileData[2 * y + 1] == 0
    modifies tileData
    ensures tileData[2 * y] == PlaneBits(Pixels(tile)[y], 1, 8)
    ensures tileData[2 * y + 1] == PlaneBits(Pixels(tile)[y], 2, 8)
    ensures forall j :: 0 <= j < 16 && j != 2 * y && j != 2 * y + 1 ==> tileData[j] == old(tileData[j])
  {
    ghost var row := Pixels(tile)[y];
    var byteIndex := y * 2;
    for x := 0 to 8
      invariant tileData[byteIndex] == PlaneBits(row, 1, x)
      invariant tileData[byteIndex + 1] == PlaneBits(row, 2, x)
      invariant forall j :: 0 <= j < 16 && j != byteIndex && j != byteIndex + 1 ==> tileData[j] == old(tileData[j])
    {
      var colorIndex := tile[x, y];
      assert colorIndex == row[x];
      var bit := PixelMask(x);  // 1 << (7 - x), by ShiftIsPixelMask
      PlaneBitsStep(row, 1, x);
      PlaneBitsStep(row, 2, x);
      SetPixelBits(tileData, byteIndex, colorIndex, bit);
    }
  }

  /** One more pixel sets its bit in a plane byte exactly when its colour
      has the plane's bit. */
  lemma PlaneBitsStep(row: seq<bv8>, plane: bv8, x: nat)
    requires x < |row| && x < 8
    ensures PlaneBits(row, plane, x + 1) ==
      if row[x] & plane != 0 then PlaneBits(row, plane, x) | PixelMask(x) else PlaneBits(row, plane, x)
  {
    var v := PlaneBits(row, plane, x);
    assert v | 0 == v;
  }

  /** The body of the inner loop of `write_tile`: the pixel's `bit` is
      ORed into the low-plane byte when the colour has bit 0 and into the
      high-plane byte when it has bit 1. */
  method SetPixelBits(tileData: array<bv8>, byteIndex: nat, colorIndex: bv8, bit: bv8)
    requires byteIndex + 1 < tileData.Length
    modifies tileData
    ensures tileData[byteIndex] == if colorIndex & 1 != 0 then old(tileData[byteIndex]) | bit else old(tileData[byteIndex])
    ensures tileData[byteIndex + 1] == if colorIndex & 2 != 0 then old(tileData[byteIndex + 1]) | bit else old(tileData[byteIndex + 1])
    ensures forall j :: 0 <= j < tileData.Length && j != byteIndex && j != byteIndex + 1 ==> tileData[j] == old(tileData[j])
  {
    if colorIndex & 1 != 0 {
      tileData[byteIndex] := tileData[byteIndex] | bit;
    }
    if colorIndex & 2 != 0 {
      tileData[byteIndex + 1] := tileData[byteIndex + 1] | bit;
    }
  }

  // ---------------------------------------------------------------------
  // Multi-tile images

  /** The base address in force for tile `n - 1`, after the jumps of tiles
      `0 .. n - 1` have been seen: a nonzero `jumpTo[i]` replaces the base,
      and the replacement stays for the tiles after it. An empty `jumpTo`
      (or none at all) never jumps. */
  function Base(index: nat, jumpTo: seq<nat>, n: nat): nat
    requires jumpTo == [] || n <= |jumpTo|
  {
    if n == 0 then index
    else if jumpTo != [] && jumpTo[n - 1] != 0 then jumpTo[n - 1]
    else Base(index, jumpTo, n - 1)
  }

  /** The base is the last nonzero jump seen so far. */
  lemma {:induction false} BaseIsLastJump(index: nat, jumpTo: seq<nat>, n: nat, k: nat)
    requires k < n <= |jumpTo| && jumpTo[k] != 0
    requires forall j :: k < j < n ==> jumpTo[j] == 0
    ensures Base(index, jumpTo, n) == jumpTo[k]
  {
    if k < n - 1 {
      BaseIsLastJump(index, jumpTo, n - 1, k);
    }
  }

  /** Without a nonzero jump so far, the base is the starting index. */
  lemma {:induction false} BaseWithoutJump(index: nat, jumpTo: seq<nat>, n: nat)
    requires jumpTo == [] || n <= |jumpTo|
    requires forall j :: 0 <= j < n && j < |jumpTo| ==> jumpTo[j] == 0
    ensures Base(index, jumpTo, n) == index
  {
    if n > 0 {
      BaseWithoutJump(index, jumpTo, n - 1);
    }
  }

  /** The loop can reach tile `n` without indexing past `mapping` or a
      non-empty `jumpTo`. */
  predicate Ready(mapping: seq<nat>, jumpTo: seq<nat>, n: nat)
  {
    n <= |mapping| && (jumpTo == [] || n <= |jumpTo|)
  }

  /** The ROM address of tile `i`: `index + mapping[i] * 16`, with `index`
      the base in force. */
  function TileAddress(index: nat, mapping: seq<nat>, jumpTo: seq<nat>, i: nat): nat
    requires Ready(mapping, jumpTo, i + 1)
  {
    Base(index, jumpTo, i + 1) + mapping[i] * 16
  }

  /** The tile that pixel `(X, Y)` of a `w`-tile-wide image belongs to. */
  function TileOf(w: nat, X: nat, Y: nat): nat
  {
    (Y / 8) * w + X / 8
  }

  lemma DivModUnique(n: int, w: int, q: int, r: int)
    requires w > 0 && 0 <= r < w && n == q * w + r
    ensures n / w == q && n % w == r
  {
    var d := q - n / w;
    assert d * w == n % w - r;
    assert d >= 1 ==> d * w >= w;
    assert d <= -1 ==> d * w <= -w;
  }

  /** Tile `i` of a `w` by `h` grid of tiles sits at pixel origin
      `((i % w) * 8, (i / w) * 8)`, inside the image. */
  lemma TileOrigin(w: nat, h: nat, i: nat)
    requires i < w * h
    ensures w > 0 && i % w < w && i / w < h
    ensures (i % w) * 8 + 8 <= w * 8 && (i / w) * 8 + 8 <= h * 8
  {
    assert w > 0;
    var q, r := i / w, i % w;
    assert i == q * w + r;
    assert q >= h ==> q * w >= h * w;
  }

  /** Pixel `(X, Y)` lies in column `X / 8` and row `Y / 8` of tiles. */
  lemma TileCoords(w: nat, h: nat, X: nat, Y: nat)
    requires X < w * 8 && Y < h * 8
    ensures w > 0 && TileOf(w, X, Y) % w == X / 8 && TileOf(w, X, Y) / w == Y / 8
    ensures (X / 8) * 8 + 8 <= w * 8 && (Y / 8) * 8 + 8 <= h * 8
    ensures (X / 8) * 8 + X % 8 == X && (Y / 8) * 8 + Y % 8 == Y
  {
    assert X / 8 < w && Y / 8 < h;
    DivModUnique(TileOf(w, X, Y), w, Y / 8, X / 8);
  }

  /** The tiles cover the image without overlap: a pixel lies in the
      8x8 block at the origin of tile `i` exactly when `i` is its tile, and
      then its place in the tile is `(X % 8, Y % 8)`. */
  lemma InTileIff(w: nat, i: nat, X: nat, Y: nat)
    requires w > 0 && X < w * 8
    ensures TileOf(w, X, Y) == i <==>
      (i % w) * 8 <= X < (i % w) * 8 + 8 && (i / w) * 8 <= Y < (i / w) * 8 + 8
    ensures TileOf(w, X, Y) == i ==> X - (i % w) * 8 == X % 8 && Y - (i / w) * 8 == Y % 8
  {
    var t := TileOf(w, X, Y);
    assert X / 8 < w;
    DivModUnique(t, w, Y / 8, X / 8);
    assert i == (i / w) * w + i % w;
    if (i % w) * 8 <= X < (i % w) * 8 + 8 && (i / w) * 8 <= Y < (i / w) * 8 + 8 {
      assert X / 8 == i % w && Y / 8 == i / w;
    }
  }

  /** Every pixel of a `w*8` by `h*8` image belongs to one of the `w*h`
      tiles. */
  lemma TileOfInRange(w: nat, h: nat, X: nat, Y: nat)
    requires X < w * 8 && Y < h * 8
    ensures TileOf(w, X, Y) < w * h
  {
    assert X / 8 < w && Y / 8 < h;
    assert (Y / 8) * w + X / 8 < (Y / 8) * w + w == (Y / 8 + 1) * w;
    assert (Y / 8 + 1) * w <= h * w;
  }

  /** Whether the first `n` tiles can be read back in full. */
  predicate TilesReadable(contents: seq<bv8>, index: nat, mapping: seq<nat>, jumpTo: seq<nat>, n: nat)
  {
    && Ready(mapping, jumpTo, n)
    && forall i :: 0 <= i < n ==> |ReadAt(contents, TileAddress(index, mapping, jumpTo, i), 16)| == 16
  }

  /** Pixel `(x, y)` of tile `t` as stored in the ROM. */
  function TilePixel(contents: seq<bv8>, index: nat, mapping: seq<nat>, jumpTo: seq<nat>, t: nat, x: nat, y: nat): bv8
    requires Ready(mapping, jumpTo, t + 1)
    requires |ReadAt(contents, TileAddress(index, mapping, jumpTo, t), 16)| == 16
    requires x < 8 && y < 8
  {
    DecodeTile(ReadAt(contents, TileAddress(index, mapping, jumpTo, t), 16))[y][x]
  }

  /** The image `read_multi_tile` assembles: each pixel is the pixel of
      its tile at its place within the tile. */
  function MultiTileImage(contents: seq<bv8>, index: nat, w: nat, h: nat, mapping: seq<nat>, jumpTo: seq<nat>): (g: Grid)
    requires TilesReadable(contents, index, mapping, jumpTo, w * h)
    ensures IsImage(g, w, h)
  {
    seq(h * 8, Y requires 0 <= Y < h * 8 =>
      seq(w * 8, X requires 0 <= X < w * 8 =>
        TileOfInRange(w, h, X, Y);
        TilePixel(contents, index, mapping, jumpTo, TileOf(w, X, Y), X % 8, Y % 8)))
  }

  /** `img.paste(tile, (ox, oy))` for a tile that fits: the 8x8 block at
      `(ox, oy)` takes the tile's pixels, the rest is unchanged. */
  method Paste(img: array2<bv8>, tile: array2<bv8>, ox: nat, oy: nat)
    requires tile != img && tile.Length0 == 8 && tile.Length1 == 8
    requires ox + 8 <= img.Length0 && oy + 8 <= img.Length1
    modifies img
    ensures forall X, Y :: 0 <= X < img.Length0 && 0 <= Y < img.Length1 ==>
      img[X, Y] == if ox <= X < ox + 8 && oy <= Y < oy + 8 then tile[X - ox, Y - oy] else old(img[X, Y])
  {
    for y := 0 to 8
      invariant forall X, Y :: 0 <= X < img.Length0 && 0 <= Y < img.Length1 ==>
        img[X, Y] == if ox <= X < ox + 8 && oy <= Y < oy + y then tile[X - ox, Y - oy] else old(img[X, Y])
    {
      for x := 0 to 8
        invariant forall X, Y :: 0 <= X < img.Length0 && 0 <= Y < img.Length1 ==>
          img[X, Y] == if (ox <= X < ox + 8 && oy <= Y < oy + y) || (ox <= X < ox + x && Y == oy + y)
            then tile[X - ox, Y - oy] else old(img[X, Y])
      {
        img[ox + x, oy + y] := tile[x, y];
      }
    }
  }

  /** Pastes `tile` as tile `i` of a `w` by `h` grid of tiles, at
      `((i % w) * 8, (i / w) * 8)`: exactly the pixels of tile `i` change. */
  method PlaceTile(img: array2<bv8>, tile: array2<bv8>, w: nat, h: nat, i: nat)
    requires tile != img && tile.Length0 == 8 && tile.Length1 == 8
    requires img.Length0 == w * 8 && img.Length1 == h * 8 && i < w * h
    modifies img
    ensures forall X, Y :: 0 <= X < w * 8 && 0 <= Y < h * 8 ==>
      img[X, Y] == if TileOf(w, X, Y) == i then tile[X % 8, Y % 8] else old(img[X, Y])
  {
    TileOrigin(w, h, i);
    Paste(img, tile, (i % w) * 8, (i / w) * 8);
    forall X, Y | 0 <= X < w * 8 && 0 <= Y < h * 8
      ensures img[X, Y] == if TileOf(w, X, Y) == i then tile[X % 8, Y % 8] else old(img[X, Y])
    {
      InTileIff(w, i, X, Y);
    }
  }

  /** `read_multi_tile`: a new `w*8` by `h*8` image in which tile `i`,
      read from `TileAddress(.., i)`, is pasted at `((i % w) * 8, (i / w) *
      8)`. Indexing past `mapping` or a non-empty `jumpTo`, or a tile read
      cut short, raises (`IndexError`), modelled as None. */
  method ReadMultiTile(rom: GBFile, index: nat, w: nat, h: nat, mapping: seq<nat>, jumpTo: seq<nat>)
    returns (r: Option<array2<bv8>>)
    ensures r.Some? <==> TilesReadable(rom.contents, index, mapping, jumpTo, w * h)
    ensures r.Some? ==>
      && fresh(r.value) && r.value.Length0 == w * 8 && r.value.Length1 == h * 8
      && Pixels(r.value) == MultiTileImage(rom.contents, index, w, h, mapping, jumpTo)
  {
    var img := new bv8[w * 8, h * 8]((_, _) => 0);
    var base := index;
    for i := 0 to w * h
      invariant TilesReadable(rom.contents, index, mapping, jumpTo, i)
      invariant base == Base(index, jumpTo, i)
      invariant forall X, Y :: 0 <= X < w * 8 && 0 <= Y < h * 8 && TileOf(w, X, Y) < i ==>
        img[X, Y] == TilePixel(rom.contents, index, mapping, jumpTo, TileOf(w, X, Y), X % 8, Y % 8)
    {
      var stepped;
      stepped, base := ReadStep(rom, index, img, w, h, mapping, jumpTo, i, base);
      if !stepped {
        return None;
      }
    }
    var g := MultiTileImage(rom.contents, index, w, h, mapping, jumpTo);
    forall Y | 0 <= Y < h * 8
      ensures Pixels(img)[Y] == g[Y]
    {
      forall X | 0 <= X < w * 8
        ensures Pixels(img)[Y][X] == g[Y][X]
      {
        TileOfInRange(w, h, X, Y);
      }
    }
    return Some(img);
  }

  /** One pass of the tile loop of `read_multi_tile`: take the jump for
      tile `i`, if any, read the tile and paste it. Indexing past `mapping`
      or a non-empty `jumpTo`, or a read cut short, fails. */
  method ReadStep(rom: GBFile, index: nat, img: array2<bv8>, w: nat, h: nat, mapping: seq<nat>, jumpTo: seq<nat>,
    i: nat, base: nat)
    returns (ok: bool, base': nat)
    requires img.Length0 == w * 8 && img.Length1 == h * 8 && i < w * h
    requires TilesReadable(rom.contents, index, mapping, jumpTo, i) && base == Base(index, jumpTo, i)
    requires forall X, Y :: 0 <= X < w * 8 && 0 <= Y < h * 8 && TileOf(w, X, Y) < i ==>
      img[X, Y] == TilePixel(rom.contents, index, mapping, jumpTo, TileOf(w, X, Y), X % 8, Y % 8)
    modifies img
    ensures ok <==> TilesReadable(rom.contents, index, mapping, jumpTo, i + 1)
    ensures ok ==> base' == Base(index, jumpTo, i + 1)
    ensures ok ==> forall X, Y :: 0 <= X < w * 8 && 0 <= Y < h * 8 && TileOf(w, X, Y) < i + 1 ==>
      img[X, Y] == TilePixel(rom.contents, index, mapping, jumpTo, TileOf(w, X, Y), X % 8, Y % 8)
  {
    base' := base;
    if jumpTo != [] {
      if i >= |jumpTo| {
        return false, base';
      }
      if jumpTo[i] != 0 {
        base' := jumpTo[i];
      }
    }
    if i >= |mapping| {
      return false, base';
    }
    assert base' + mapping[i] * 16 == TileAddress(index, mapping, jumpTo, i);
    var tile := ReadTile(rom, base' + mapping[i] * 16);
    if tile.None? {
      return false, base';
    }
    PlaceTile(img, tile.value, w, h, i);
    forall X, Y | 0 <= X < w * 8 && 0 <= Y < h * 8 && TileOf(w, X, Y) == i
      ensures img[X, Y] == TilePixel(rom.contents, index, mapping, jumpTo, i, X % 8, Y % 8)
    {
      assert img[X, Y] == Pixels(tile.value)[Y % 8][X % 8];
    }
    return true, base';
  }

  /** The 8x8 block of `g` whose top-left pixel is `(col * 8, row * 8)`. */
  function BlockAt(g: Grid, col: nat, row: nat): (b: Grid)
    requires row * 8 + 8 <= |g| && forall Y :: row * 8 <= Y < row * 8 + 8 ==> col * 8 + 8 <= |g[Y]|
    ensures IsTile(b)
    ensures forall y, x :: 0 <= y < 8 && 0 <= x < 8 ==> b[y][x] == g[row * 8 + y][col * 8 + x]
  {
    seq(8, y requires 0 <= y < 8 => seq(8, x requires 0 <= x < 8 => g[row * 8 + y][col * 8 + x]))
  }

  /** Pixel `(X, Y)` is pixel `(X % 8, Y % 8)` of the block holding it. */
  lemma BlockAtPixel(g: Grid, X: nat, Y: nat)
    requires (Y / 8) * 8 + 8 <= |g| && forall Y' :: (Y / 8) * 8 <= Y' < (Y / 8) * 8 + 8 ==> (X / 8) * 8 + 8 <= |g[Y']|
    ensures BlockAt(g, X / 8, Y / 8)[Y % 8][X % 8] == g[Y][X]
  {
    var b := BlockAt(g, X / 8, Y / 8);
    assert b[Y % 8][X % 8] == g[(Y / 8) * 8 + Y % 8][(X / 8) * 8 + X % 8];
  }

  /** The 8x8 block of `g` that tile `i` of a `w` by `h` grid covers. */
  function BlockOf(g: Grid, w: nat, h: nat, i: nat): (b: Grid)
    requires IsImage(g, w, h) && i < w * h
    ensures IsTile(b)
  {
    TileOrigin(w, h, i);
    BlockAt(g, i % w, i / w)
  }

  /** How many tiles the loop gets through before indexing past `mapping`
      or a non-empty `jumpTo`. */
  function ReadyLimit(mapping: seq<nat>, jumpTo: seq<nat>): (n: nat)
    ensures forall k: nat :: Ready(mapping, jumpTo, k) <==> k <= n
  {
    if jumpTo == [] then |mapping| else Min(|mapping|, |jumpTo|)
  }

  /** The loop stops at the first tile it cannot index. */
  lemma StopsAt(mapping: seq<nat>, jumpTo: seq<nat>, i: nat)
    requires Ready(mapping, jumpTo, i) && !Ready(mapping, jumpTo, i + 1)
    ensures ReadyLimit(mapping, jumpTo) == i
  {
  }

  /** The 16 bytes of each tile of image `g`, in tile order. */
  function EncodedTiles(g: Grid, w: nat, h: nat): (tiles: seq<seq<bv8>>)
    requires IsImage(g, w, h)
    ensures |tiles| == w * h
    ensures forall i :: 0 <= i < w * h ==> tiles[i] == EncodeTile(BlockOf(g, w, h, i)) && |tiles[i]| == 16
  {
    seq(w * h, i requires 0 <= i < w * h => EncodeTile(BlockOf(g, w, h, i)))
  }

  /** The ROM after the first `n` of the encoded `tiles` have been
      written, in tile order. */
  function TilesWritten(s: seq<bv8>, index: nat, mapping: seq<nat>, jumpTo: seq<nat>, tiles: seq<seq<bv8>>, n: nat): seq<bv8>
    requires n <= |tiles| && Ready(mapping, jumpTo, n)
  {
    if n == 0 then s
    else
      Overwrite(TilesWritten(s, index, mapping, jumpTo, tiles, n - 1), TileAddress(index, mapping, jumpTo, n - 1), tiles[n - 1])
  }

  /** The pixel loop of `write_multi_tile`: a new 8x8 image holding the
      block of `img` that tile `i` covers, the block at column `i % w` and
      row `i / w` of tiles. */
  method CopyBlock(img: array2<bv8>, w: nat, h: nat, i: nat) returns (tile: array2<bv8>)
    requires img.Length0 == w * 8 && img.Length1 == h * 8 && i < w * h
    ensures fresh(tile) && tile.Length0 == 8 && tile.Length1 == 8
    ensures Pixels(tile) == BlockOf(Pixels(img), w, h, i)
  {
    TileOrigin(w, h, i);
    tile := CopyBlockAt(img, i % w, i / w);
  }

  /** Copies the 8x8 block whose top-left pixel is `(col * 8, row * 8)`
      into a new image, pixel by pixel. */
  method CopyBlockAt(img: array2<bv8>, col: nat, row: nat) returns (tile: array2<bv8>)
    requires col * 8 + 8 <= img.Length0 && row * 8 + 8 <= img.Length1
    ensures fresh(tile) && tile.Length0 == 8 && tile.Length1 == 8
    ensures Pixels(tile) == BlockAt(Pixels(img), col, row)
  {
    var ox, oy := col * 8, row * 8;
    tile := new bv8[8, 8]((_, _) => 0);
    for y := 0 to 8
      invariant forall xx, yy :: 0 <= xx < 8 && 0 <= yy < y ==> tile[xx, yy] == img[xx + ox, yy + oy]
    {
      for x := 0 to 8
        invariant forall xx, yy :: 0 <= xx < 8 && 0 <= yy < y ==> tile[xx, yy] == img[xx + ox, yy + oy]
        invariant forall xx :: 0 <= xx < x ==> tile[xx, y] == img[xx + ox, y + oy]
      {
        var colorIndex := img[x + ox, y + oy];
        tile[x, y] := colorIndex;
      }
    }
    var b := BlockAt(Pixels(img), col, row);
    forall y | 0 <= y < 8
      ensures Pixels(tile)[y] == b[y]
    {
      assert forall x :: 0 <= x < 8 ==> Pixels(tile)[y][x] == b[y][x];
    }
  }

  /** `write_multi_tile`: an image whose size is not `(w * 8, h * 8)` is
      refused (`ValueError`) before anything is written. Otherwise tile `i`
      is copied out of the image and written with `write_tile` at
      `TileAddress(.., i)`, in tile order; indexing past `mapping` or a
      non-empty `jumpTo` raises (`IndexError`) with the earlier tiles
      already written. */
  method WriteMultiTile(rom: GBFile, index: nat, img: array2<bv8>, w: nat, h: nat, mapping: seq<nat>, jumpTo: seq<nat>)
    returns (ok: bool)
    modifies rom
    ensures img.Length0 != w * 8 || img.Length1 != h * 8 ==> !ok && rom.contents == old(rom.contents)
    ensures img.Length0 == w * 8 && img.Length1 == h * 8 ==>
      && (ok <==> Ready(mapping, jumpTo, w * h))
      && rom.contents == TilesWritten(old(rom.contents), index, mapping, jumpTo, EncodedTiles(Pixels(img), w, h),
           Min(w * h, ReadyLimit(mapping, jumpTo)))
  {
    if img.Length0 != w * 8 || img.Length1 != h * 8 {
      return false;
    }
    ghost var g := Pixels(img);
    var base := index;
    for i := 0 to w * h
      invariant Ready(mapping, jumpTo, i)
      invariant base == Base(index, jumpTo, i)
      invariant rom.contents == TilesWritten(old(rom.contents), index, mapping, jumpTo, EncodedTiles(g, w, h), i)
    {
      var stepped;
      stepped, base := WriteStep(rom, index, img, w, h, mapping, jumpTo, i, base, old(rom.contents));
      if !stepped {
        StopsAt(mapping, jumpTo, i);
        return false;
      }
    }
    return true;
  }

  /** One pass of the tile loop of `write_multi_tile`: take the jump for
      tile `i`, if any, then copy the tile out of the image and write it.
      Indexing past `mapping` or a non-empty `jumpTo` stops before anything
      is written. */
  method WriteStep(rom: GBFile, index: nat, img: array2<bv8>, w: nat, h: nat, mapping: seq<nat>, jumpTo: seq<nat>,
    i: nat, base: nat, ghost s: seq<bv8>)
    returns (ok: bool, base': nat)
    requires img.Length0 == w * 8 && img.Length1 == h * 8 && i < w * h
    requires Ready(mapping, jumpTo, i) && base == Base(index, jumpTo, i)
    requires rom.contents == TilesWritten(s, index, mapping, jumpTo, EncodedTiles(Pixels(img), w, h), i)
    modifies rom
    ensures ok <==> Ready(mapping, jumpTo, i + 1)
    ensures !ok ==> rom.contents == old(rom.contents)
    ensures ok ==> base' == Base(index, jumpTo, i + 1)
    ensures ok ==> rom.contents == TilesWritten(s, index, mapping, jumpTo, EncodedTiles(Pixels(img), w, h), i + 1)
  {
    base' := base;
    if jumpTo != [] {
      if i >= |jumpTo| {
        return false, base';
      }
      if jumpTo[i] != 0 {
        base' := jumpTo[i];
      }
    }
    ok := StoreBlock(rom, base', img, w, h, mapping, i);
    if ok {
      assert base' + mapping[i] * 16 == TileAddress(index, mapping, jumpTo, i);
    }
  }

  /** One pass of the tile loop of `write_multi_tile` after the jump: copy
      tile `i` out of the image, then write it at `base + mapping[i] * 16`;
      a mapping too short for `i` stops the loop before anything is written. */
  method StoreBlock(rom: GBFile, base: nat, img: array2<bv8>, w: nat, h: nat, mapping: seq<nat>, i: nat)
    returns (ok: bool)
    requires img.Length0 == w * 8 && img.Length1 == h * 8 && i < w * h
    modifies rom
    ensures ok <==> i < |mapping|
    ensures !ok ==> rom.contents == old(rom.contents)
    ensures ok ==> rom.contents == Overwrite(old(rom.contents), base + mapping[i] * 16, EncodeTile(BlockOf(Pixels(img), w, h, i)))
  {
    var tile := CopyBlock(img, w, h, i);
    if i >= |mapping| {
      return false;
    }
    var written := WriteTile(rom, base + mapping[i] * 16, tile);
    return true;
  }

  // ---------------------------------------------------------------------
  // Round trips through the ROM

  /** A tile written at `address` reads back as its colours modulo 4. */
  lemma ReadWrittenTile(s: seq<bv8>, address: nat, g: Grid)
    requires IsTile(g)
    ensures ReadAt(Overwrite(s, address, EncodeTile(g)), address, 16) == EncodeTile(g)
    ensures DecodeTile(ReadAt(Overwrite(s, address, EncodeTile(g)), address, 16)) == Mask3(g)
  {
    ReadOverwrite(s, address, EncodeTile(g));
    DecodeEncode(g);
  }

  /** No two of the first `n` tiles share a ROM byte. */
  predicate TilesApart(index: nat, mapping: seq<nat>, jumpTo: seq<nat>, n: nat)
    requires Ready(mapping, jumpTo, n)
  {
    forall i, j :: 0 <= i < j < n ==>
      TileAddress(index, mapping, jumpTo, i) + 16 <= TileAddress(index, mapping, jumpTo, j)
      || TileAddress(index, mapping, jumpTo, j) + 16 <= TileAddress(index, mapping, jumpTo, i)
  }

  /** When the tiles do not share bytes, each tile written is still there
      after the later ones. */
  lemma {:induction false} WrittenTileSurvives(s: seq<bv8>, index: nat, mapping: seq<nat>, jumpTo: seq<nat>,
    tiles: seq<seq<bv8>>, n: nat, k: nat)
    requires k < n <= |tiles| && Ready(mapping, jumpTo, n) && TilesApart(index, mapping, jumpTo, n)
    requires forall i :: 0 <= i < |tiles| ==> |tiles[i]| == 16
    ensures ReadAt(TilesWritten(s, index, mapping, jumpTo, tiles, n), TileAddress(index, mapping, jumpTo, k), 16) == tiles[k]
    decreases n
  {
    var before := TilesWritten(s, index, mapping, jumpTo, tiles, n - 1);
    var a, last := TileAddress(index, mapping, jumpTo, k), TileAddress(index, mapping, jumpTo, n - 1);
    if k == n - 1 {
      TilePut(before, last, tiles[k]);
    } else {
      WrittenTileSurvives(s, index, mapping, jumpTo, tiles, n - 1, k);
      assert a + 16 <= last || last + 16 <= a;
      TileKept(before, last, tiles[n - 1], a, tiles[k]);
    }
  }

  /** The 16 bytes of a tile written at `last` read back as written. */
  lemma TilePut(before: seq<bv8>, last: nat, data: seq<bv8>)
    requires |data| == 16
    ensures ReadAt(Overwrite(before, last, data), last, 16) == data
  {
    ReadOverwrite(before, last, data);
  }

  /** Writing a tile elsewhere leaves the tile `t` read at `a` in place. */
  lemma TileKept(before: seq<bv8>, last: nat, data: seq<bv8>, a: nat, t: seq<bv8>)
    requires ReadAt(before, a, 16) == t && |t| == 16 && |data| == 16
    requires a + 16 <= last || last + 16 <= a
    ensures ReadAt(Overwrite(before, last, data), a, 16) == t
  {
    ReadOverwriteElsewhere(before, last, data, a, 16);
  }

  /** A pixel read back from its tile as written. */
  lemma RoundTripPixel(t: seq<bv8>, index: nat, g: Grid, w: nat, h: nat, mapping: seq<nat>, jumpTo: seq<nat>, X: nat, Y: nat)
    requires IsImage(g, w, h)
    requires X < w * 8 && Y < h * 8 && Ready(mapping, jumpTo, w * h)
    requires TileOf(w, X, Y) < w * h
    requires ReadAt(t, TileAddress(index, mapping, jumpTo, TileOf(w, X, Y)), 16) == EncodeTile(BlockOf(g, w, h, TileOf(w, X, Y)))
    ensures TilePixel(t, index, mapping, jumpTo, TileOf(w, X, Y), X % 8, Y % 8) == g[Y][X] & 3
  {
    var i := TileOf(w, X, Y);
    DecodeStoredPixel(t, TileAddress(index, mapping, jumpTo, i), BlockOf(g, w, h, i), X % 8, Y % 8);
    BlockOfPixel(g, w, h, X, Y);
  }

  /** A pixel decoded from the bytes of an encoded tile is the tile's
      pixel modulo 4. */
  lemma DecodeStoredPixel(t: seq<bv8>, address: nat, b: Grid, x: nat, y: nat)
    requires IsTile(b) && x < 8 && y < 8
    requires ReadAt(t, address, 16) == EncodeTile(b)
    ensures DecodeTile(ReadAt(t, address, 16))[y][x] == b[y][x] & 3
  {
    DecodeEncode(b);
  }

  /** Pixel `(X, Y)` of an image is pixel `(X % 8, Y % 8)` of the block of
      its tile. */
  lemma BlockOfPixel(g: Grid, w: nat, h: nat, X: nat, Y: nat)
    requires IsImage(g, w, h)
    requires X < w * 8 && Y < h * 8 && TileOf(w, X, Y) < w * h
    ensures BlockOf(g, w, h, TileOf(w, X, Y))[Y % 8][X % 8] == g[Y][X]
  {
    TileCoords(w, h, X, Y);
    assert BlockOf(g, w, h, TileOf(w, X, Y)) == BlockAt(g, X / 8, Y / 8);
    BlockAtPixel(g, X, Y);
  }

  /** Writing an image with `write_multi_tile` and reading it back with
      `read_multi_tile` at the same addresses gives the image's colours
      modulo 4, provided no two tiles share ROM bytes. */
  lemma MultiTileRoundTrip(s: seq<bv8>, index: nat, g: Grid, w: nat, h: nat, mapping: seq<nat>, jumpTo: seq<nat>)
    requires IsImage(g, w, h)
    requires Ready(mapping, jumpTo, w * h) && TilesApart(index, mapping, jumpTo, w * h)
    ensures TilesReadable(TilesWritten(s, index, mapping, jumpTo, EncodedTiles(g, w, h), w * h), index, mapping, jumpTo, w * h)
    ensures MultiTileImage(TilesWritten(s, index, mapping, jumpTo, EncodedTiles(g, w, h), w * h), index, w, h, mapping, jumpTo)
      == Mask3(g)
  {
    var tiles := EncodedTiles(g, w, h);
    var t := TilesWritten(s, index, mapping, jumpTo, tiles, w * h);
    forall i | 0 <= i < w * h
      ensures ReadAt(t, TileAddress(index, mapping, jumpTo, i), 16) == EncodeTile(BlockOf(g, w, h, i))
    {
      WrittenTileSurvives(s, index, mapping, jumpTo, tiles, w * h, i);
    }
    var m := MultiTileImage(t, index, w, h, mapping, jumpTo);
    forall Y | 0 <= Y < h * 8
      ensures m[Y] == Mask3(g)[Y]
    {
      forall X | 0 <= X < w * 8
        ensures m[Y][X] == Mask3(g)[Y][X]
      {
        TileOfInRange(w, h, X, Y);
        RoundTripPixel(t, index, g, w, h, mapping, jumpTo, X, Y);
      }
    }
  }

  /** Writing back the bytes just read at the tiles' addresses leaves the
      ROM as it was, whether or not the tiles share bytes. */
  lemma {:induction false} TilesRewritten(s: seq<bv8>, index: nat, mapping: seq<nat>, jumpTo: seq<nat>,
    tiles: seq<seq<bv8>>, n: nat)
    requires n <= |tiles| && Ready(mapping, jumpTo, n)
    requires forall k :: 0 <= k < n ==> tiles[k] == ReadAt(s, TileAddress(index, mapping, jumpTo, k), 16)
    ensures TilesWritten(s, index, mapping, jumpTo, tiles, n) == s
    decreases n
  {
    if n > 0 {
      TilesRewritten(s, index, mapping, jumpTo, tiles, n - 1);
      OverwriteWithOwnBytes(s, TileAddress(index, mapping, jumpTo, n - 1), 16);
    }
  }

  /** The block of tile `i` in the image `read_multi_tile` assembles is the
      tile decoded from its address. */
  lemma ReadBlock(s: seq<bv8>, index: nat, w: nat, h: nat, mapping: seq<nat>, jumpTo: seq<nat>, i: nat)
    requires TilesReadable(s, index, mapping, jumpTo, w * h) && i < w * h
    ensures BlockOf(MultiTileImage(s, index, w, h, mapping, jumpTo), w, h, i)
      == DecodeTile(ReadAt(s, TileAddress(index, mapping, jumpTo, i), 16))
  {
    var g := MultiTileImage(s, index, w, h, mapping, jumpTo);
    var b := BlockOf(g, w, h, i);
    var t := DecodeTile(ReadAt(s, TileAddress(index, mapping, jumpTo, i), 16));
    TileOrigin(w, h, i);
    forall y | 0 <= y < 8
      ensures b[y] == t[y]
    {
      forall x | 0 <= x < 8
        ensures b[y][x] == t[y][x]
      {
        ReadBlockPixel(s, index, w, h, mapping, jumpTo, i, x, y);
      }
    }
  }

  lemma ReadBlockPixel(s: seq<bv8>, index: nat, w: nat, h: nat, mapping: seq<nat>, jumpTo: seq<nat>, i: nat, x: nat, y: nat)
    requires TilesReadable(s, index, mapping, jumpTo, w * h) && i < w * h && x < 8 && y < 8
    ensures BlockOf(MultiTileImage(s, index, w, h, mapping, jumpTo), w, h, i)[y][x]
      == TilePixel(s, index, mapping, jumpTo, i, x, y)
  {
    var g := MultiTileImage(s, index, w, h, mapping, jumpTo);
    TileOrigin(w, h, i);
    var X, Y := (i % w) * 8 + x, (i / w) * 8 + y;
    assert BlockOf(g, w, h, i) == BlockAt(g, i % w, i / w);
    assert BlockOf(g, w, h, i)[y][x] == g[Y][X];
    InTileIff(w, i, X, Y);
    TileOfInRange(w, h, X, Y);
    assert g[Y][X] == TilePixel(s, index, mapping, jumpTo, TileOf(w, X, Y), X % 8, Y % 8);
  }

  /** Writing back with `write_multi_tile`, at the same addresses, the image
      `read_multi_tile` read leaves the ROM unchanged. */
  lemma MultiTileRewrite(s: seq<bv8>, index: nat, w: nat, h: nat, mapping: seq<nat>, jumpTo: seq<nat>)
    requires TilesReadable(s, index, mapping, jumpTo, w * h)
    ensures TilesWritten(s, index, mapping, jumpTo, EncodedTiles(MultiTileImage(s, index, w, h, mapping, jumpTo), w, h), w * h) == s
  {
    var tiles := EncodedTiles(MultiTileImage(s, index, w, h, mapping, jumpTo), w, h);
    forall k | 0 <= k < w * h
      ensures tiles[k] == ReadAt(s, TileAddress(index, mapping, jumpTo, k), 16)
    {
      ReadBlock(s, index, w, h, mapping, jumpTo, k);
      EncodeDecode(ReadAt(s, TileAddress(index, mapping, jumpTo, k), 16));
    }
    TilesRewritten(s, index, mapping, jumpTo, tiles, w * h);
  }
}
