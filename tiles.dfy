/**
 * The renderer helpers shared by every renderer: stitching square RGBA
 * tiles into one image, copying a single tile into an image buffer, and
 * the index guard of the hexagon vertex table.
 *
 * The sizes the source derives from the map's float extent e and the
 * multiplier are parameters here: `tiles = ceil(e / ts)` tiles of `ts`
 * pixels and a `target = floor(e)` pixel image, related by `Covers`.
 */
module Renderers {
  import opened Util
  import opened Images
  import HexGrid
  import HexMaps

  /** Bytes per pixel of a tile (`CHANNELS`). */
  const Channels4: nat := 4

  /** `tiles` tiles of `ts` pixels cover `target` pixels, and the last tile starts inside them. */
  predicate Covers(tiles: nat, target: nat, ts: nat)
  {
    target <= tiles * ts && (tiles >= 1 ==> (tiles - 1) * ts <= target)
  }

  /** Every tile holds ts·ts RGBA pixels. */
  predicate TilesSized(tiles: seq<seq<Byte>>, ts: nat)
  {
    forall t :: 0 <= t < |tiles| ==> |tiles[t]| == ts * ts * Channels4
  }

  /** Byte ch of pixel (x, y) in a w-pixel-wide RGBA buffer. */
  function PixelByte(x: nat, y: nat, w: nat, ch: nat): nat
  {
    (x + y * w) * 4 + ch
  }

  /** The tile holding pixel (x, y): tile row y/ts, tile column x/ts. */
  function TileOf(x: nat, y: nat, ts: nat, tilesX: nat): nat
    requires ts >= 1
  {
    (y / ts) * tilesX + x / ts
  }

  /** Byte ch of pixel (x, y) inside its tile: row y%ts, column x%ts. */
  function TileByteOf(x: nat, y: nat, ts: nat, ch: nat): nat
    requires ts >= 1
  {
    ((y % ts) * ts + x % ts) * 4 + ch
  }

  /**
   * Row y of the target is stitched: byte ch of each pixel x is byte
   * ((y%ts)·ts + x%ts)·4 + ch of tile (y/ts)·tilesX + x/ts (the conjuncts
   * say that those positions exist).
   */
  ghost predicate RowStitched(buf: seq<Byte>, tiles: seq<seq<Byte>>, tilesX: nat, ts: nat, targetX: nat, y: nat)
  {
    ts >= 1 &&
    forall x: nat, ch: nat {:trigger PixelByte(x, y, targetX, ch)} :: x < targetX && ch < 4 ==>
      PixelByte(x, y, targetX, ch) < |buf| && TileOf(x, y, ts, tilesX) < |tiles| &&
      TileByteOf(x, y, ts, ch) < |tiles[TileOf(x, y, ts, tilesX)]| &&
      buf[PixelByte(x, y, targetX, ch)] == tiles[TileOf(x, y, ts, tilesX)][TileByteOf(x, y, ts, ch)]
  }

  /** Every row of a targetX by targetY image is stitched from the tiles. */
  ghost predicate Stitched(buf: seq<Byte>, tiles: seq<seq<Byte>>, tilesX: nat, ts: nat, targetX: nat, targetY: nat)
  {
    forall y: nat :: y < targetY ==> RowStitched(buf, tiles, tilesX, ts, targetX, y)
  }

  /** A row's stitching depends only on that row's bytes. */
  lemma RowStitchedFrame(buf: seq<Byte>, buf2: seq<Byte>, tiles: seq<seq<Byte>>, tilesX: nat, ts: nat, targetX: nat, y: nat)
    requires RowStitched(buf, tiles, tilesX, ts, targetX, y) && |buf2| == |buf|
    requires forall k :: RowStart(0, y, targetX) <= k < RowStart(targetX, y, targetX) && k < |buf| ==> buf2[k] == buf[k]
    ensures RowStitched(buf2, tiles, tilesX, ts, targetX, y)
  {
    forall x: nat, ch: nat | x < targetX && ch < 4
      ensures buf2[PixelByte(x, y, targetX, ch)] == buf[PixelByte(x, y, targetX, ch)]
    {
    }
  }

  /** `copy_from_slice` into `buf[dst..dst + len]` from `src[from..from + len]`. */
  method CopySlice(buf: array<Byte>, dst: nat, src: seq<Byte>, from: nat, len: nat)
    requires dst + len <= buf.Length && from + len <= |src|
    modifies buf
    ensures forall k :: dst <= k < dst + len ==> buf[k] == src[from + k - dst]
    ensures forall k :: 0 <= k < buf.Length && !(dst <= k < dst + len) ==> buf[k] == old(buf[k])
  {
    forall k | dst <= k < dst + len {
      buf[k] := src[from + k - dst];
    }
  }

  /** Row r of a tile and the ts bytes after it end inside the tile. */
  lemma TileRowInside(r: nat, ts: nat)
    requires r < ts
    ensures r * ts * 4 + ts * 4 <= ts * ts * 4
  {
    HexMaps.MulMonotone(r + 1, ts, ts);
  }

  /** Row y of a width-w image ends where row y + 1 starts, and before row y2 > y. */
  lemma RowsApart(y: nat, y2: nat, w: nat)
    requires y < y2
    ensures y * w + w <= y2 * w
  {
    HexMaps.MulMonotone(y + 1, y2, w);
  }

  /** A tile in row q < rows and column c < cols of the grid has an index below cols·rows. */
  lemma TileIndexInside(q: nat, c: nat, cols: nat, rows: nat)
    requires q < rows && c < cols
    ensures q * cols + c < cols * rows
  {
    HexMaps.MulMonotone(q + 1, rows, cols);
  }

  /** A pixel row below tiles·ts lies in a tile row below tiles. */
  lemma TileRowOf(y: nat, ts: nat, tiles: nat)
    requires ts >= 1 && y < tiles * ts
    ensures y / ts < tiles
  {
  }

  /** A column in [c·ts, c·ts + ts) lies in tile column c at offset x - c·ts. */
  lemma TileColumnOf(x: nat, c: nat, ts: nat)
    requires ts >= 1 && c * ts <= x < c * ts + ts
    ensures x / ts == c && x % ts == x - c * ts
  {
    HexGrid.DivModUnique(c, x - c * ts, ts);
  }

  /**
   * `Renderer::tiles_to_image`: fails (the source panics) when a tile has
   * the wrong length or the tile count is not tilesX·tilesY; otherwise an
   * RGBA image of targetX by targetY pixels, each copied from its tile.
   */
  method TilesToImage(tiles: seq<seq<Byte>>, tilesX: nat, tilesY: nat, targetX: nat, targetY: nat, ts: nat)
    returns (img: Option<Image>)
    requires ts >= 1 && Covers(tilesX, targetX, ts) && Covers(tilesY, targetY, ts)
    ensures img.None? <==> !TilesSized(tiles, ts) || tilesX * tilesY != |tiles|
    ensures img.Some? ==> fresh(img.value) && fresh(img.value.buffer)
    ensures img.Some? ==> img.value.width == targetX && img.value.height == targetY && img.value.colorMode == Rgba
    ensures img.Some? ==> img.value.buffer.Length == targetX * targetY * 4
    ensures img.Some? ==> Stitched(img.value.buffer[..], tiles, tilesX, ts, targetX, targetY)
  {
    var bufSize := ts * ts * Channels4;
    for t := 0 to |tiles|
      invariant forall u :: 0 <= u < t ==> |tiles[u]| == bufSize
    {
      if |tiles[t]| != bufSize {
        return None;
      }
    }
    if tilesX * tilesY != |tiles| {
      return None;
    }
    var buffer := new Byte[targetX * targetY * Channels4](_ => 0);
    for y := 0 to targetY
      invariant Stitched(buffer[..], tiles, tilesX, ts, targetX, y)
    {
      ghost var before := buffer[..];
      StitchRow(buffer, tiles, tilesX, tilesY, targetX, targetY, ts, y);
      forall y': nat | y' < y
        ensures RowStitched(buffer[..], tiles, tilesX, ts, targetX, y')
      {
        RowsApart(y', y, targetX);
        RowStitchedFrame(before, buffer[..], tiles, tilesX, ts, targetX, y');
      }
    }
    var image := new Image.FromBuffer(targetX, targetY, buffer, Rgba);
    img := Some(image);
  }

  /** An image made of a single tile of its own size is that tile, byte for byte. */
  lemma SingleTileIsImage(buf: seq<Byte>, tiles: seq<seq<Byte>>, ts: nat)
    requires ts >= 1 && |tiles| == 1 && |tiles[0]| == ts * ts * 4 && |buf| == ts * ts * 4
    requires Stitched(buf, tiles, 1, ts, ts, ts)
    ensures buf == tiles[0]
  {
    forall k | 0 <= k < |buf|
      ensures buf[k] == tiles[0][k]
    {
      var x, y, ch := (k / 4) % ts, (k / 4) / ts, k % 4;
      SingleTileByte(k, ts);
      assert RowStitched(buf, tiles, 1, ts, ts, y);
    }
  }

  /** In a single ts by ts tile, byte k is byte k of the pixel it belongs to. */
  lemma SingleTileByte(k: nat, ts: nat)
    requires ts >= 1 && k < ts * ts * 4
    ensures (k / 4) / ts < ts && (k / 4) % ts < ts
    ensures PixelByte((k / 4) % ts, (k / 4) / ts, ts, k % 4) == k
    ensures TileOf((k / 4) % ts, (k / 4) / ts, ts, 1) == 0
    ensures TileByteOf((k / 4) % ts, (k / 4) / ts, ts, k % 4) == k
  {
    var p, ch := k / 4, k % 4;
    var x, y := p % ts, p / ts;
    TileRowOf(p, ts, ts);
    assert k == p * 4 + ch && p == y * ts + x;
    TileColumnOf(x, 0, ts);
    TileColumnOf(y, 0, ts);
  }

  /**
   * One iteration of the outer loop of `tiles_to_image`: row y of the
   * target is filled from the tiles of tile row y/ts, slice by slice, with
   * the last slice cut at the target's width; nothing outside row y changes.
   */
  method StitchRow(buffer: array<Byte>, tiles: seq<seq<Byte>>, tilesX: nat, tilesY: nat, targetX: nat, targetY: nat, ts: nat, y: nat)
    requires ts >= 1 && Covers(tilesX, targetX, ts) && Covers(tilesY, targetY, ts)
    requires TilesSized(tiles, ts) && tilesX * tilesY == |tiles|
    requires buffer.Length == targetX * targetY * Channels4 && y < targetY
    modifies buffer
    ensures RowStitched(buffer[..], tiles, tilesX, ts, targetX, y)
    ensures forall k :: 0 <= k < buffer.Length && !(RowStart(0, y, targetX) <= k < RowStart(targetX, y, targetX)) ==>
      buffer[k] == old(buffer[k])
  {
    RowsApart(y, targetY, targetX);
    TileRowOf(y, ts, tilesY);
    for c := 0 to tilesX
      invariant RowPrefixStitched(buffer[..], tiles, tilesX, ts, targetX, y, c * ts)
      invariant forall k :: 0 <= k < buffer.Length && !(RowStart(0, y, targetX) <= k < RowStart(targetX, y, targetX)) ==>
        buffer[k] == old(buffer[k])
    {
      var lo := c * ts;
      HexMaps.MulMonotone(c, tilesX - 1, ts);
      var hi := if lo + ts < targetX then lo + ts else targetX;
      var tileIndex := (y / ts) * tilesX + c;
      TileIndexInside(y / ts, c, tilesX, tilesY);
      ghost var before := buffer[..];
      // the source's lower_bound and upper_bound are RowStart(lo, y) and RowStart(hi, y)
      CopyTileSlice(tiles[tileIndex], buffer, targetX, ts, c, lo, hi, y);
      RowPrefixExtend(before, buffer[..], tiles, tilesX, ts, targetX, y, c, lo, hi);
    }
  }

  /** Pixels x < min(lo, targetX) of row y are stitched. */
  ghost predicate RowPrefixStitched(buf: seq<Byte>, tiles: seq<seq<Byte>>, tilesX: nat, ts: nat, targetX: nat, y: nat, lo: nat)
  {
    ts >= 1 &&
    forall x: nat, ch: nat {:trigger PixelByte(x, y, targetX, ch)} :: x < targetX && x < lo && ch < 4 ==>
      PixelByte(x, y, targetX, ch) < |buf| && TileOf(x, y, ts, tilesX) < |tiles| &&
      TileByteOf(x, y, ts, ch) < |tiles[TileOf(x, y, ts, tilesX)]| &&
      buf[PixelByte(x, y, targetX, ch)] == tiles[TileOf(x, y, ts, tilesX)][TileByteOf(x, y, ts, ch)]
  }

  /** Copying tile column c into pixels [lo, hi) of row y extends the stitched prefix to lo + ts. */
  lemma RowPrefixExtend(before: seq<Byte>, after: seq<Byte>, tiles: seq<seq<Byte>>, tilesX: nat, ts: nat, targetX: nat,
                        y: nat, c: nat, lo: nat, hi: nat)
    requires RowPrefixStitched(before, tiles, tilesX, ts, targetX, y, lo) && |after| == |before|
    requires lo == c * ts && lo <= hi && (hi == targetX || hi == lo + ts) && hi <= targetX
    requires (y / ts) * tilesX + c < |tiles|
    requires RowCopied(after, tiles[(y / ts) * tilesX + c], targetX, ts, lo, hi, y)
    requires forall k :: 0 <= k < |before| && !(RowStart(lo, y, targetX) <= k < RowStart(hi, y, targetX)) ==> after[k] == before[k]
    ensures RowPrefixStitched(after, tiles, tilesX, ts, targetX, y, (c + 1) * ts)
  {
    assert (c + 1) * ts == lo + ts;
    forall x: nat, ch: nat | x < targetX && x < lo + ts && ch < 4
      ensures PixelByte(x, y, targetX, ch) < |after| && TileOf(x, y, ts, tilesX) < |tiles|
      ensures TileByteOf(x, y, ts, ch) < |tiles[TileOf(x, y, ts, tilesX)]|
      ensures after[PixelByte(x, y, targetX, ch)] == tiles[TileOf(x, y, ts, tilesX)][TileByteOf(x, y, ts, ch)]
    {
      if x < lo {
        assert PixelByte(x, y, targetX, ch) < RowStart(lo, y, targetX);
      } else {
        TileColumnOf(x, c, ts);
      }
    }
  }

  /** Where `add_tile_to_image` writes row y: bytes start .. end of the image buffer. */
  function RowStart(minX: nat, y: nat, targetX: nat): nat
  {
    (minX + y * targetX) * Channels4
  }

  /** The tile's column span [minX, maxX) and row span [minY, maxY), cut at the target size. */
  function Span(tile: nat, ts: nat, target: nat): (r: (nat, nat))
    ensures r.0 == tile * ts
    ensures r.1 <= target && r.1 <= tile * ts + ts
    ensures r.1 == target || r.1 == tile * ts + ts
  {
    var hi := (tile + 1) * ts;
    (tile * ts, if hi < target then hi else target)
  }

  /** Row y, pixels [minX, maxX), is copied from row y % ts of the tile, columns x % ts. */
  ghost predicate RowCopied(buf: seq<Byte>, tile: seq<Byte>, targetX: nat, ts: nat, minX: nat, maxX: nat, y: nat)
  {
    ts >= 1 &&
    forall x: nat, ch: nat {:trigger PixelByte(x, y, targetX, ch)} :: minX <= x < maxX && ch < 4 ==>
      PixelByte(x, y, targetX, ch) < |buf| && TileByteOf(x, y, ts, ch) < |tile| &&
      buf[PixelByte(x, y, targetX, ch)] == tile[TileByteOf(x, y, ts, ch)]
  }

  /** Every row of [minY, maxY) is copied from the tile. */
  ghost predicate TileCopied(buf: seq<Byte>, tile: seq<Byte>, targetX: nat, ts: nat, minX: nat, maxX: nat, minY: nat, maxY: nat)
  {
    forall y: nat :: minY <= y < maxY ==> RowCopied(buf, tile, targetX, ts, minX, maxX, y)
  }

  /** A row's copy depends only on that row's bytes. */
  lemma RowCopiedFrame(buf: seq<Byte>, buf2: seq<Byte>, tile: seq<Byte>, targetX: nat, ts: nat, minX: nat, maxX: nat, y: nat)
    requires RowCopied(buf, tile, targetX, ts, minX, maxX, y) && |buf2| == |buf|
    requires forall k :: RowStart(minX, y, targetX) <= k < RowStart(maxX, y, targetX) && k < |buf| ==> buf2[k] == buf[k]
    ensures RowCopied(buf2, tile, targetX, ts, minX, maxX, y)
  {
    forall x: nat, ch: nat | minX <= x < maxX && ch < 4
      ensures buf2[PixelByte(x, y, targetX, ch)] == buf[PixelByte(x, y, targetX, ch)]
    {
    }
  }

  /**
   * `Renderer::add_tile_to_image`: fails (the source panics) on a tile of
   * the wrong length; otherwise copies the tile into rows
   * [tileY·ts, min((tileY+1)·ts, targetY)) and columns
   * [tileX·ts, min((tileX+1)·ts, targetX)) of the buffer and leaves every
   * other byte alone.
   */
  method AddTileToImage(tile: seq<Byte>, imageBuffer: array<Byte>, targetX: nat, targetY: nat, ts: nat, tileX: nat, tileY: nat)
    returns (ok: bool)
    requires Span(tileY, ts, targetY).0 < Span(tileY, ts, targetY).1 ==>
      Span(tileX, ts, targetX).0 <= Span(tileX, ts, targetX).1 &&
      RowStart(Span(tileX, ts, targetX).1, Span(tileY, ts, targetY).1 - 1, targetX) <= imageBuffer.Length
    modifies imageBuffer
    ensures ok <==> |tile| == ts * ts * Channels4
    ensures !ok ==> imageBuffer[..] == old(imageBuffer[..])
    ensures ok ==> TileCopied(imageBuffer[..], tile, targetX, ts,
      Span(tileX, ts, targetX).0, Span(tileX, ts, targetX).1, Span(tileY, ts, targetY).0, Span(tileY, ts, targetY).1)
    ensures forall k :: 0 <= k < imageBuffer.Length && !InRows(k, targetX, Span(tileX, ts, targetX), Span(tileY, ts, targetY)) ==>
      imageBuffer[k] == old(imageBuffer[k])
  {
    var bufSize := ts * ts * Channels4;
    if |tile| != bufSize {
      return false;
    }
    ok := true;
    var (minX, maxX) := Span(tileX, ts, targetX);
    var (minY, maxY) := Span(tileY, ts, targetY);
    var y := minY;
    while y < maxY
      invariant minY <= y && (y == minY || y <= maxY)
      invariant TileCopied(imageBuffer[..], tile, targetX, ts, minX, maxX, minY, y)
      invariant forall k :: 0 <= k < imageBuffer.Length && !InRows(k, targetX, (minX, maxX), (minY, y)) ==>
        imageBuffer[k] == old(imageBuffer[k])
    {
      ghost var before := imageBuffer[..];
      HexMaps.MulMonotone(y, maxY - 1, targetX);
      CopyTileSlice(tile, imageBuffer, targetX, ts, tileX, minX, maxX, y);
      forall y': nat | minY <= y' < y
        ensures RowCopied(imageBuffer[..], tile, targetX, ts, minX, maxX, y')
      {
        RowsApart(y', y, targetX);
        RowCopiedFrame(before, imageBuffer[..], tile, targetX, ts, minX, maxX, y');
      }
      y := y + 1;
    }
    forall k: nat | InRows(k, targetX, (minX, maxX), (minY, y))
      ensures InRows(k, targetX, Span(tileX, ts, targetX), Span(tileY, ts, targetY))
    {
      var y' :| minY <= y' < y && RowStart(minX, y', targetX) <= k < RowStart(maxX, y', targetX);
      assert Span(tileY, ts, targetY).0 <= y' < Span(tileY, ts, targetY).1;
    }
  }

  /** Byte k lies in the span's column range of one of the span's rows. */
  ghost predicate InRows(k: nat, targetX: nat, xs: (nat, nat), ys: (nat, nat))
  {
    exists y: nat :: ys.0 <= y < ys.1 && RowStart(xs.0, y, targetX) <= k < RowStart(xs.1, y, targetX)
  }

  /**
   * The slice copy of both functions: pixels [minX, maxX) of row y, inside
   * tile column tileX, from row y % ts of the tile.
   */
  method CopyTileSlice(tile: seq<Byte>, buf: array<Byte>, targetX: nat, ts: nat, tileX: nat, minX: nat, maxX: nat, y: nat)
    requires ts >= 1 && |tile| == ts * ts * Channels4
    requires minX == tileX * ts && minX <= maxX <= minX + ts && RowStart(maxX, y, targetX) <= buf.Length
    modifies buf
    ensures RowCopied(buf[..], tile, targetX, ts, minX, maxX, y)
    ensures forall k :: 0 <= k < buf.Length && !(RowStart(minX, y, targetX) <= k < RowStart(maxX, y, targetX)) ==>
      buf[k] == old(buf[k])
  {
    var tileSliceStart := ts * (y % ts) * Channels4;
    var start := (minX + y * targetX) * Channels4;
    var end := (maxX + y * targetX) * Channels4;
    TileRowInside(y % ts, ts);
    assert tileSliceStart == (y % ts) * ts * 4;
    assert start == RowStart(minX, y, targetX) && end == RowStart(maxX, y, targetX);
    assert end - start <= ts * 4;
    CopySlice(buf, start, tile, tileSliceStart, end - start);
    forall k | start <= k < end
      ensures (y % ts) * ts * 4 + (k - start) < |tile| && buf[k] == tile[(y % ts) * ts * 4 + (k - start)]
    {
    }
    CopiedRow(buf[..], tile, targetX, ts, tileX, minX, maxX, y);
  }

  /** Bytes [RowStart(minX, y), RowStart(maxX, y)) taken in order from tile row y % ts form a copied row. */
  lemma CopiedRow(buf: seq<Byte>, tile: seq<Byte>, targetX: nat, ts: nat, tileX: nat, minX: nat, maxX: nat, y: nat)
    requires ts >= 1 && |tile| == ts * ts * Channels4
    requires minX == tileX * ts && minX <= maxX <= minX + ts && RowStart(maxX, y, targetX) <= |buf|
    requires forall k :: RowStart(minX, y, targetX) <= k < RowStart(maxX, y, targetX) ==>
      (y % ts) * ts * 4 + (k - RowStart(minX, y, targetX)) < |tile| &&
      buf[k] == tile[(y % ts) * ts * 4 + (k - RowStart(minX, y, targetX))]
    ensures RowCopied(buf, tile, targetX, ts, minX, maxX, y)
  {
    forall x: nat, ch: nat | minX <= x < maxX && ch < 4
      ensures PixelByte(x, y, targetX, ch) < |buf| && TileByteOf(x, y, ts, ch) < |tile|
      ensures buf[PixelByte(x, y, targetX, ch)] == tile[TileByteOf(x, y, ts, ch)]
    {
      var k := PixelByte(x, y, targetX, ch);
      var offset := (x - minX) * 4 + ch;
      assert k == RowStart(minX, y, targetX) + offset;
      TileRowInside(y % ts, ts);
      TileColumnOf(x, tileX, ts);
      assert TileByteOf(x, y, ts, ch) == (y % ts) * ts * 4 + offset;
      assert buf[k] == tile[(y % ts) * ts * 4 + offset];
    }
  }

  /**
   * `get_hex_vertex` without the float centre: vertex `index`'s offset from
   * the centre, x in half hex widths and y in quarters of RATIO, clockwise
   * from the upper right; None where the source panics (index above 5).
   */
  function VertexOffset(index: nat): (r: Option<(int, int)>)
    ensures r.None? <==> index > 5
  {
    if index > 5 then None
    else if index == 0 then Some((1, -1))
    else if index == 1 then Some((1, 1))
    else if index == 2 then Some((0, 2))
    else if index == 3 then Some((-1, 1))
    else if index == 4 then Some((-1, -1))
    else Some((0, -2))
  }

  /** Vertex i and vertex i + 3 sit opposite each other across the centre. */
  lemma VertexOpposite(i: nat)
    requires i < 3
    ensures VertexOffset(i + 3).value.0 == -VertexOffset(i).value.0
    ensures VertexOffset(i + 3).value.1 == -VertexOffset(i).value.1
  {
  }
}
