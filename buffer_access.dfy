/** gegl-buffer-access.c: the abyss test, single-pixel get and set through
    the hot tile, the tile-by-tile bulk copy between a caller's linear
    buffer and the tiles (gegl_buffer_iterate) at level 0 in the buffer's
    own format, the gegl_buffer_get / gegl_buffer_set dispatch, flush and the
    lazily created sampler. */
module BufferAccess {
  import opened TileCoords
  import opened Tiles
  import opened TileGrid

  /** A babl pixel format; only its identity and its pixel size matter here. */
  datatype Format = Format(name: string, bytesPerPixel: nat)

  /** The contents of the level-0 tiles a buffer can reach, by key. */
  type View = map<TileKey, seq<Pixel>>

  /** GEGL_AUTO_ROWSTRIDE; rowstrides are counted in pixels. */
  const AutoRowstride: int := 0

  /** The buffer geometry that gegl_buffer_iterate reads. */
  datatype Layout = Layout(tileWidth: int, tileHeight: int, shiftX: int, shiftY: int, abyss: Rect)

  ghost predicate LayoutOk(L: Layout)
  {
    L.tileWidth > 0 && L.tileHeight > 0 && L.abyss.width >= 0 && L.abyss.height >= 0
  }

  /** Every tile of the view holds tile_width * tile_height pixels. */
  ghost predicate ViewOk(L: Layout, V: View)
    requires LayoutOk(L)
  {
    forall k :: k in V ==> |V[k]| == L.tileWidth * L.tileHeight
  }

  function Zeros(n: nat): Pixel
  {
    seq(n, _ => 0 as byte)
  }

  /** The abyss in tiled coordinates (shift applied) contains (c, r). */
  predicate AbyssHas(L: Layout, c: int, r: int)
  {
    Contains(Rect(L.abyss.x + L.shiftX, L.abyss.y + L.shiftY, L.abyss.width, L.abyss.height), c, r)
  }

  /** Cell (i, j) of a linear buffer with rowstride s, or a dummy outside it. */
  function At(a: seq<Pixel>, s: int, i: int, j: int): Pixel
  {
    if 0 <= j * s + i < |a| then a[j * s + i] else []
  }

  // ---------------------------------------------------------------------
  // Single pixels

  /** What gegl_buffer_get_pixel leaves in the caller's pixel: zeros in the
      abyss, the tile's pixel when the tile exists, otherwise the old value. */
  function PixelRead(L: Layout, V: View, zero: Pixel, old_: Pixel, c: int, r: int): Pixel
    requires LayoutOk(L) && ViewOk(L, V)
  {
    if !AbyssHas(L, c, r) then zero
    else if KeyAt(c, r, L.tileWidth, L.tileHeight) !in V then old_
    else
      OffsetInTile(c, r, L.tileWidth, L.tileHeight);
      V[KeyAt(c, r, L.tileWidth, L.tileHeight)][OffsetAt(c, r, L.tileWidth, L.tileHeight)]
  }

  /** The tile contents after gegl_buffer_set_pixel: one pixel replaced when
      it is outside the abyss and its tile exists, otherwise nothing. */
  function PixelWrite(L: Layout, V: View, c: int, r: int, px: Pixel): (W: View)
    requires LayoutOk(L) && ViewOk(L, V)
    ensures ViewOk(L, W) && W.Keys == V.Keys
  {
    var k := KeyAt(c, r, L.tileWidth, L.tileHeight);
    if !AbyssHas(L, c, r) || k !in V then V
    else
      OffsetInTile(c, r, L.tileWidth, L.tileHeight);
      V[k := V[k][OffsetAt(c, r, L.tileWidth, L.tileHeight) := px]]
  }

  /** Reading a pixel back after writing it gives the pixel written, when it
      was outside the abyss and its tile exists; otherwise the write changed
      nothing the read can see. */
  lemma PixelWriteRead(L: Layout, V: View, zero: Pixel, old_: Pixel, c: int, r: int, px: Pixel)
    requires LayoutOk(L) && ViewOk(L, V)
    ensures PixelRead(L, PixelWrite(L, V, c, r, px), zero, old_, c, r) ==
      if AbyssHas(L, c, r) && KeyAt(c, r, L.tileWidth, L.tileHeight) in V then px
      else PixelRead(L, V, zero, old_, c, r)
  {
    var k := KeyAt(c, r, L.tileWidth, L.tileHeight);
    if AbyssHas(L, c, r) && k in V {
      var off := OffsetAt(c, r, L.tileWidth, L.tileHeight);
      OffsetInTile(c, r, L.tileWidth, L.tileHeight);
      var W := V[k := V[k][off := px]];
      assert PixelWrite(L, V, c, r, px) == W;
      assert W[k][off] == px;
    }
  }

  /** A pixel write changes exactly one pixel of one tile, or nothing: every
      other coordinate reads the same afterwards. */
  lemma PixelWriteIsLocal(L: Layout, V: View, zero: Pixel, old_: Pixel, c: int, r: int, px: Pixel, c2: int, r2: int)
    requires LayoutOk(L) && ViewOk(L, V) && (c2, r2) != (c, r)
    ensures PixelRead(L, PixelWrite(L, V, c, r, px), zero, old_, c2, r2) == PixelRead(L, V, zero, old_, c2, r2)
  {
    var tw, th := L.tileWidth, L.tileHeight;
    var k, k2 := KeyAt(c, r, tw, th), KeyAt(c2, r2, tw, th);
    if AbyssHas(L, c, r) && k in V {
      var off := OffsetAt(c, r, tw, th);
      OffsetInTile(c, r, tw, th);
      var W := V[k := V[k][off := px]];
      assert PixelWrite(L, V, c, r, px) == W;
      var off2 := OffsetAt(c2, r2, tw, th);
      OffsetInTile(c2, r2, tw, th);
      if AbyssHas(L, c2, r2) && k2 in V {
        assert PixelRead(L, W, zero, old_, c2, r2) == W[k2][off2];
        assert PixelRead(L, V, zero, old_, c2, r2) == V[k2][off2];
        if k2 == k {
          GridRoundTrip(c, r, tw, th);
          GridRoundTrip(c2, r2, tw, th);
          assert off2 != off;
        }
      }
    } else {
      assert PixelWrite(L, V, c, r, px) == V;
    }
  }

  // ---------------------------------------------------------------------
  // Bulk copies: the cell-by-cell meaning of gegl_buffer_iterate

  /** Where the scan step holding index i starts: the walk begins at 0 and
      every later step begins at a tile boundary. */
  function SegStart(origin: int, i: int, s: int): int
    requires s > 0
  {
    Max(0, TileIndex(origin + i, s) * s - origin)
  }

  /** The scan steps of one axis: from `start`, aligned unless it is 0, the
      step covers up to the end of the tile, and every index in it shares its
      tile and lies at the matching offset. */
  lemma RunFacts(origin: int, start: int, i: int, s: int)
    requires s > 0 && 0 <= start && (start == 0 || TileOffset(origin + start, s) == 0)
    requires start <= i < start + s - TileOffset(origin + start, s)
    ensures SegStart(origin, i, s) == start
    ensures TileIndex(origin + i, s) == TileIndex(origin + start, s)
    ensures TileOffset(origin + i, s) == TileOffset(origin + start, s) + (i - start)
  {
    SameTile(origin + start, i - start, s);
    Decompose(origin + start, s);
  }

  /** The row band holding roi row j lies wholly in the abyss, by the
      conservative test of gegl_buffer_iterate (band top plus a full tile
      height). */
  predicate BandSkipped(L: Layout, roi: Rect, j: int)
    requires LayoutOk(L)
  {
    var top := roi.y + L.shiftY + SegStart(roi.y + L.shiftY, j, L.tileHeight);
    !(top + L.tileHeight >= L.abyss.y + L.shiftY && top < L.abyss.y + L.shiftY + L.abyss.height)
  }

  /** The tile column holding roi column i lies wholly in the abyss, by the
      same conservative test. */
  predicate BlockSkipped(L: Layout, roi: Rect, i: int)
    requires LayoutOk(L)
  {
    var left := roi.x + L.shiftX + SegStart(roi.x + L.shiftX, i, L.tileWidth);
    !(left + L.tileWidth >= L.abyss.x + L.shiftX && left < L.abyss.x + L.shiftX + L.abyss.width)
  }

  /** Cell (i, j) (column i < rowstride s, row j < roi height) of the
      caller's buffer after a read by gegl_buffer_iterate, given the old
      buffer B: zeros in a skipped band (the whole rowstride); otherwise
      padding past the roi width keeps its value, zeros in a skipped tile
      column, the old value when the tile is missing, zeros outside the
      abyss, and the tile's pixel inside it. */
  function ReadAt(L: Layout, roi: Rect, s: int, V: View, zero: Pixel, B: seq<Pixel>, i: int, j: int): Pixel
    requires LayoutOk(L) && ViewOk(L, V)
  {
    var c, r := roi.x + L.shiftX + i, roi.y + L.shiftY + j;
    var k := KeyAt(c, r, L.tileWidth, L.tileHeight);
    if BandSkipped(L, roi, j) then zero
    else if i >= roi.width then At(B, s, i, j)
    else if BlockSkipped(L, roi, i) then zero
    else if k !in V then At(B, s, i, j)
    else if !AbyssHas(L, c, r) then zero
    else
      OffsetInTile(c, r, L.tileWidth, L.tileHeight);
      V[k][OffsetAt(c, r, L.tileWidth, L.tileHeight)]
  }

  /** The cells already visited by the scan: all rows before y0, rows before
      y1 in columns before x1, rows before y2 in columns before x2. */
  predicate Done(i: int, j: int, y0: int, y1: int, x1: int, y2: int, x2: int)
  {
    j < y0 || (j < y1 && i < x1) || (j < y2 && i < x2)
  }

  /** The caller's buffer cur holds the read result on the visited cells and
      the old contents B everywhere else. */
  ghost predicate ReadUpTo(L: Layout, roi: Rect, s: int, V: View, zero: Pixel, B: seq<Pixel>, cur: seq<Pixel>,
                           y0: int, y1: int, x1: int, y2: int, x2: int)
    requires LayoutOk(L) && ViewOk(L, V)
  {
    && |cur| == |B|
    && (forall j, i :: 0 <= j < roi.height && 0 <= i < s ==>
          At(cur, s, i, j) == if Done(i, j, y0, y1, x1, y2, x2) then ReadAt(L, roi, s, V, zero, B, i, j) else At(B, s, i, j))
    && (forall n :: 0 <= n && roi.height * s <= n < |cur| ==> cur[n] == B[n])
  }

  /** Distinct cells of a buffer with rowstride s sit at distinct positions. */
  lemma CellsApart(s: int, i: int, j: int, i2: int, j2: int)
    requires 0 <= i < s && 0 <= i2 < s && (i, j) != (i2, j2)
    ensures j * s + i != j2 * s + i2
  {
    if j < j2 {
      MulLe(j + 1, j2, s);
    } else if j2 < j {
      MulLe(j2 + 1, j, s);
    }
  }

  /** Overwriting positions [j * s + a, j * s + a + |vals|) changes row j's
      cells a .. a + |vals| and no other cell. */
  lemma RowUpdate(cur: seq<Pixel>, cur2: seq<Pixel>, s: int, j: int, a: int, vals: seq<Pixel>)
    requires 0 <= a && a + |vals| <= s && |cur2| == |cur|
    requires forall m :: 0 <= m < |cur| ==>
      cur2[m] == if j * s + a <= m < j * s + a + |vals| then vals[m - (j * s + a)] else cur[m]
    ensures forall j2, i2 :: 0 <= i2 < s ==>
      At(cur2, s, i2, j2) == if j2 == j && a <= i2 < a + |vals| then (if 0 <= j * s + i2 < |cur| then vals[i2 - a] else []) else At(cur, s, i2, j2)
  {
    forall j2, i2 | 0 <= i2 < s
      ensures At(cur2, s, i2, j2) == if j2 == j && a <= i2 < a + |vals| then (if 0 <= j * s + i2 < |cur| then vals[i2 - a] else []) else At(cur, s, i2, j2)
    {
      if j2 != j {
        var q := j2 * s + i2 - j * s;
        if a <= q < a + |vals| {
          CellsApart(s, i2, j2, q, j);
        }
      }
    }
  }

  /** One row of a locked tile as the read loop leaves it in the caller's
      buffer: the copied pixels (when the row lies inside the abyss), with
      the lskip leftmost and rskip rightmost ones zeroed. */
  function RowRead(row: seq<Pixel>, toff: int, pixels: int, lskip: int, rskip: int, rowIn: bool, zero: Pixel): (r: seq<Pixel>)
    requires 0 <= toff && 0 <= pixels && toff + pixels <= |row|
    ensures |r| == pixels
    ensures forall q :: 0 <= q < pixels ==>
      r[q] == if rowIn && lskip <= q < pixels - rskip then row[toff + q] else zero
  {
    seq(pixels, q requires 0 <= q < pixels => if rowIn && lskip <= q < pixels - rskip then row[toff + q] else zero)
  }

  /** RowUpdate for a store of the run vals at row j, column a, of a
      buffer that holds the whole run. */
  lemma RunCells(cur: seq<Pixel>, cur2: seq<Pixel>, s: int, j: int, a: int, vals: seq<Pixel>)
    requires 0 <= j && 0 <= a && a + |vals| <= s && |cur2| == |cur| && j * s + a + |vals| <= |cur|
    requires forall m :: 0 <= m < |cur| ==>
      cur2[m] == if j * s + a <= m < j * s + a + |vals| then vals[m - (j * s + a)] else cur[m]
    ensures forall j2, i2 :: 0 <= i2 < s ==>
      At(cur2, s, i2, j2) == if j2 == j && a <= i2 < a + |vals| then vals[i2 - a] else At(cur, s, i2, j2)
    ensures forall m :: 0 <= m < |cur| && !(j * s + a <= m < j * s + a + |vals|) ==> cur2[m] == cur[m]
  {
    RowUpdate(cur, cur2, s, j, a, vals);
    assert 0 <= j * s;
  }

  /** Two descriptions of the visited cells that agree on the buffer's
      cells describe the same progress. */
  lemma DoneEquiv(L: Layout, roi: Rect, s: int, V: View, zero: Pixel, B: seq<Pixel>, cur: seq<Pixel>,
                  y0: int, y1: int, x1: int, y2: int, x2: int,
                  z0: int, z1: int, w1: int, z2: int, w2: int)
    requires LayoutOk(L) && ViewOk(L, V)
    requires ReadUpTo(L, roi, s, V, zero, B, cur, y0, y1, x1, y2, x2)
    requires forall j, i :: 0 <= j < roi.height && 0 <= i < s ==>
      Done(i, j, y0, y1, x1, y2, x2) == Done(i, j, z0, z1, w1, z2, w2)
    ensures ReadUpTo(L, roi, s, V, zero, B, cur, z0, z1, w1, z2, w2)
  {
  }

  // The geometry of the walk of gegl_buffer_iterate over the roi: a band of
  // rows from bufy to the end of its tile row, and in it a block of columns
  // from bufx to the end of its tile column.

  /** bufy starts a band: it is row 0 or the first row of a tile. */
  ghost predicate BandStart(L: Layout, roi: Rect, bufy: int)
    requires LayoutOk(L)
  {
    0 <= bufy && (bufy == 0 || TileOffset(roi.y + L.shiftY + bufy, L.tileHeight) == 0)
  }

  /** bufx starts a block: it is column 0 or the first column of a tile. */
  ghost predicate BlockStart(L: Layout, roi: Rect, bufx: int)
    requires LayoutOk(L)
  {
    0 <= bufx && (bufx == 0 || TileOffset(roi.x + L.shiftX + bufx, L.tileWidth) == 0)
  }

  /** bufy + (tile_height - offsety): where the band ends. */
  function BandEnd(L: Layout, roi: Rect, bufy: int): int
    requires LayoutOk(L)
  {
    bufy + L.tileHeight - TileOffset(roi.y + L.shiftY + bufy, L.tileHeight)
  }

  /** bufx + (tile_width - offsetx): where the block ends. */
  function BlockEnd(L: Layout, roi: Rect, bufx: int): int
    requires LayoutOk(L)
  {
    bufx + L.tileWidth - TileOffset(roi.x + L.shiftX + bufx, L.tileWidth)
  }

  /** The pixels of each row of the block that lie in the roi. */
  function Pixels(L: Layout, roi: Rect, bufx: int): int
    requires LayoutOk(L)
  {
    Min(roi.width - bufx, L.tileWidth - TileOffset(roi.x + L.shiftX + bufx, L.tileWidth))
  }

  /** The clamps of gegl_buffer_iterate: first raise v to 0, then lower it to hi. */
  function Clamp(v: int, hi: int): int
  {
    Min(Max(v, 0), hi)
  }

  /** lskip: the gap between the block's left side and the abyss. */
  function LSkip(L: Layout, roi: Rect, bufx: int): int
    requires LayoutOk(L)
  {
    Clamp(L.abyss.x + L.shiftX - (roi.x + L.shiftX + bufx), Pixels(L, roi, bufx))
  }

  /** rskip: the gap between the abyss and the block's right side. */
  function RSkip(L: Layout, roi: Rect, bufx: int): int
    requires LayoutOk(L)
  {
    Clamp(roi.x + L.shiftX + bufx + Pixels(L, roi, bufx) - (L.abyss.x + L.shiftX + L.abyss.width), Pixels(L, roi, bufx))
  }

  /** Roi row y lies inside the abyss rows. */
  predicate RowIn(L: Layout, roi: Rect, y: int)
  {
    L.abyss.y + L.shiftY <= roi.y + L.shiftY + y < L.abyss.y + L.shiftY + L.abyss.height
  }

  /** The tile of the block. */
  function BlockKey(L: Layout, roi: Rect, bufy: int, bufx: int): TileKey
    requires LayoutOk(L)
  {
    KeyAt(roi.x + L.shiftX + bufx, roi.y + L.shiftY + bufy, L.tileWidth, L.tileHeight)
  }

  /** The offset in the tile of the block's first pixel in roi row y. */
  function TileOff(L: Layout, roi: Rect, bufy: int, bufx: int, y: int): int
    requires LayoutOk(L)
  {
    (TileOffset(roi.y + L.shiftY + bufy, L.tileHeight) + (y - bufy)) * L.tileWidth
      + TileOffset(roi.x + L.shiftX + bufx, L.tileWidth)
  }

  /** The setting of one block of the walk: a band not skipped, a block in it. */
  ghost predicate InBlock(L: Layout, roi: Rect, s: int, bufy: int, bufx: int)
  {
    && LayoutOk(L) && s >= roi.width
    && BandStart(L, roi, bufy) && bufy < roi.height && !BandSkipped(L, roi, bufy)
    && BlockStart(L, roi, bufx) && bufx < roi.width
  }

  /** Row y is a row of the band that the roi covers. */
  ghost predicate InBand(L: Layout, roi: Rect, bufy: int, y: int)
    requires LayoutOk(L)
  {
    bufy <= y < BandEnd(L, roi, bufy) && y < roi.height
  }

  /** The row geometry of a band: its rows share its start, so they share
      its abyss test and its tile row. */
  lemma BandRow(L: Layout, roi: Rect, bufy: int, y: int)
    requires LayoutOk(L) && BandStart(L, roi, bufy) && bufy <= y < BandEnd(L, roi, bufy)
    ensures BandSkipped(L, roi, y) == BandSkipped(L, roi, bufy)
    ensures TileIndex(roi.y + L.shiftY + y, L.tileHeight) == TileIndex(roi.y + L.shiftY + bufy, L.tileHeight)
    ensures TileOffset(roi.y + L.shiftY + y, L.tileHeight) == TileOffset(roi.y + L.shiftY + bufy, L.tileHeight) + (y - bufy)
  {
    RunFacts(roi.y + L.shiftY, bufy, y, L.tileHeight);
    RunFacts(roi.y + L.shiftY, bufy, bufy, L.tileHeight);
  }

  /** The column geometry of a block. */
  lemma BlockColumn(L: Layout, roi: Rect, bufx: int, x: int)
    requires LayoutOk(L) && BlockStart(L, roi, bufx) && bufx <= x < BlockEnd(L, roi, bufx)
    ensures BlockSkipped(L, roi, x) == BlockSkipped(L, roi, bufx)
    ensures TileIndex(roi.x + L.shiftX + x, L.tileWidth) == TileIndex(roi.x + L.shiftX + bufx, L.tileWidth)
    ensures TileOffset(roi.x + L.shiftX + x, L.tileWidth) == TileOffset(roi.x + L.shiftX + bufx, L.tileWidth) + (x - bufx)
  {
    RunFacts(roi.x + L.shiftX, bufx, x, L.tileWidth);
    RunFacts(roi.x + L.shiftX, bufx, bufx, L.tileWidth);
  }

  /** The facts about a block's numbers the methods need: the pixels fit
      the block and the roi, lskip and rskip lie in [0, pixels], and the
      row offsets stay inside the tile. */
  lemma BlockBounds(L: Layout, roi: Rect, s: int, bufy: int, bufx: int, y: int)
    requires InBlock(L, roi, s, bufy, bufx) && InBand(L, roi, bufy, y)
    ensures 0 < Pixels(L, roi, bufx) && bufx + Pixels(L, roi, bufx) <= roi.width
    ensures bufx + Pixels(L, roi, bufx) <= BlockEnd(L, roi, bufx)
    ensures 0 <= LSkip(L, roi, bufx) <= Pixels(L, roi, bufx) && 0 <= RSkip(L, roi, bufx) <= Pixels(L, roi, bufx)
    ensures 0 <= TileOff(L, roi, bufy, bufx, y)
    ensures TileOff(L, roi, bufy, bufx, y) + Pixels(L, roi, bufx) <= L.tileWidth * L.tileHeight
  {
    Decompose(roi.x + L.shiftX + bufx, L.tileWidth);
    RowOffBounds(L, roi, bufy, bufx, y);
  }

  lemma RowOffBounds(L: Layout, roi: Rect, bufy: int, bufx: int, y: int)
    requires LayoutOk(L) && InBand(L, roi, bufy, y)
    ensures 0 <= TileOff(L, roi, bufy, bufx, y)
    ensures TileOff(L, roi, bufy, bufx, y) + L.tileWidth - TileOffset(roi.x + L.shiftX + bufx, L.tileWidth)
            <= L.tileWidth * L.tileHeight
  {
    var tw, th := L.tileWidth, L.tileHeight;
    var offx := TileOffset(roi.x + L.shiftX + bufx, tw);
    var offy := TileOffset(roi.y + L.shiftY + bufy, th);
    Decompose(roi.x + L.shiftX + bufx, tw);
    Decompose(roi.y + L.shiftY + bufy, th);
    var row := offy + (y - bufy);
    assert 0 <= row < th;
    MulLe(row + 1, th, tw);
    assert 0 <= row * tw;
    assert TileOff(L, roi, bufy, bufx, y) == row * tw + offx;
    assert (row + 1) * tw == row * tw + tw;
  }

  lemma RowsBelow(s: int, y: int, h: int)
    requires 0 <= y < h && s >= 0
    ensures 0 <= y * s && y * s + s <= h * s
  {
    MulLe(y + 1, h, if s == 0 then 1 else s);
  }

  /** One zeroed row of a band wholly in the abyss. */
  lemma SkippedBandRowStep(L: Layout, roi: Rect, s: int, V: View, zero: Pixel, B: seq<Pixel>,
                           cur: seq<Pixel>, cur2: seq<Pixel>, bufy: int, y: int)
    requires LayoutOk(L) && ViewOk(L, V) && s >= roi.width >= 0
    requires BandStart(L, roi, bufy) && InBand(L, roi, bufy, y) && BandSkipped(L, roi, bufy)
    requires ReadUpTo(L, roi, s, V, zero, B, cur, bufy, y, s, bufy, 0)
    requires |cur2| == |cur|
    requires forall j2, i2 :: 0 <= i2 < s ==>
      At(cur2, s, i2, j2) == if j2 == y && 0 <= i2 < s then zero else At(cur, s, i2, j2)
    requires forall m :: 0 <= m < |cur| && !(y * s + 0 <= m < y * s + 0 + s) ==> cur2[m] == cur[m]
    ensures ReadUpTo(L, roi, s, V, zero, B, cur2, bufy, y + 1, s, bufy, 0)
  {
    BandRow(L, roi, bufy, y);
    RowsBelow(s, y, roi.height);
  }

  /** The progress step of one row of one block: the row's cells in columns
      a .. a+n-1 now hold the read result, and its cells from a+n up to the
      block's end x2 (past the roi width) read as the old contents. */
  lemma BlockRowStep(L: Layout, roi: Rect, s: int, V: View, zero: Pixel, B: seq<Pixel>,
                     cur: seq<Pixel>, cur2: seq<Pixel>, y0: int, y1: int, y: int, a: int, n: int, x2: int)
    requires LayoutOk(L) && ViewOk(L, V) && roi.height * s <= |cur|
    requires y0 <= y < y1 && 0 <= y < roi.height && 0 <= a && 0 <= n && a + n <= s && a + n <= x2
    requires ReadUpTo(L, roi, s, V, zero, B, cur, y0, y1, a, y, x2)
    requires |cur2| == |cur|
    requires forall i :: a <= i < x2 && i < s ==>
      if i < a + n then At(cur2, s, i, y) == ReadAt(L, roi, s, V, zero, B, i, y)
      else ReadAt(L, roi, s, V, zero, B, i, y) == At(B, s, i, y)
    requires forall j2, i2 :: 0 <= i2 < s && !(j2 == y && a <= i2 < a + n) ==> At(cur2, s, i2, j2) == At(cur, s, i2, j2)
    requires forall m :: 0 <= m < |cur| && !(y * s + a <= m < y * s + a + n) ==> cur2[m] == cur[m]
    ensures ReadUpTo(L, roi, s, V, zero, B, cur2, y0, y1, a, y + 1, x2)
  {
    RowsBelow(s, y, roi.height);
    forall j, i | 0 <= j < roi.height && 0 <= i < s
      ensures At(cur2, s, i, j) == if Done(i, j, y0, y1, a, y + 1, x2) then ReadAt(L, roi, s, V, zero, B, i, j) else At(B, s, i, j)
    {
      if j == y && a <= i < x2 {
        assert Done(i, j, y0, y1, a, y + 1, x2);
        if i >= a + n {
          assert At(cur2, s, i, j) == At(cur, s, i, j);
          assert !Done(i, j, y0, y1, a, y, x2);
        }
      } else {
        assert At(cur2, s, i, j) == At(cur, s, i, j);
        assert Done(i, j, y0, y1, a, y + 1, x2) == Done(i, j, y0, y1, a, y, x2);
      }
    }
  }

  /** A cell of a skipped block reads as zero; one past the roi width reads
      as the old contents. */
  lemma SkippedCell(L: Layout, roi: Rect, s: int, V: View, zero: Pixel, B: seq<Pixel>,
                    bufy: int, bufx: int, y: int, i: int)
    requires InBlock(L, roi, s, bufy, bufx) && ViewOk(L, V) && InBand(L, roi, bufy, y)
    requires BlockSkipped(L, roi, bufx) && bufx <= i < BlockEnd(L, roi, bufx)
    ensures if i < bufx + Pixels(L, roi, bufx) then ReadAt(L, roi, s, V, zero, B, i, y) == zero
            else ReadAt(L, roi, s, V, zero, B, i, y) == At(B, s, i, y)
  {
    BandRow(L, roi, bufy, y);
    BlockColumn(L, roi, bufx, i);
  }

  /** One zeroed row of a tile column wholly in the abyss. */
  lemma SkippedBlockRowStep(L: Layout, roi: Rect, s: int, V: View, zero: Pixel, B: seq<Pixel>,
                            cur: seq<Pixel>, cur2: seq<Pixel>, bufy: int, bufx: int, y: int)
    requires InBlock(L, roi, s, bufy, bufx) && ViewOk(L, V) && InBand(L, roi, bufy, y)
    requires BlockSkipped(L, roi, bufx) && roi.height * s <= |cur|
    requires ReadUpTo(L, roi, s, V, zero, B, cur, bufy, BandEnd(L, roi, bufy), bufx, y, BlockEnd(L, roi, bufx))
    requires |cur2| == |cur|
    requires forall j2, i2 :: 0 <= i2 < s ==>
      At(cur2, s, i2, j2) == if j2 == y && bufx <= i2 < bufx + Pixels(L, roi, bufx) then zero else At(cur, s, i2, j2)
    requires forall m :: 0 <= m < |cur| && !(y * s + bufx <= m < y * s + bufx + Pixels(L, roi, bufx)) ==> cur2[m] == cur[m]
    ensures ReadUpTo(L, roi, s, V, zero, B, cur2, bufy, BandEnd(L, roi, bufy), bufx, y + 1, BlockEnd(L, roi, bufx))
  {
    BlockBounds(L, roi, s, bufy, bufx, y);
    var x2 := BlockEnd(L, roi, bufx);
    forall i | bufx <= i < x2 && i < s
      ensures if i < bufx + Pixels(L, roi, bufx) then At(cur2, s, i, y) == ReadAt(L, roi, s, V, zero, B, i, y)
              else ReadAt(L, roi, s, V, zero, B, i, y) == At(B, s, i, y)
    {
      SkippedCell(L, roi, s, V, zero, B, bufy, bufx, y, i);
    }
    BlockRowStep(L, roi, s, V, zero, B, cur, cur2, bufy, BandEnd(L, roi, bufy), y, bufx, Pixels(L, roi, bufx), x2);
  }

  /** What the read loop leaves in roi row y for the block at bufx. */
  function BlockRowRead(L: Layout, roi: Rect, V: View, zero: Pixel, bufy: int, bufx: int, y: int): seq<Pixel>
    requires LayoutOk(L) && ViewOk(L, V) && BlockKey(L, roi, bufy, bufx) in V
    requires 0 <= TileOff(L, roi, bufy, bufx, y) && 0 <= Pixels(L, roi, bufx)
    requires TileOff(L, roi, bufy, bufx, y) + Pixels(L, roi, bufx) <= L.tileWidth * L.tileHeight
  {
    RowRead(V[BlockKey(L, roi, bufy, bufx)], TileOff(L, roi, bufy, bufx, y), Pixels(L, roi, bufx),
            LSkip(L, roi, bufx), RSkip(L, roi, bufx), RowIn(L, roi, y), zero)
  }

  /** The cell of column i in row y of a present tile: the abyss test of
      ReadAt is the lskip / rskip window, and its tile offset is the row's
      offset plus (i - bufx). */
  lemma TileRowCell(L: Layout, roi: Rect, s: int, V: View, zero: Pixel, B: seq<Pixel>,
                    bufy: int, bufx: int, y: int, i: int)
    requires InBlock(L, roi, s, bufy, bufx) && ViewOk(L, V) && InBand(L, roi, bufy, y)
    requires !BlockSkipped(L, roi, bufx) && BlockKey(L, roi, bufy, bufx) in V
    requires bufx <= i < BlockEnd(L, roi, bufx)
    ensures 0 <= TileOff(L, roi, bufy, bufx, y) && 0 <= Pixels(L, roi, bufx)
    ensures TileOff(L, roi, bufy, bufx, y) + Pixels(L, roi, bufx) <= L.tileWidth * L.tileHeight
    ensures if i < bufx + Pixels(L, roi, bufx) then
              ReadAt(L, roi, s, V, zero, B, i, y) == BlockRowRead(L, roi, V, zero, bufy, bufx, y)[i - bufx]
            else ReadAt(L, roi, s, V, zero, B, i, y) == At(B, s, i, y)
  {
    BlockBounds(L, roi, s, bufy, bufx, y);
    var tw, th := L.tileWidth, L.tileHeight;
    var c, r := roi.x + L.shiftX + i, roi.y + L.shiftY + y;
    assert KeyAt(c, r, tw, th) == BlockKey(L, roi, bufy, bufx) &&
           OffsetAt(c, r, tw, th) == TileOff(L, roi, bufy, bufx, y) + i - bufx by {
      BandRow(L, roi, bufy, y);
      BlockColumn(L, roi, bufx, i);
    }
  }

  /** One row of a present tile: the cells whose column the lskip / rskip
      clamps leave, in a row inside the abyss, take the tile's pixels;
      the rest of the row's cells in this tile become zeros. */
  lemma TileRowStep(L: Layout, roi: Rect, s: int, V: View, zero: Pixel, B: seq<Pixel>,
                    cur: seq<Pixel>, cur2: seq<Pixel>, bufy: int, bufx: int, y: int)
    requires InBlock(L, roi, s, bufy, bufx) && ViewOk(L, V) && InBand(L, roi, bufy, y)
    requires !BlockSkipped(L, roi, bufx) && BlockKey(L, roi, bufy, bufx) in V && roi.height * s <= |cur|
    requires 0 <= TileOff(L, roi, bufy, bufx, y) && 0 <= Pixels(L, roi, bufx)
    requires TileOff(L, roi, bufy, bufx, y) + Pixels(L, roi, bufx) <= L.tileWidth * L.tileHeight
    requires ReadUpTo(L, roi, s, V, zero, B, cur, bufy, BandEnd(L, roi, bufy), bufx, y, BlockEnd(L, roi, bufx))
    requires |cur2| == |cur|
    requires forall j2, i2 :: 0 <= i2 < s ==>
      At(cur2, s, i2, j2) == if j2 == y && bufx <= i2 < bufx + Pixels(L, roi, bufx) then
        BlockRowRead(L, roi, V, zero, bufy, bufx, y)[i2 - bufx]
      else At(cur, s, i2, j2)
    requires forall m :: 0 <= m < |cur| && !(y * s + bufx <= m < y * s + bufx + Pixels(L, roi, bufx)) ==> cur2[m] == cur[m]
    ensures ReadUpTo(L, roi, s, V, zero, B, cur2, bufy, BandEnd(L, roi, bufy), bufx, y + 1, BlockEnd(L, roi, bufx))
  {
    BlockBounds(L, roi, s, bufy, bufx, y);
    var x2 := BlockEnd(L, roi, bufx);
    forall i | bufx <= i < x2 && i < s
      ensures if i < bufx + Pixels(L, roi, bufx) then At(cur2, s, i, y) == ReadAt(L, roi, s, V, zero, B, i, y)
              else ReadAt(L, roi, s, V, zero, B, i, y) == At(B, s, i, y)
    {
      TileRowCell(L, roi, s, V, zero, B, bufy, bufx, y, i);
    }
    BlockRowStep(L, roi, s, V, zero, B, cur, cur2, bufy, BandEnd(L, roi, bufy), y, bufx, Pixels(L, roi, bufx), x2);
  }

  /** A missing tile leaves its cells as they were. */
  lemma MissingTileStep(L: Layout, roi: Rect, s: int, V: View, zero: Pixel, B: seq<Pixel>,
                        cur: seq<Pixel>, bufy: int, bufx: int)
    requires InBlock(L, roi, s, bufy, bufx) && ViewOk(L, V)
    requires !BlockSkipped(L, roi, bufx) && BlockKey(L, roi, bufy, bufx) !in V
    requires ReadUpTo(L, roi, s, V, zero, B, cur, bufy, BandEnd(L, roi, bufy), bufx, bufy, bufx)
    ensures ReadUpTo(L, roi, s, V, zero, B, cur, bufy, BandEnd(L, roi, bufy), BlockEnd(L, roi, bufx), bufy, bufx)
  {
    var y1, x2 := BandEnd(L, roi, bufy), BlockEnd(L, roi, bufx);
    forall j, i | 0 <= j < roi.height && 0 <= i < s && bufy <= j < y1 && bufx <= i < x2
      ensures ReadAt(L, roi, s, V, zero, B, i, j) == At(B, s, i, j)
    {
      BandRow(L, roi, bufy, j);
      BlockColumn(L, roi, bufx, i);
    }
  }

  /** The end of a band whose blocks were all visited: padding past the roi
      width is left as it was, so every cell of the band is done. */
  lemma BandFinish(L: Layout, roi: Rect, s: int, V: View, zero: Pixel, B: seq<Pixel>,
                   cur: seq<Pixel>, bufy: int, bufx: int)
    requires LayoutOk(L) && ViewOk(L, V) && s >= roi.width && bufx >= roi.width
    requires BandStart(L, roi, bufy) && !BandSkipped(L, roi, bufy)
    requires ReadUpTo(L, roi, s, V, zero, B, cur, bufy, BandEnd(L, roi, bufy), bufx, bufy, bufx)
    ensures ReadUpTo(L, roi, s, V, zero, B, cur, BandEnd(L, roi, bufy), 0, 0, 0, 0)
  {
    var y1 := BandEnd(L, roi, bufy);
    forall j, i | 0 <= j < roi.height && 0 <= i < s && bufy <= j < y1 && bufx <= i
      ensures ReadAt(L, roi, s, V, zero, B, i, j) == At(B, s, i, j)
    {
      BandRow(L, roi, bufy, j);
    }
  }

  // ---------------------------------------------------------------------
  // gegl_buffer_iterate writing: which tile pixels the caller's buffer
  // reaches, and what the tiles hold afterwards

  /** The roi column of offset p of tile k. */
  function CellI(L: Layout, roi: Rect, k: TileKey, p: int): int
    requires LayoutOk(L)
  {
    ColumnOf(k, p, L.tileWidth) - (roi.x + L.shiftX)
  }

  /** The roi row of offset p of tile k. */
  function CellJ(L: Layout, roi: Rect, k: TileKey, p: int): int
    requires LayoutOk(L)
  {
    RowOf(k, p, L.tileWidth, L.tileHeight) - (roi.y + L.shiftY)
  }

  /** Offset p of level-0 tile k holds a pixel of the roi that lies inside
      the abyss: a write stores the caller's pixel there. */
  predicate Written(L: Layout, roi: Rect, k: TileKey, p: int)
    requires LayoutOk(L)
  {
    && k.z == 0
    && 0 <= CellI(L, roi, k, p) < roi.width && 0 <= CellJ(L, roi, k, p) < roi.height
    && AbyssHas(L, ColumnOf(k, p, L.tileWidth), RowOf(k, p, L.tileWidth, L.tileHeight))
  }

  /** The contents t of tile k after the write of the roi from B. */
  function TileAfterWrite(L: Layout, roi: Rect, s: int, B: seq<Pixel>, k: TileKey, t: seq<Pixel>): (r: seq<Pixel>)
    requires LayoutOk(L)
    ensures |r| == |t|
    ensures forall p :: 0 <= p < |t| ==>
      r[p] == if Written(L, roi, k, p) then At(B, s, CellI(L, roi, k, p), CellJ(L, roi, k, p)) else t[p]
  {
    seq(|t|, p requires 0 <= p < |t| =>
      if Written(L, roi, k, p) then At(B, s, CellI(L, roi, k, p), CellJ(L, roi, k, p)) else t[p])
  }

  /** Every tile after gegl_buffer_iterate wrote the roi from B. */
  ghost function WriteView(L: Layout, roi: Rect, s: int, V: View, B: seq<Pixel>): (W: View)
    requires LayoutOk(L) && ViewOk(L, V)
    ensures ViewOk(L, W) && W.Keys == V.Keys
    ensures forall k :: k in V ==> W[k] == TileAfterWrite(L, roi, s, B, k, V[k])
  {
    map k | k in V :: TileAfterWrite(L, roi, s, B, k, V[k])
  }

  /** The tiles W hold the write on the visited cells and the old contents
      V0 everywhere else. */
  ghost predicate WriteUpTo(L: Layout, roi: Rect, s: int, V0: View, B: seq<Pixel>, W: View,
                            y0: int, y1: int, x1: int, y2: int, x2: int)
    requires LayoutOk(L) && ViewOk(L, V0)
  {
    && W.Keys == V0.Keys && ViewOk(L, W)
    && forall k, p :: k in V0 && 0 <= p < L.tileWidth * L.tileHeight ==>
         W[k][p] == if Written(L, roi, k, p) && Done(CellI(L, roi, k, p), CellJ(L, roi, k, p), y0, y1, x1, y2, x2)
                    then At(B, s, CellI(L, roi, k, p), CellJ(L, roi, k, p)) else V0[k][p]
  }

  /** Two descriptions of progress that agree on every written pixel. */
  lemma WriteDoneEquiv(L: Layout, roi: Rect, s: int, V0: View, B: seq<Pixel>, W: View,
                       y0: int, y1: int, x1: int, y2: int, x2: int,
                       z0: int, z1: int, w1: int, z2: int, w2: int)
    requires LayoutOk(L) && ViewOk(L, V0)
    requires WriteUpTo(L, roi, s, V0, B, W, y0, y1, x1, y2, x2)
    requires forall k, p :: k in V0 && 0 <= p < L.tileWidth * L.tileHeight && Written(L, roi, k, p) ==>
      Done(CellI(L, roi, k, p), CellJ(L, roi, k, p), y0, y1, x1, y2, x2) ==
      Done(CellI(L, roi, k, p), CellJ(L, roi, k, p), z0, z1, w1, z2, w2)
    ensures WriteUpTo(L, roi, s, V0, B, W, z0, z1, w1, z2, w2)
  {
  }

  /** The next block starts at a tile boundary, right of this one. */
  lemma NextBlock(L: Layout, roi: Rect, bufx: int)
    requires LayoutOk(L) && BlockStart(L, roi, bufx)
    ensures BlockStart(L, roi, BlockEnd(L, roi, bufx)) && BlockEnd(L, roi, bufx) > bufx
  {
    NextTileStart(roi.x + L.shiftX + bufx, L.tileWidth);
    Decompose(roi.x + L.shiftX + bufx, L.tileWidth);
  }

  /** The next band starts at a tile boundary, below this one. */
  lemma NextBand(L: Layout, roi: Rect, bufy: int)
    requires LayoutOk(L) && BandStart(L, roi, bufy)
    ensures BandStart(L, roi, BandEnd(L, roi, bufy)) && BandEnd(L, roi, bufy) > bufy
  {
    NextTileStart(roi.y + L.shiftY + bufy, L.tileHeight);
    Decompose(roi.y + L.shiftY + bufy, L.tileHeight);
  }

  /** The walk enters a band: no pixel of it is done yet. */
  lemma WriteBandBegin(L: Layout, roi: Rect, s: int, V0: View, B: seq<Pixel>, W: View, bufy: int)
    requires LayoutOk(L) && ViewOk(L, V0)
    requires WriteUpTo(L, roi, s, V0, B, W, bufy, 0, 0, 0, 0)
    ensures WriteUpTo(L, roi, s, V0, B, W, bufy, BandEnd(L, roi, bufy), 0, bufy, 0)
  {
    WriteDoneEquiv(L, roi, s, V0, B, W, bufy, 0, 0, 0, 0, bufy, BandEnd(L, roi, bufy), 0, bufy, 0);
  }

  /** The walk enters a block: no pixel of it is done yet. */
  lemma WriteBlockBegin(L: Layout, roi: Rect, s: int, V0: View, B: seq<Pixel>, W: View, bufy: int, bufx: int)
    requires LayoutOk(L) && ViewOk(L, V0)
    requires WriteUpTo(L, roi, s, V0, B, W, bufy, BandEnd(L, roi, bufy), bufx, bufy, bufx)
    ensures WriteUpTo(L, roi, s, V0, B, W, bufy, BandEnd(L, roi, bufy), bufx, bufy, BlockEnd(L, roi, bufx))
  {
    WriteDoneEquiv(L, roi, s, V0, B, W, bufy, BandEnd(L, roi, bufy), bufx, bufy, bufx,
                   bufy, BandEnd(L, roi, bufy), bufx, bufy, BlockEnd(L, roi, bufx));
  }

  /** The rows of a block are done once y reaches the band's end or the
      roi's height. */
  lemma WriteBlockEnd(L: Layout, roi: Rect, s: int, V0: View, B: seq<Pixel>, W: View, bufy: int, bufx: int, y: int)
    requires LayoutOk(L) && ViewOk(L, V0) && y <= BandEnd(L, roi, bufy)
    requires y == BandEnd(L, roi, bufy) || y >= roi.height
    requires WriteUpTo(L, roi, s, V0, B, W, bufy, BandEnd(L, roi, bufy), bufx, y, BlockEnd(L, roi, bufx))
    ensures WriteUpTo(L, roi, s, V0, B, W, bufy, BandEnd(L, roi, bufy), BlockEnd(L, roi, bufx), bufy, bufx)
  {
    WriteDoneEquiv(L, roi, s, V0, B, W, bufy, BandEnd(L, roi, bufy), bufx, y, BlockEnd(L, roi, bufx),
                   bufy, BandEnd(L, roi, bufy), BlockEnd(L, roi, bufx), bufy, bufx);
  }

  /** The walk steps to the next block. */
  lemma WriteNextBlock(L: Layout, roi: Rect, s: int, V0: View, B: seq<Pixel>, W: View, bufy: int, x: int, x0: int)
    requires LayoutOk(L) && ViewOk(L, V0)
    requires WriteUpTo(L, roi, s, V0, B, W, bufy, BandEnd(L, roi, bufy), x, bufy, x0)
    ensures WriteUpTo(L, roi, s, V0, B, W, bufy, BandEnd(L, roi, bufy), x, bufy, x)
  {
    WriteDoneEquiv(L, roi, s, V0, B, W, bufy, BandEnd(L, roi, bufy), x, bufy, x0,
                   bufy, BandEnd(L, roi, bufy), x, bufy, x);
  }

  /** A roi pixel inside the abyss is in no band and no block that the
      conservative tests skip. */
  lemma InAbyssNotSkipped(L: Layout, roi: Rect, i: int, j: int)
    requires LayoutOk(L) && 0 <= i && 0 <= j && AbyssHas(L, roi.x + L.shiftX + i, roi.y + L.shiftY + j)
    ensures !BandSkipped(L, roi, j) && !BlockSkipped(L, roi, i)
  {
    Decompose(roi.y + L.shiftY + j, L.tileHeight);
    Decompose(roi.x + L.shiftX + i, L.tileWidth);
  }

  /** Cell (i, y) of a block: its tile is the block's and its offset is the
      row's offset plus (i - bufx). */
  lemma CellOfBlock(L: Layout, roi: Rect, s: int, bufy: int, bufx: int, y: int, i: int)
    requires InBlock(L, roi, s, bufy, bufx) && InBand(L, roi, bufy, y) && bufx <= i < BlockEnd(L, roi, bufx)
    ensures KeyAt(roi.x + L.shiftX + i, roi.y + L.shiftY + y, L.tileWidth, L.tileHeight) == BlockKey(L, roi, bufy, bufx)
    ensures OffsetAt(roi.x + L.shiftX + i, roi.y + L.shiftY + y, L.tileWidth, L.tileHeight)
            == TileOff(L, roi, bufy, bufx, y) + (i - bufx)
  {
    BandRow(L, roi, bufy, y);
    BlockColumn(L, roi, bufx, i);
  }

  /** The tile pixels of one block row are exactly the offsets from the
      row's offset to the end of the tile row, in the block's tile. */
  lemma SegmentCells(L: Layout, roi: Rect, s: int, bufy: int, bufx: int, y: int, k: TileKey, p: int)
    requires InBlock(L, roi, s, bufy, bufx) && InBand(L, roi, bufy, y)
    requires k.z == 0 && 0 <= p < L.tileWidth * L.tileHeight
    ensures (CellJ(L, roi, k, p) == y && bufx <= CellI(L, roi, k, p) < BlockEnd(L, roi, bufx)) <==>
            (k == BlockKey(L, roi, bufy, bufx) &&
             TileOff(L, roi, bufy, bufx, y) <= p < TileOff(L, roi, bufy, bufx, y) + BlockEnd(L, roi, bufx) - bufx)
    ensures k == BlockKey(L, roi, bufy, bufx) &&
            TileOff(L, roi, bufy, bufx, y) <= p < TileOff(L, roi, bufy, bufx, y) + BlockEnd(L, roi, bufx) - bufx ==>
            CellJ(L, roi, k, p) == y && CellI(L, roi, k, p) == bufx + (p - TileOff(L, roi, bufy, bufx, y))
  {
    var tw, th := L.tileWidth, L.tileHeight;
    var ox, oy := roi.x + L.shiftX, roi.y + L.shiftY;
    var toff, x2 := TileOff(L, roi, bufy, bufx, y), BlockEnd(L, roi, bufx);
    GridRoundTripBack(k, p, tw, th);
    var i := CellI(L, roi, k, p);
    if CellJ(L, roi, k, p) == y && bufx <= i < x2 {
      CellOfBlock(L, roi, s, bufy, bufx, y, i);
    }
    if k == BlockKey(L, roi, bufy, bufx) && toff <= p < toff + x2 - bufx {
      var i2 := bufx + (p - toff);
      CellOfBlock(L, roi, s, bufy, bufx, y, i2);
      GridRoundTrip(ox + i2, oy + y, tw, th);
    }
  }

  /** Inside a block row, the abyss test is the lskip / rskip window. */
  lemma WindowIff(L: Layout, roi: Rect, s: int, bufy: int, bufx: int, y: int, i: int)
    requires InBlock(L, roi, s, bufy, bufx) && bufx <= i < bufx + Pixels(L, roi, bufx)
    ensures AbyssHas(L, roi.x + L.shiftX + i, roi.y + L.shiftY + y) <==>
            RowIn(L, roi, y) && LSkip(L, roi, bufx) <= i - bufx < Pixels(L, roi, bufx) - RSkip(L, roi, bufx)
  {
  }

  /** lskip and rskip never overlap when the abyss has a width. */
  lemma SkipsFit(L: Layout, roi: Rect, bufx: int)
    requires LayoutOk(L)
    ensures LSkip(L, roi, bufx) + RSkip(L, roi, bufx) <= Pixels(L, roi, bufx) || Pixels(L, roi, bufx) < 0
  {
  }

  /** Tile t2 is tile t after row y of the block was stored: when the row
      is inside the abyss, the window between lskip and rskip holds the
      caller's pixels of that row. */
  ghost predicate RowStored(L: Layout, roi: Rect, s: int, B: seq<Pixel>, t: seq<Pixel>, t2: seq<Pixel>,
                            bufy: int, bufx: int, y: int)
    requires LayoutOk(L)
  {
    && |t2| == |t|
    && forall p :: 0 <= p < |t| ==>
         t2[p] == if RowIn(L, roi, y) && TileOff(L, roi, bufy, bufx, y) + LSkip(L, roi, bufx) <= p
                                      < TileOff(L, roi, bufy, bufx, y) + Pixels(L, roi, bufx) - RSkip(L, roi, bufx)
                  then At(B, s, bufx + (p - TileOff(L, roi, bufy, bufx, y)), y) else t[p]
  }

  /** The memcpy of a block row, done when the row lies inside the abyss,
      leaves the tile as RowStored says. */
  lemma StoredRow(L: Layout, roi: Rect, s: int, B: seq<Pixel>, t: seq<Pixel>, t2: seq<Pixel>,
                  bufy: int, bufx: int, y: int, rowIn: bool)
    requires InBlock(L, roi, s, bufy, bufx) && InBand(L, roi, bufy, y) && roi.height * s <= |B|
    requires rowIn == RowIn(L, roi, y) && |t2| == |t|
    requires 0 <= LSkip(L, roi, bufx) && 0 <= RSkip(L, roi, bufx) && 0 <= y * s
    requires y * s + bufx + Pixels(L, roi, bufx) <= |B|
    requires var a := TileOff(L, roi, bufy, bufx, y) + LSkip(L, roi, bufx);
             var n := Pixels(L, roi, bufx) - LSkip(L, roi, bufx) - RSkip(L, roi, bufx);
             var b := y * s + bufx + LSkip(L, roi, bufx);
             rowIn ==> forall q :: 0 <= q < |t| ==> t2[q] == if a <= q < a + n then B[b + q - a] else t[q]
    requires !rowIn ==> t2 == t
    ensures RowStored(L, roi, s, B, t, t2, bufy, bufx, y)
  {
    BlockBounds(L, roi, s, bufy, bufx, y);
    RowsBelow(s, y, roi.height);
  }

  /** One pixel of the write of row y into the block's tile. */
  lemma WriteRowCell(L: Layout, roi: Rect, s: int, V0: View, B: seq<Pixel>, W: View, W2: View,
                     bufy: int, bufx: int, y: int, k2: TileKey, p: int)
    requires InBlock(L, roi, s, bufy, bufx) && ViewOk(L, V0) && InBand(L, roi, bufy, y) && roi.height * s <= |B|
    requires BlockKey(L, roi, bufy, bufx) in V0 && k2 in V0 && 0 <= p < L.tileWidth * L.tileHeight
    requires 0 <= TileOff(L, roi, bufy, bufx, y) && 0 <= LSkip(L, roi, bufx) && 0 <= RSkip(L, roi, bufx)
    requires LSkip(L, roi, bufx) + RSkip(L, roi, bufx) <= Pixels(L, roi, bufx)
    requires TileOff(L, roi, bufy, bufx, y) + Pixels(L, roi, bufx) <= L.tileWidth * L.tileHeight
    requires bufx + Pixels(L, roi, bufx) <= roi.width && bufx + Pixels(L, roi, bufx) <= BlockEnd(L, roi, bufx)
    requires WriteUpTo(L, roi, s, V0, B, W, bufy, BandEnd(L, roi, bufy), bufx, y, BlockEnd(L, roi, bufx))
    requires W2.Keys == W.Keys && ViewOk(L, W2)
    requires k2 != BlockKey(L, roi, bufy, bufx) ==> W2[k2] == W[k2]
    requires k2 == BlockKey(L, roi, bufy, bufx) ==> RowStored(L, roi, s, B, W[k2], W2[k2], bufy, bufx, y)
    ensures W2[k2][p] == if Written(L, roi, k2, p) && Done(CellI(L, roi, k2, p), CellJ(L, roi, k2, p),
                                                        bufy, BandEnd(L, roi, bufy), bufx, y + 1, BlockEnd(L, roi, bufx))
                         then At(B, s, CellI(L, roi, k2, p), CellJ(L, roi, k2, p)) else V0[k2][p]
  {
    RowsBelow(s, y, roi.height);
    var k, toff := BlockKey(L, roi, bufy, bufx), TileOff(L, roi, bufy, bufx, y);
    var x2, pixels := BlockEnd(L, roi, bufx), Pixels(L, roi, bufx);
    var i, j := CellI(L, roi, k2, p), CellJ(L, roi, k2, p);
    if k2.z == 0 {
      SegmentCells(L, roi, s, bufy, bufx, y, k2, p);
      if k2 == k && toff <= p < toff + x2 - bufx {
        if i < bufx + pixels {
          WindowIff(L, roi, s, bufy, bufx, y, i);
        }
      }
    }
  }

  /** The write of one row of a present tile. */
  lemma WriteRowStep(L: Layout, roi: Rect, s: int, V0: View, B: seq<Pixel>, W: View, W2: View,
                     bufy: int, bufx: int, y: int)
    requires InBlock(L, roi, s, bufy, bufx) && ViewOk(L, V0) && InBand(L, roi, bufy, y) && roi.height * s <= |B|
    requires BlockKey(L, roi, bufy, bufx) in V0
    requires 0 <= TileOff(L, roi, bufy, bufx, y) && 0 <= LSkip(L, roi, bufx) && 0 <= RSkip(L, roi, bufx)
    requires LSkip(L, roi, bufx) + RSkip(L, roi, bufx) <= Pixels(L, roi, bufx)
    requires TileOff(L, roi, bufy, bufx, y) + Pixels(L, roi, bufx) <= L.tileWidth * L.tileHeight
    requires bufx + Pixels(L, roi, bufx) <= roi.width && bufx + Pixels(L, roi, bufx) <= BlockEnd(L, roi, bufx)
    requires WriteUpTo(L, roi, s, V0, B, W, bufy, BandEnd(L, roi, bufy), bufx, y, BlockEnd(L, roi, bufx))
    requires W2.Keys == W.Keys && ViewOk(L, W2)
    requires forall k2 :: k2 in W && k2 != BlockKey(L, roi, bufy, bufx) ==> W2[k2] == W[k2]
    requires RowStored(L, roi, s, B, W[BlockKey(L, roi, bufy, bufx)], W2[BlockKey(L, roi, bufy, bufx)], bufy, bufx, y)
    ensures WriteUpTo(L, roi, s, V0, B, W2, bufy, BandEnd(L, roi, bufy), bufx, y + 1, BlockEnd(L, roi, bufx))
  {
    RowsBelow(s, y, roi.height);
    forall k2, p | k2 in V0 && 0 <= p < L.tileWidth * L.tileHeight
      ensures W2[k2][p] == if Written(L, roi, k2, p) && Done(CellI(L, roi, k2, p), CellJ(L, roi, k2, p),
                                                          bufy, BandEnd(L, roi, bufy), bufx, y + 1, BlockEnd(L, roi, bufx))
                           then At(B, s, CellI(L, roi, k2, p), CellJ(L, roi, k2, p)) else V0[k2][p]
    {
      WriteRowCell(L, roi, s, V0, B, W, W2, bufy, bufx, y, k2, p);
    }
  }

  /** A band wholly in the abyss holds no written pixel. */
  lemma WriteSkipBand(L: Layout, roi: Rect, s: int, V0: View, B: seq<Pixel>, W: View, bufy: int)
    requires LayoutOk(L) && ViewOk(L, V0) && BandStart(L, roi, bufy) && BandSkipped(L, roi, bufy)
    requires WriteUpTo(L, roi, s, V0, B, W, bufy, 0, 0, 0, 0)
    ensures WriteUpTo(L, roi, s, V0, B, W, BandEnd(L, roi, bufy), 0, 0, 0, 0)
  {
    forall k, p | k in V0 && 0 <= p < L.tileWidth * L.tileHeight && Written(L, roi, k, p)
      ensures Done(CellI(L, roi, k, p), CellJ(L, roi, k, p), bufy, 0, 0, 0, 0) ==
              Done(CellI(L, roi, k, p), CellJ(L, roi, k, p), BandEnd(L, roi, bufy), 0, 0, 0, 0)
    {
      var i, j := CellI(L, roi, k, p), CellJ(L, roi, k, p);
      if bufy <= j < BandEnd(L, roi, bufy) {
        InAbyssNotSkipped(L, roi, i, j);
        BandRow(L, roi, bufy, j);
        assert false;
      }
    }
    WriteDoneEquiv(L, roi, s, V0, B, W, bufy, 0, 0, 0, 0, BandEnd(L, roi, bufy), 0, 0, 0, 0);
  }

  /** A block wholly in the abyss, or one whose tile the source lacks,
      holds no written pixel of any tile present. */
  lemma WriteSkipBlock(L: Layout, roi: Rect, s: int, V0: View, B: seq<Pixel>, W: View, bufy: int, bufx: int)
    requires InBlock(L, roi, s, bufy, bufx) && ViewOk(L, V0)
    requires BlockSkipped(L, roi, bufx) || BlockKey(L, roi, bufy, bufx) !in V0
    requires WriteUpTo(L, roi, s, V0, B, W, bufy, BandEnd(L, roi, bufy), bufx, bufy, bufx)
    ensures WriteUpTo(L, roi, s, V0, B, W, bufy, BandEnd(L, roi, bufy), BlockEnd(L, roi, bufx), bufy, bufx)
  {
    var y1, x2 := BandEnd(L, roi, bufy), BlockEnd(L, roi, bufx);
    forall k, p | k in V0 && 0 <= p < L.tileWidth * L.tileHeight && Written(L, roi, k, p)
      ensures Done(CellI(L, roi, k, p), CellJ(L, roi, k, p), bufy, y1, bufx, bufy, bufx) ==
              Done(CellI(L, roi, k, p), CellJ(L, roi, k, p), bufy, y1, x2, bufy, bufx)
    {
      var i, j := CellI(L, roi, k, p), CellJ(L, roi, k, p);
      if bufy <= j < y1 && bufx <= i < x2 {
        InAbyssNotSkipped(L, roi, i, j);
        BlockColumn(L, roi, bufx, i);
        SegmentCells(L, roi, s, bufy, bufx, j, k, p);
        assert false;
      }
    }
    WriteDoneEquiv(L, roi, s, V0, B, W, bufy, y1, bufx, bufy, bufx, bufy, y1, x2, bufy, bufx);
  }

  /** Past the roi width nothing is written. */
  lemma WriteBandFinish(L: Layout, roi: Rect, s: int, V0: View, B: seq<Pixel>, W: View, bufy: int, bufx: int)
    requires LayoutOk(L) && ViewOk(L, V0) && bufx >= roi.width
    requires WriteUpTo(L, roi, s, V0, B, W, bufy, BandEnd(L, roi, bufy), bufx, bufy, bufx)
    ensures WriteUpTo(L, roi, s, V0, B, W, BandEnd(L, roi, bufy), 0, 0, 0, 0)
  {
    WriteDoneEquiv(L, roi, s, V0, B, W, bufy, BandEnd(L, roi, bufy), bufx, bufy, bufx,
                   BandEnd(L, roi, bufy), 0, 0, 0, 0);
  }

  /** After the last band every written pixel is done. */
  lemma WriteFinish(L: Layout, roi: Rect, s: int, V0: View, B: seq<Pixel>, W: View, bufy: int)
    requires LayoutOk(L) && ViewOk(L, V0) && bufy >= roi.height
    requires WriteUpTo(L, roi, s, V0, B, W, bufy, 0, 0, 0, 0)
    ensures W == WriteView(L, roi, s, V0, B)
  {
    var R := WriteView(L, roi, s, V0, B);
    forall k | k in V0 ensures W[k] == R[k] {
      assert |W[k]| == |R[k]|;
      forall p | 0 <= p < |W[k]| ensures W[k][p] == R[k][p] {
      }
    }
  }

  /** A write followed by a read of the same roi gives back the caller's
      pixels wherever the roi lies inside the abyss and the tile exists. */
  lemma SetThenGet(L: Layout, roi: Rect, s: int, V: View, B: seq<Pixel>, zero: Pixel, B2: seq<Pixel>, i: int, j: int)
    requires LayoutOk(L) && ViewOk(L, V) && 0 <= i < roi.width && 0 <= j < roi.height
    requires AbyssHas(L, roi.x + L.shiftX + i, roi.y + L.shiftY + j)
    requires KeyAt(roi.x + L.shiftX + i, roi.y + L.shiftY + j, L.tileWidth, L.tileHeight) in V
    ensures ReadAt(L, roi, s, WriteView(L, roi, s, V, B), zero, B2, i, j) == At(B, s, i, j)
  {
    var c, r := roi.x + L.shiftX + i, roi.y + L.shiftY + j;
    var k, off := KeyAt(c, r, L.tileWidth, L.tileHeight), OffsetAt(c, r, L.tileWidth, L.tileHeight);
    InAbyssNotSkipped(L, roi, i, j);
    OffsetInTile(c, r, L.tileWidth, L.tileHeight);
    GridRoundTrip(c, r, L.tileWidth, L.tileHeight);
    assert CellI(L, roi, k, off) == i && CellJ(L, roi, k, off) == j;
    assert Written(L, roi, k, off);
  }

  /** Writing back what a read of the roi produced changes no tile. */
  lemma GetThenSet(L: Layout, roi: Rect, s: int, V: View, zero: Pixel, B: seq<Pixel>, B2: seq<Pixel>)
    requires LayoutOk(L) && ViewOk(L, V) && s >= roi.width
    requires forall j, i :: 0 <= j < roi.height && 0 <= i < s ==> At(B2, s, i, j) == ReadAt(L, roi, s, V, zero, B, i, j)
    ensures WriteView(L, roi, s, V, B2) == V
  {
    var W := WriteView(L, roi, s, V, B2);
    forall k | k in V ensures W[k] == V[k] {
      forall p | 0 <= p < |V[k]| ensures W[k][p] == V[k][p] {
        if Written(L, roi, k, p) {
          var i, j := CellI(L, roi, k, p), CellJ(L, roi, k, p);
          var c, r := ColumnOf(k, p, L.tileWidth), RowOf(k, p, L.tileWidth, L.tileHeight);
          GridRoundTripBack(k, p, L.tileWidth, L.tileHeight);
          InAbyssNotSkipped(L, roi, i, j);
          assert c == roi.x + L.shiftX + i && r == roi.y + L.shiftY + j;
          assert ReadAt(L, roi, s, V, zero, B, i, j) == V[k][p];
        }
      }
    }
  }

  // ---------------------------------------------------------------------
  // The all-abyss band of a read, as written

  /** The rows of the band starting at roi row bufy that the roi covers. */
  function BandRows(L: Layout, roi: Rect, bufy: int): int
    requires LayoutOk(L)
  {
    Min(BandEnd(L, roi, bufy), roi.height) - bufy
  }

  /** Position m of the caller's buffer is among the n rowstrides of zeros
      that the as-written band skip lays down from bufy * width. */
  predicate ZeroedAsWritten(width: int, s: int, bufy: int, n: int, m: int)
  {
    bufy * width <= m < bufy * width + n * s
  }

  /** Row y of the as-written band skip: its memset of s cells from
      bufy * width + (y - bufy) * s stays in the buffer, and the next row
      starts s cells later. */
  lemma AsWrittenStep(width: int, s: int, bufy: int, y: int, height: int)
    requires 0 <= width <= s && 0 <= bufy <= y < height
    ensures 0 <= bufy * width + (y - bufy) * s
    ensures bufy * width + (y - bufy) * s + s <= height * s
    ensures (y + 1 - bufy) * s == (y - bufy) * s + s
  {
    MulLe(width, s, bufy + 1);
    RowsBelow(s, y, height);
    assert bufy * s + (y - bufy) * s == y * s;
  }

  /** With a rowstride wider than the roi and a skipped band that is not the
      first, the as-written zeros miss the last cell of the band's last row
      and overwrite a cell of an earlier row, which belongs to a band read
      before. */
  lemma SkipBandAsWrittenMisses(width: int, s: int, bufy: int, n: int)
    requires 0 <= width < s && bufy > 0 && n >= 1
    ensures !ZeroedAsWritten(width, s, bufy, n, (bufy + n - 1) * s + (s - 1))
    ensures ZeroedAsWritten(width, s, bufy, n, bufy * width) && bufy * width < bufy * s
  {
    MulLe(width + 1, s, bufy);
  }

  /** With the rowstride equal to the roi's width (GEGL_AUTO_ROWSTRIDE),
      the as-written band skip zeroes exactly the band's rows bufy ..
      bufy + n - 1, which is what SkipBand zeroes: the two agree. */
  lemma AsWrittenAtAutoRowstride(width: int, bufy: int, n: int, m: int)
    requires 0 <= width && 0 <= bufy && 0 <= n
    ensures ZeroedAsWritten(width, width, bufy, n, m) <==> bufy * width <= m < (bufy + n) * width
  {
    assert bufy * width + n * width == (bufy + n) * width;
  }

  // ---------------------------------------------------------------------
  // The 1x1 fast paths of gegl_buffer_set and gegl_buffer_get

  /** Writing a 1x1 roi in bulk does what the pixel path does: it replaces
      the one pixel when it lies inside the abyss and its tile exists, and
      changes nothing otherwise. So the fast path of gegl_buffer_set is an
      optimisation, not a change of meaning. */
  lemma PixelFastWrite(L: Layout, V: View, x: int, y: int, s: int, B: seq<Pixel>)
    requires LayoutOk(L) && ViewOk(L, V) && |B| >= 1
    ensures WriteView(L, Rect(x, y, 1, 1), s, V, B) == PixelWrite(L, V, x + L.shiftX, y + L.shiftY, B[0])
  {
    var roi := Rect(x, y, 1, 1);
    var tw, th := L.tileWidth, L.tileHeight;
    var c, r := x + L.shiftX, y + L.shiftY;
    var k0, off0 := KeyAt(c, r, tw, th), OffsetAt(c, r, tw, th);
    OffsetInTile(c, r, tw, th);
    GridRoundTrip(c, r, tw, th);
    var W, P := WriteView(L, roi, s, V, B), PixelWrite(L, V, c, r, B[0]);
    forall k | k in V ensures W[k] == P[k] {
      forall p | 0 <= p < |V[k]| ensures W[k][p] == P[k][p] {
        if Written(L, roi, k, p) {
          GridRoundTripBack(k, p, tw, th);
          assert ColumnOf(k, p, tw) == c && RowOf(k, p, tw, th) == r;
          assert k == k0 && p == off0;
        } else if AbyssHas(L, c, r) && k == k0 && p == off0 {
          assert Written(L, roi, k, p);
        }
      }
    }
  }

  /** Reading a 1x1 roi in bulk gives what the pixel path gives, with the
      caller's old pixel as the value a missing tile leaves, unless the pixel
      lies outside the abyss and its tile is missing: the pixel path then
      writes zeros, the bulk path may skip the missing tile. */
  lemma PixelFastRead(L: Layout, V: View, zero: Pixel, x: int, y: int, s: int, B: seq<Pixel>)
    requires LayoutOk(L) && ViewOk(L, V) && |B| >= 1
    requires AbyssHas(L, x + L.shiftX, y + L.shiftY) || KeyAt(x + L.shiftX, y + L.shiftY, L.tileWidth, L.tileHeight) in V
    ensures ReadAt(L, Rect(x, y, 1, 1), s, V, zero, B, 0, 0) == PixelRead(L, V, zero, B[0], x + L.shiftX, y + L.shiftY)
  {
    if AbyssHas(L, x + L.shiftX, y + L.shiftY) {
      InAbyssNotSkipped(L, Rect(x, y, 1, 1), 0, 0);
    }
  }

  /** The exception in PixelFastRead is real: outside the abyss, in a band
      and block the conservative tests keep, a missing tile leaves the
      caller's pixel in place where the pixel path writes zeros. */
  lemma PixelFastReadDiffers(L: Layout, V: View, zero: Pixel, x: int, y: int, s: int, B: seq<Pixel>)
    requires LayoutOk(L) && ViewOk(L, V) && |B| >= 1
    requires !AbyssHas(L, x + L.shiftX, y + L.shiftY)
    requires KeyAt(x + L.shiftX, y + L.shiftY, L.tileWidth, L.tileHeight) !in V
    requires !BandSkipped(L, Rect(x, y, 1, 1), 0) && !BlockSkipped(L, Rect(x, y, 1, 1), 0)
    ensures ReadAt(L, Rect(x, y, 1, 1), s, V, zero, B, 0, 0) == B[0]
    ensures PixelRead(L, V, zero, B[0], x + L.shiftX, y + L.shiftY) == zero
  {
  }

  // ---------------------------------------------------------------------
  // The tile source

  /** The tile source behind a buffer (its handler chain down to the
      storage): the tiles it hands out by key, and a record of every
      gegl_tile_source_get_tile call. A key outside `tiles` answers NULL. */
  class TileSource {
    const tiles: map<TileKey, Tile>
    var requests: seq<TileKey>

    constructor (tiles: map<TileKey, Tile>)
      ensures this.tiles == tiles && requests == []
    {
      this.tiles := tiles;
      requests := [];
    }

    /** gegl_tile_source_get_tile. */
    method GetTile(x: int, y: int, z: int) returns (t: Tile?)
      modifies this`requests
      ensures t == if TileKey(x, y, z) in tiles then tiles[TileKey(x, y, z)] else null
      ensures requests == old(requests) + [TileKey(x, y, z)]
    {
      requests := requests + [TileKey(x, y, z)];
      t := if TileKey(x, y, z) in tiles then tiles[TileKey(x, y, z)] else null;
    }
  }

  /** The GType of a sampler class, as gegl_sampler_type_from_interpolation
      picks it for an interpolation. */
  datatype SamplerType = SamplerType(name: string)

  /** A GeglSampler: its class and the format it was created for. */
  class Sampler {
    const kind: SamplerType
    const format: Format
    /** gegl_sampler_prepare has run. */
    var prepared: bool

    constructor (kind: SamplerType, format: Format)
      ensures this.kind == kind && this.format == format && !prepared
    {
      this.kind := kind;
      this.format := format;
      prepared := false;
    }

    /** gegl_sampler_prepare. */
    method Prepare()
      modifies this`prepared
      ensures prepared
    {
      prepared := true;
    }
  }

  /** A rect argument of 1x1: the pixel fast path. */
  predicate IsPixel(rect: Option<Rect>)
  {
    rect.Some? && rect.value.width == 1 && rect.value.height == 1
  }

  /** A rect argument with no pixels. */
  predicate IsEmpty(rect: Option<Rect>)
  {
    rect.Some? && (rect.value.width == 0 || rect.value.height == 0)
  }

  /** buf_stride: the rowstride given, or the roi width for GEGL_AUTO_ROWSTRIDE. */
  function Stride(roi: Rect, rowstride: int): int
  {
    if rowstride != AutoRowstride then rowstride else roi.width
  }

  /** A NULL format stands for the buffer's own; only that one is modelled. */
  predicate NativeFormat(format: Option<Format>, own: Format)
  {
    format.None? || format.value == own
  }

  // ---------------------------------------------------------------------
  // The buffer

  class Buffer {
    const format: Format
    const storage: TileStorage
    const source: TileSource
    const shiftX: int
    const shiftY: int
    const extent: Rect
    const abyss: Rect
    /** The single-tile cache of the pixel paths. */
    var hotTile: Tile?
    /** The sampler kept between gegl_buffer_sample calls. */
    var sampler: Sampler?
    /** The world of tiles the buffer's tiles live in (with their rings). */
    ghost const U: set<Tile>

    constructor (format: Format, storage: TileStorage, source: TileSource,
                 shiftX: int, shiftY: int, extent: Rect, abyss: Rect, ghost U: set<Tile>)
      ensures this.format == format && this.storage == storage && this.source == source
      ensures this.shiftX == shiftX && this.shiftY == shiftY
      ensures this.extent == extent && this.abyss == abyss && this.U == U
      ensures hotTile == null && sampler == null
    {
      this.format := format;
      this.storage := storage;
      this.source := source;
      this.shiftX := shiftX;
      this.shiftY := shiftY;
      this.extent := extent;
      this.abyss := abyss;
      this.U := U;
      hotTile := null;
      sampler := null;
    }

    function Geometry(): Layout
    {
      Layout(storage.tileWidth, storage.tileHeight, shiftX, shiftY, abyss)
    }

    /** A zero pixel of the buffer's format. */
    function Zero(): Pixel
    {
      Zeros(format.bytesPerPixel)
    }

    function TileAt(k: TileKey): Tile
      requires k in source.tiles
    {
      source.tiles[k]
    }

    ghost function Tiles(): set<Tile>
    {
      set k | k in source.tiles :: source.tiles[k]
    }

    ghost function Arrays(): set<array<Pixel>>
      reads Tiles()`data
    {
      set k | k in source.tiles && source.tiles[k].data != null :: source.tiles[k].data
    }

    /** The tile behind key k is the tile at (k.x, k.y, k.z) of this buffer,
        with a tile_width * tile_height buffer. */
    ghost predicate TileOk(k: TileKey)
      requires k in source.tiles
      reads U`x, U`y, U`z, U`storage, U`data
    {
      var t := source.tiles[k];
      && t in U
      && t.x == k.x && t.y == k.y && t.z == k.z
      && t.storage == storage
      && t.data != null
      && t.data.Length == storage.tileWidth * storage.tileHeight
    }

    ghost predicate TilesOk()
      reads U`x, U`y, U`z, U`storage, U`data
    {
      forall k :: k in source.tiles ==> TileOk(k)
    }

    /** No two keys share a tile buffer. */
    ghost predicate DataApart()
      reads Tiles()`data
    {
      forall k1, k2 :: k1 in source.tiles && k2 in source.tiles && k1 != k2 ==>
        source.tiles[k1].data != source.tiles[k2].data
    }

    /** The hot tile, if any, is the tile of its own key. */
    ghost predicate HotOk()
      reads this`hotTile, U`x, U`y
    {
      hotTile != null ==>
        hotTile in U &&
        TileKey(hotTile.x, hotTile.y, 0) in source.tiles &&
        source.tiles[TileKey(hotTile.x, hotTile.y, 0)] == hotTile
    }

    ghost predicate Valid()
      reads this`hotTile, U`x, U`y, U`z, U`storage, U`data, U`Ring, U`size, U`nextShared, U`prevShared, Tiles()`data
    {
      LayoutOk(Geometry()) && World(U) && TilesOk() && DataApart() && HotOk()
    }

    /** The contents of every tile the source can hand out. */
    ghost function View(): View
      reads Tiles()`data, Arrays()
    {
      map k | k in source.tiles :: if source.tiles[k].data == null then [] else source.tiles[k].data[..]
    }

    /** The caller's buffer is none of the tiles' buffers. */
    ghost predicate Apart(buf: array<Pixel>)
      reads Tiles()`data
    {
      forall k :: k in source.tiles ==> source.tiles[k].data != buf
    }

    lemma ViewIsOk()
      requires Valid()
      ensures ViewOk(Geometry(), View())
    {
    }

    /** The invariant survives a step that leaves the world well formed and
        changes no tile's key fields, no other key's buffer, and tile k's
        buffer only for a fresh one of the same length. */
    twostate lemma KeepsValid(k: TileKey)
      requires old(Valid()) && k in source.tiles && World(U) && hotTile == old(hotTile)
      requires forall t :: t in U ==>
        t.x == old(t.x) && t.y == old(t.y) && t.z == old(t.z) && t.storage == old(t.storage)
      requires forall k2 :: k2 in source.tiles && k2 != k ==> source.tiles[k2].data == old(source.tiles[k2].data)
      requires source.tiles[k].data != null && source.tiles[k].data.Length == old(source.tiles[k].data.Length)
      requires source.tiles[k].data == old(source.tiles[k].data) || fresh(source.tiles[k].data)
      ensures Valid()
    {
      assert TilesOk() by {
        forall k2 | k2 in source.tiles ensures TileOk(k2) {
          assert old(TileOk(k2));
        }
      }
      assert DataApart() by {
        forall k1, k2 | k1 in source.tiles && k2 in source.tiles && k1 != k2
          ensures source.tiles[k1].data != source.tiles[k2].data
        {
          assert old(source.tiles[k1].data != source.tiles[k2].data);
        }
      }
    }

    /** When only tile k's buffer changed, the view changes at k alone. */
    twostate lemma ViewUpdate(k: TileKey)
      requires old(Valid()) && k in source.tiles && source.tiles[k].data != null
      requires forall k2 :: k2 in source.tiles && k2 != k ==>
        source.tiles[k2].data == old(source.tiles[k2].data) &&
        source.tiles[k2].data[..] == old(source.tiles[k2].data[..])
      ensures View() == old(View())[k := source.tiles[k].data[..]]
    {
      assert forall k2 :: k2 in source.tiles ==> old(TileOk(k2));
    }

    /** Distinct keys hold distinct tiles. */
    lemma TileOfKey(k: TileKey, k2: TileKey)
      requires Valid() && k in source.tiles && k2 in source.tiles && k2 != k
      ensures source.tiles[k2] != source.tiles[k]
    {
      assert TileOk(k2) && TileOk(k);
    }

    /** The tiles that shared t's buffer before keep that buffer and its
        contents: a write through t went to t's own copy. */
    twostate predicate PartnersKept(t: Tile)
      reads U`data, set u | u in U && u.data != null :: u.data
    {
      forall u :: u in U && u in old(t.Ring) && u != t ==>
        u.data == old(u.data) && (u.data != null ==> u.data[..] == old(u.data[..]))
    }

    /** gegl_tile_lock on the tile behind key k. */
    method LockAt(k: TileKey)
      requires Valid() && k in source.tiles
      modifies TileAt(k)`lock, U`data, U`nextShared, U`prevShared, U`Ring
      ensures Valid() && View() == old(View())
      ensures hotTile == old(hotTile)
      ensures source.tiles[k].lock == CharAdd(old(source.tiles[k].lock), 1)
      ensures forall k2 :: k2 in source.tiles ==>
        source.tiles[k2].data == old(source.tiles[k2].data) || fresh(source.tiles[k2].data)
    {
      var t := source.tiles[k];
      assert Member(U, t);
      forall k2 | k2 in source.tiles && k2 != k ensures source.tiles[k2] != t {
        TileOfKey(k, k2);
      }
      t.LockIn(U);
      KeepsValid(k);
      ViewUpdate(k);
    }

    /** gegl_tile_unlock on the tile behind key k. */
    method UnlockAt(k: TileKey)
      requires Valid() && k in source.tiles
      modifies TileAt(k)`lock, TileAt(k)`rev, storage`voided
      ensures Valid() && View() == old(View())
      ensures source.tiles[k].lock == CharAdd(old(source.tiles[k].lock), -1)
      ensures source.tiles[k].rev ==
        if source.tiles[k].lock == 0 then UIntInc(old(source.tiles[k].rev)) else old(source.tiles[k].rev)
      ensures storage.voided ==
        old(storage.voided) + (if source.tiles[k].lock == 0 then PyramidAbove(source.tiles[k]) else [])
      ensures forall k2 :: k2 in source.tiles ==> source.tiles[k2].data == old(source.tiles[k2].data)
    {
      var t := source.tiles[k];
      t.Unlock();
      assert TilesOk() && World(U);
    }

    /** A store into the caller's buffer, which no tile shares. */
    method Put(buf: array<Pixel>, n: int, px: Pixel)
      requires Valid() && Apart(buf) && 0 <= n < buf.Length
      modifies buf
      ensures Valid() && Apart(buf) && View() == old(View())
      ensures buf[..] == old(buf[..])[n := px]
    {
      buf[n] := px;
      assert forall k :: k in source.tiles ==> old(TileOk(k));
    }

    /** gegl_buffer_in_abyss: true outside the abyss rectangle. */
    predicate InAbyss(x: int, y: int)
    {
      !(y + shiftY >= abyss.y + shiftY && y + shiftY < abyss.y + shiftY + abyss.height &&
        x + shiftX >= abyss.x + shiftX && x + shiftX < abyss.x + shiftX + abyss.width)
    }

    /** The shift cancels: a point is in the abyss exactly when it is outside
        the abyss rectangle in buffer coordinates. */
    lemma InAbyssIff(x: int, y: int)
      ensures InAbyss(x, y) <==> !Contains(abyss, x, y)
      ensures InAbyss(x, y) <==> !AbyssHas(Geometry(), x + shiftX, y + shiftY)
    {
    }

    /** The level-0 key of buffer coordinate (x, y). */
    function KeyOf(x: int, y: int): TileKey
      requires storage.tileWidth > 0 && storage.tileHeight > 0
    {
      KeyAt(x + shiftX, y + shiftY, storage.tileWidth, storage.tileHeight)
    }

    /** The hot tile is the tile of (x, y): its x and y indices match. */
    predicate HotHit(x: int, y: int)
      requires storage.tileWidth > 0 && storage.tileHeight > 0
      reads this`hotTile, if hotTile == null then {} else {hotTile}
    {
      hotTile != null && hotTile.x == KeyOf(x, y).x && hotTile.y == KeyOf(x, y).y
    }

    /** The hot-tile lookup shared by the pixel paths: reuse the hot tile when
        its indices match, otherwise drop it and ask the source. */
    method HotLookup(x: int, y: int) returns (tile: Tile?)
      requires Valid()
      modifies this`hotTile, source`requests
      ensures Valid() && View() == old(View())
      ensures tile == if KeyOf(x, y) in source.tiles then source.tiles[KeyOf(x, y)] else null
      ensures hotTile == if old(HotHit(x, y)) then old(hotTile) else null
      ensures source.requests == old(source.requests) +
        if old(HotHit(x, y)) then [] else [KeyOf(x, y)]
    {
      var k := KeyOf(x, y);
      if hotTile != null && hotTile.x == k.x && hotTile.y == k.y {
        tile := hotTile;
      } else {
        hotTile := null;
        tile := source.GetTile(k.x, k.y, 0);
      }
    }

    /** The tile after the copy becomes the hot tile. */
    method MakeHot(k: TileKey)
      requires Valid() && k in source.tiles && k.z == 0
      modifies this`hotTile
      ensures Valid() && View() == old(View()) && hotTile == source.tiles[k]
    {
      assert TileOk(k);
      hotTile := source.tiles[k];
    }

    /** What the tile-level brackets need of the tile behind key k: a well
        formed member of the world, of this buffer's storage, holding
        tile_width * tile_height pixels, and no other key's tile nor buffer. */
    lemma TileFacts(k: TileKey)
      requires Valid() && k in source.tiles
      ensures source.tiles[k] in U && source.tiles[k].Valid() && source.tiles[k].storage == storage
      ensures source.tiles[k].size == storage.tileWidth * storage.tileHeight
      ensures forall u :: u in source.tiles[k].Ring ==> u in U
      ensures forall k2 :: k2 in source.tiles && k2 != k ==>
        source.tiles[k2] != source.tiles[k] && source.tiles[k2].data != source.tiles[k].data
    {
      assert TileOk(k) && Member(U, source.tiles[k]);
      forall k2 | k2 in source.tiles && k2 != k
        ensures source.tiles[k2] != source.tiles[k] && source.tiles[k2].data != source.tiles[k].data
      {
        TileOfKey(k, k2);
        assert DataApart();
      }
    }

    /** gegl_tile_lock on the tile behind key k, a read of its pixel at
        offset, gegl_tile_unlock. */
    method LoadAt(k: TileKey, offset: int) returns (px: Pixel)
      requires Valid() && k in source.tiles
      requires 0 <= offset < storage.tileWidth * storage.tileHeight
      modifies storage`voided, U`lock, U`rev, U`data, U`nextShared, U`prevShared, U`Ring
      ensures Valid() && View() == old(View()) && hotTile == old(hotTile)
      ensures px == old(View())[k][offset]
      ensures forall k2 :: k2 in source.tiles ==>
        source.tiles[k2].data == old(source.tiles[k2].data) || fresh(source.tiles[k2].data)
      ensures source.tiles[k].LockedOnce(U)
    {
      var t := source.tiles[k];
      TileFacts(k);
      assert View()[k] == t.data[..];
      px := t.LockedLoad(U, offset);
      KeepsValid(k);
      ViewUpdate(k);
      assert old(View())[k := t.data[..]] == old(View());
    }

    /** gegl_tile_lock on the tile behind key k, a store of px at offset,
        gegl_tile_unlock. */
    method StoreAt(k: TileKey, offset: int, px: Pixel)
      requires Valid() && k in source.tiles
      requires 0 <= offset < storage.tileWidth * storage.tileHeight
      modifies storage`voided, Arrays(), U`lock, U`rev, U`data, U`nextShared, U`prevShared, U`Ring
      ensures Valid() && hotTile == old(hotTile)
      ensures View() == old(View()[k := View()[k][offset := px]])
      ensures forall k2 :: k2 in source.tiles ==>
        source.tiles[k2].data == old(source.tiles[k2].data) || fresh(source.tiles[k2].data)
      ensures source.tiles[k].LockedOnce(U) && PartnersKept(source.tiles[k])
    {
      var t := source.tiles[k];
      TileFacts(k);
      t.LockedStore(U, offset, px);
      KeepsValid(k);
      ViewUpdate(k);
    }

    /** Lock the tile of key k, read its pixel at offset, unlock, and put the
        pixel into dest[0]. The source copies into dest between the lock and
        the unlock; dest is no tile's buffer, so the order is not visible. */
    method ReadTilePixel(k: TileKey, offset: int, dest: array<Pixel>)
      requires Valid() && k in source.tiles && Apart(dest) && dest.Length >= 1
      requires 0 <= offset < storage.tileWidth * storage.tileHeight
      modifies dest, storage`voided, U`lock, U`rev, U`data, U`nextShared, U`prevShared, U`Ring
      ensures Valid() && View() == old(View()) && Apart(dest) && hotTile == old(hotTile)
      ensures dest[..] == old(dest[..])[0 := old(View())[k][offset]]
      ensures source.tiles[k].LockedOnce(U)
    {
      var px := LoadAt(k, offset);
      Put(dest, 0, px);
    }

    /** The memcpy into the locked tile's buffer. */
    method StoreTile(k: TileKey, offset: int, px: Pixel)
      requires Valid() && k in source.tiles
      requires 0 <= offset < storage.tileWidth * storage.tileHeight
      modifies source.tiles[k].data
      ensures Valid()
      ensures View() == old(View()[k := View()[k][offset := px]])
      ensures forall k2 :: k2 in source.tiles ==> source.tiles[k2].data == old(source.tiles[k2].data)
    {
      assert TileOk(k);
      var d := source.tiles[k].data;
      forall k2 | k2 in source.tiles && k2 != k ensures source.tiles[k2].data != d {
        assert DataApart();
      }
      d[offset] := px;
      ViewUpdate(k);
      KeepsValid(k);
    }

    /** gegl_buffer_get_pixel in the buffer's format, into dest[0]. */
    method GetPixel(x: int, y: int, dest: array<Pixel>)
      requires Valid() && Apart(dest) && dest.Length >= 1
      modifies dest, this`hotTile, source`requests, storage`voided
      modifies U`lock, U`rev, U`data, U`nextShared, U`prevShared, U`Ring
      ensures Valid() && View() == old(View()) && Apart(dest)
      ensures dest[0] == PixelRead(Geometry(), old(View()), Zero(), old(dest[0]), x + shiftX, y + shiftY)
      ensures dest[1..] == old(dest[1..])
      ensures InAbyss(x, y) ==> hotTile == old(hotTile) && source.requests == old(source.requests)
      ensures !InAbyss(x, y) ==>
        hotTile == (if KeyOf(x, y) in source.tiles then source.tiles[KeyOf(x, y)] else null) &&
        source.requests == old(source.requests) +
          if old(HotHit(x, y)) then [] else [KeyOf(x, y)]
      ensures InAbyss(x, y) || KeyOf(x, y) !in source.tiles ==> unchanged(U) && unchanged(storage)
      ensures !InAbyss(x, y) && KeyOf(x, y) in source.tiles ==> source.tiles[KeyOf(x, y)].LockedOnce(U)
      ensures Locks(U) == old(Locks(U))
    {
      ViewIsOk();
      InAbyssIff(x, y);
      if InAbyss(x, y) {
        Put(dest, 0, Zero());
        LocksKept(U);
        return;
      }
      var tile := HotLookup(x, y);
      if tile != null {
        LoadPixel(x, y, dest);
      }
      LocksKept(U);
    }

    /** The rest of gegl_buffer_get_pixel once the tile of (x, y) is found:
        the copy of the pixel at its offset in that tile into dest[0]; the
        tile then becomes the hot tile. */
    method LoadPixel(x: int, y: int, dest: array<Pixel>)
      requires Valid() && !InAbyss(x, y) && KeyOf(x, y) in source.tiles && Apart(dest) && dest.Length >= 1
      modifies dest, this`hotTile, storage`voided
      modifies U`lock, U`rev, U`data, U`nextShared, U`prevShared, U`Ring
      ensures Valid() && View() == old(View()) && Apart(dest) && hotTile == source.tiles[KeyOf(x, y)]
      ensures dest[..] == old(dest[..])[0 := PixelRead(Geometry(), old(View()), Zero(), old(dest[0]), x + shiftX, y + shiftY)]
      ensures source.tiles[KeyOf(x, y)].LockedOnce(U)
    {
      ViewIsOk();
      InAbyssIff(x, y);
      var k := KeyOf(x, y);
      var tw, th := storage.tileWidth, storage.tileHeight;
      var offset := TileOffset(y + shiftY, th) * tw + TileOffset(x + shiftX, tw);
      OffsetInTile(x + shiftX, y + shiftY, tw, th);
      assert offset == OffsetAt(x + shiftX, y + shiftY, tw, th);
      ReadTilePixel(k, offset, dest);
      MakeHot(k);
    }

    /** gegl_buffer_set_pixel in the buffer's format. */
    method SetPixel(x: int, y: int, px: Pixel)
      requires Valid()
      modifies this`hotTile, source`requests, storage`voided, Arrays()
      modifies U`lock, U`rev, U`data, U`nextShared, U`prevShared, U`Ring
      ensures Valid()
      ensures View() == PixelWrite(Geometry(), old(View()), x + shiftX, y + shiftY, px)
      ensures forall k2 :: k2 in source.tiles ==>
        source.tiles[k2].data == old(source.tiles[k2].data) || fresh(source.tiles[k2].data)
      ensures InAbyss(x, y) ==> hotTile == old(hotTile) && source.requests == old(source.requests)
      ensures !InAbyss(x, y) ==>
        hotTile == (if KeyOf(x, y) in source.tiles then source.tiles[KeyOf(x, y)] else null) &&
        source.requests == old(source.requests) +
          if old(HotHit(x, y)) then [] else [KeyOf(x, y)]
      ensures InAbyss(x, y) || KeyOf(x, y) !in source.tiles ==> unchanged(U) && unchanged(storage)
      ensures !InAbyss(x, y) && KeyOf(x, y) in source.tiles ==>
        source.tiles[KeyOf(x, y)].LockedOnce(U) && PartnersKept(source.tiles[KeyOf(x, y)])
      ensures Locks(U) == old(Locks(U))
    {
      ViewIsOk();
      InAbyssIff(x, y);
      if InAbyss(x, y) {
        return;
      }
      var tile := HotLookup(x, y);
      if tile != null {
        StorePixel(x, y, px);
      }
      LocksKept(U);
    }

    /** The rest of gegl_buffer_set_pixel once the tile of (x, y) is found:
        the store at the pixel's offset in that tile, which then becomes the
        hot tile. */
    method StorePixel(x: int, y: int, px: Pixel)
      requires Valid() && !InAbyss(x, y) && KeyOf(x, y) in source.tiles
      modifies this`hotTile, storage`voided, Arrays()
      modifies U`lock, U`rev, U`data, U`nextShared, U`prevShared, U`Ring
      ensures Valid() && hotTile == source.tiles[KeyOf(x, y)]
      ensures View() == PixelWrite(Geometry(), old(View()), x + shiftX, y + shiftY, px)
      ensures forall k2 :: k2 in source.tiles ==>
        source.tiles[k2].data == old(source.tiles[k2].data) || fresh(source.tiles[k2].data)
      ensures source.tiles[KeyOf(x, y)].LockedOnce(U) && PartnersKept(source.tiles[KeyOf(x, y)])
    {
      ViewIsOk();
      InAbyssIff(x, y);
      var k := KeyOf(x, y);
      var tw, th := storage.tileWidth, storage.tileHeight;
      var offset := TileOffset(y + shiftY, th) * tw + TileOffset(x + shiftX, tw);
      OffsetInTile(x + shiftX, y + shiftY, tw, th);
      assert offset == OffsetAt(x + shiftX, y + shiftY, tw, th);
      StoreAt(k, offset, px);
      MakeHot(k);
    }

    /** gegl_buffer_flush, the hot-tile part: the hot tile is dropped. */
    method Flush()
      requires Valid()
      modifies this`hotTile
      ensures Valid() && View() == old(View()) && hotTile == null
    {
      hotTile := null;
    }

    /** gegl_buffer_sample, the cache part: a kept sampler of another class
        than `desired` (the class for the interpolation asked for) is
        dropped; when none is left, one is created for `format` and
        prepared. The sampler's own lookup is not part of this model. */
    method Sample(desired: SamplerType, format: Format)
      modifies this`sampler
      ensures sampler != null && sampler.kind == desired
      ensures old(sampler) != null && old(sampler).kind == desired ==> sampler == old(sampler)
      ensures old(sampler) == null || old(sampler).kind != desired ==>
        fresh(sampler) && sampler.format == format && sampler.prepared
    {
      if sampler != null && sampler.kind != desired {
        sampler := null;
      }
      if sampler == null {
        var fresh_ := new Sampler(desired, format);
        fresh_.Prepare();
        sampler := fresh_;
      }
    }

    /** gegl_buffer_sample_cleanup: the kept sampler is dropped. */
    method SampleCleanup()
      modifies this`sampler
      ensures sampler == null
    {
      if sampler != null {
        sampler := null;
      }
    }

    // -------------------------------------------------------------------
    // gegl_buffer_iterate, reading, level 0, in the buffer's own format

    /** memset: the n cells from position p of the caller's buffer become px. */
    method FillRange(buf: array<Pixel>, p: int, n: int, px: Pixel)
      requires Valid() && Apart(buf) && 0 <= p && 0 <= n && p + n <= buf.Length
      modifies buf
      ensures Valid() && Apart(buf) && View() == old(View())
      ensures forall m :: 0 <= m < buf.Length ==> buf[m] == if p <= m < p + n then px else old(buf[m])
    {
      var q := 0;
      while q < n
        invariant 0 <= q <= n
        invariant Valid() && Apart(buf) && View() == old(View())
        invariant forall m :: 0 <= m < buf.Length ==> buf[m] == if p <= m < p + q then px else old(buf[m])
      {
        Put(buf, p + q, px);
        q := q + 1;
      }
    }

    /** memcpy from the tile of key k: the n cells from position p of the
        caller's buffer take the tile's pixels from offset toff on. */
    method CopyRange(buf: array<Pixel>, p: int, n: int, k: TileKey, toff: int)
      requires Valid() && Apart(buf) && 0 <= p && 0 <= n && p + n <= buf.Length
      requires k in source.tiles && 0 <= toff && toff + n <= storage.tileWidth * storage.tileHeight
      modifies buf
      ensures Valid() && Apart(buf) && View() == old(View())
      ensures forall m :: 0 <= m < buf.Length ==>
        buf[m] == if p <= m < p + n then old(View())[k][toff + m - p] else old(buf[m])
    {
      assert TileOk(k);
      var d := source.tiles[k].data;
      ghost var row := View()[k];
      assert row == d[..];
      var q := 0;
      while q < n
        invariant 0 <= q <= n
        invariant Valid() && Apart(buf) && View() == old(View()) && source.tiles[k].data == d
        invariant forall m :: 0 <= m < buf.Length ==> buf[m] == if p <= m < p + q then row[toff + m - p] else old(buf[m])
      {
        Put(buf, p + q, d[toff + q]);
        q := q + 1;
      }
    }

    /** One row of the read loop on a locked tile: memcpy when the row lies
        inside the abyss, memset otherwise, then zero the lskip leftmost and
        the rskip rightmost pixels. */
    method ReadTileRow(buf: array<Pixel>, p: int, pixels: int, lskip: int, rskip: int, rowIn: bool,
                       k: TileKey, toff: int)
      requires Valid() && Apart(buf) && 0 <= p && 0 <= pixels && p + pixels <= buf.Length
      requires k in source.tiles && 0 <= toff && toff + pixels <= storage.tileWidth * storage.tileHeight
      requires 0 <= lskip <= pixels && 0 <= rskip <= pixels
      modifies buf
      ensures Valid() && Apart(buf) && View() == old(View())
      ensures forall m :: 0 <= m < buf.Length ==>
        buf[m] == if p <= m < p + pixels then RowRead(old(View())[k], toff, pixels, lskip, rskip, rowIn, Zero())[m - p]
                  else old(buf[m])
    {
      assert TileOk(k);
      if rowIn {
        CopyRange(buf, p, pixels, k, toff);
      } else {
        FillRange(buf, p, pixels, Zero());
      }
      if lskip != 0 {
        FillRange(buf, p, lskip, Zero());
      }
      if rskip != 0 {
        FillRange(buf, p + pixels - rskip, rskip, Zero());
      }
    }

    /** One row of a block wholly in the abyss: pixels zeros. */
    method ZeroBlockRow(roi: Rect, buf: array<Pixel>, s: int, bufy: int, bufx: int, y: int, pixels: int,
                        ghost V: View, ghost B: seq<Pixel>)
      requires Valid() && Apart(buf) && View() == V && roi.height * s <= buf.Length
      requires InBlock(Geometry(), roi, s, bufy, bufx) && InBand(Geometry(), roi, bufy, y)
      requires BlockSkipped(Geometry(), roi, bufx) && pixels == Pixels(Geometry(), roi, bufx)
      requires ReadUpTo(Geometry(), roi, s, V, Zero(), B, buf[..], bufy, BandEnd(Geometry(), roi, bufy), bufx,
                        y, BlockEnd(Geometry(), roi, bufx))
      modifies buf
      ensures Valid() && Apart(buf) && View() == V
      ensures ReadUpTo(Geometry(), roi, s, V, Zero(), B, buf[..], bufy, BandEnd(Geometry(), roi, bufy), bufx,
                       y + 1, BlockEnd(Geometry(), roi, bufx))
    {
      var L := Geometry();
      BlockBounds(L, roi, s, bufy, bufx, y);
      RowsBelow(s, y, roi.height);
      ghost var cur := buf[..];
      FillRange(buf, y * s + bufx, pixels, Zero());
      RunCells(cur, buf[..], s, y, bufx, seq(pixels, _ => Zero()));
      SkippedBlockRowStep(L, roi, s, V, Zero(), B, cur, buf[..], bufy, bufx, y);
    }

    /** The rows of a block wholly in the abyss, in a band that is not. */
    method SkipBlock(roi: Rect, buf: array<Pixel>, s: int, bufy: int, bufx: int, ghost V: View, ghost B: seq<Pixel>)
      requires Valid() && Apart(buf) && View() == V && roi.height * s <= buf.Length
      requires InBlock(Geometry(), roi, s, bufy, bufx) && BlockSkipped(Geometry(), roi, bufx)
      requires ReadUpTo(Geometry(), roi, s, V, Zero(), B, buf[..], bufy, BandEnd(Geometry(), roi, bufy), bufx,
                        bufy, bufx)
      modifies buf
      ensures Valid() && Apart(buf) && View() == V
      ensures ReadUpTo(Geometry(), roi, s, V, Zero(), B, buf[..], bufy, BandEnd(Geometry(), roi, bufy),
                       BlockEnd(Geometry(), roi, bufx), bufy, bufx)
    {
      var L := Geometry();
      var tw, th := storage.tileWidth, storage.tileHeight;
      var offy := TileOffset(roi.y + shiftY + bufy, th);
      var offx := TileOffset(roi.x + shiftX + bufx, tw);
      var pixels := if roi.width + offx - bufx < tw then roi.width - bufx else tw - offx;
      DoneEquiv(L, roi, s, V, Zero(), B, buf[..], bufy, BandEnd(L, roi, bufy), bufx, bufy, bufx,
                bufy, BandEnd(L, roi, bufy), bufx, bufy, BlockEnd(L, roi, bufx));
      var row, y := offy, bufy;
      while row < th && y < roi.height
        invariant bufy <= y <= roi.height && row == offy + (y - bufy) && row <= th
        invariant Valid() && Apart(buf) && View() == V
        invariant ReadUpTo(L, roi, s, V, Zero(), B, buf[..], bufy, BandEnd(L, roi, bufy), bufx, y, BlockEnd(L, roi, bufx))
      {
        ZeroBlockRow(roi, buf, s, bufy, bufx, y, pixels, V, B);
        row, y := row + 1, y + 1;
      }
      DoneEquiv(L, roi, s, V, Zero(), B, buf[..], bufy, BandEnd(L, roi, bufy), bufx, y, BlockEnd(L, roi, bufx),
                bufy, BandEnd(L, roi, bufy), BlockEnd(L, roi, bufx), bufy, bufx);
    }

    /** One row of a locked, present tile. */
    method CopyBlockRow(roi: Rect, buf: array<Pixel>, s: int, bufy: int, bufx: int, y: int, k: TileKey,
                        pixels: int, lskip: int, rskip: int, ghost V: View, ghost B: seq<Pixel>)
      requires Valid() && Apart(buf) && View() == V && roi.height * s <= buf.Length
      requires InBlock(Geometry(), roi, s, bufy, bufx) && InBand(Geometry(), roi, bufy, y)
      requires !BlockSkipped(Geometry(), roi, bufx) && k == BlockKey(Geometry(), roi, bufy, bufx) && k in source.tiles
      requires pixels == Pixels(Geometry(), roi, bufx)
      requires lskip == LSkip(Geometry(), roi, bufx) && rskip == RSkip(Geometry(), roi, bufx)
      requires ReadUpTo(Geometry(), roi, s, V, Zero(), B, buf[..], bufy, BandEnd(Geometry(), roi, bufy), bufx,
                        y, BlockEnd(Geometry(), roi, bufx))
      modifies buf
      ensures Valid() && Apart(buf) && View() == V
      ensures ReadUpTo(Geometry(), roi, s, V, Zero(), B, buf[..], bufy, BandEnd(Geometry(), roi, bufy), bufx,
                       y + 1, BlockEnd(Geometry(), roi, bufx))
    {
      var L := Geometry();
      BlockBounds(L, roi, s, bufy, bufx, y);
      RowsBelow(s, y, roi.height);
      var rowIn := roi.y + shiftY + y >= abyss.y + shiftY && roi.y + shiftY + y < abyss.y + shiftY + abyss.height;
      var toff := TileOff(L, roi, bufy, bufx, y);
      ghost var cur := buf[..];
      ReadTileRow(buf, y * s + bufx, pixels, lskip, rskip, rowIn, k, toff);
      RunCells(cur, buf[..], s, y, bufx, BlockRowRead(L, roi, V, Zero(), bufy, bufx, y));
      TileRowStep(L, roi, s, V, Zero(), B, cur, buf[..], bufy, bufx, y);
    }

    /** The rows of a present tile, locked by the caller. */
    method CopyBlock(roi: Rect, buf: array<Pixel>, s: int, bufy: int, bufx: int, k: TileKey,
                     lskip: int, rskip: int, ghost V: View, ghost B: seq<Pixel>)
      requires Valid() && Apart(buf) && View() == V && roi.height * s <= buf.Length
      requires InBlock(Geometry(), roi, s, bufy, bufx) && !BlockSkipped(Geometry(), roi, bufx)
      requires k == BlockKey(Geometry(), roi, bufy, bufx) && k in source.tiles
      requires lskip == LSkip(Geometry(), roi, bufx) && rskip == RSkip(Geometry(), roi, bufx)
      requires ReadUpTo(Geometry(), roi, s, V, Zero(), B, buf[..], bufy, BandEnd(Geometry(), roi, bufy), bufx,
                        bufy, bufx)
      modifies buf
      ensures Valid() && Apart(buf) && View() == V
      ensures ReadUpTo(Geometry(), roi, s, V, Zero(), B, buf[..], bufy, BandEnd(Geometry(), roi, bufy),
                       BlockEnd(Geometry(), roi, bufx), bufy, bufx)
    {
      var L := Geometry();
      var tw, th := storage.tileWidth, storage.tileHeight;
      var offy := TileOffset(roi.y + shiftY + bufy, th);
      var offx := TileOffset(roi.x + shiftX + bufx, tw);
      var pixels := if roi.width + offx - bufx < tw then roi.width - bufx else tw - offx;
      DoneEquiv(L, roi, s, V, Zero(), B, buf[..], bufy, BandEnd(L, roi, bufy), bufx, bufy, bufx,
                bufy, BandEnd(L, roi, bufy), bufx, bufy, BlockEnd(L, roi, bufx));
      var row, y := offy, bufy;
      while row < th && y < roi.height
        invariant bufy <= y <= roi.height && row == offy + (y - bufy) && row <= th
        invariant Valid() && Apart(buf) && View() == V
        invariant ReadUpTo(L, roi, s, V, Zero(), B, buf[..], bufy, BandEnd(L, roi, bufy), bufx, y, BlockEnd(L, roi, bufx))
      {
        CopyBlockRow(roi, buf, s, bufy, bufx, y, k, pixels, lskip, rskip, V, B);
        row, y := row + 1, y + 1;
      }
      DoneEquiv(L, roi, s, V, Zero(), B, buf[..], bufy, BandEnd(L, roi, bufy), bufx, y, BlockEnd(L, roi, bufx),
                bufy, BandEnd(L, roi, bufy), BlockEnd(L, roi, bufx), bufy, bufx);
    }

    /** One block of the row walk: zeros when the block lies wholly in the
        abyss, nothing when the source has no tile there, and otherwise the
        rows of the tile, locked for the copy; next is where the following
        block starts. */
    method ReadBlock(roi: Rect, buf: array<Pixel>, s: int, bufy: int, bufx: int, ghost V: View, ghost B: seq<Pixel>)
      returns (next: int)
      requires Valid() && Apart(buf) && View() == V && roi.height * s <= buf.Length
      requires InBlock(Geometry(), roi, s, bufy, bufx)
      requires ReadUpTo(Geometry(), roi, s, V, Zero(), B, buf[..], bufy, BandEnd(Geometry(), roi, bufy), bufx,
                        bufy, bufx)
      modifies buf, storage`voided, source`requests, U`lock, U`rev, U`data, U`nextShared, U`prevShared, U`Ring
      ensures Valid() && Apart(buf) && View() == V && hotTile == old(hotTile)
      ensures next == BlockEnd(Geometry(), roi, bufx) && next > bufx && BlockStart(Geometry(), roi, next)
      ensures ReadUpTo(Geometry(), roi, s, V, Zero(), B, buf[..], bufy, BandEnd(Geometry(), roi, bufy), next, bufy, next)
      ensures Locks(U) == old(Locks(U))
    {
      var L := Geometry();
      var tw, th := storage.tileWidth, storage.tileHeight;
      var tiledx, tiledy := roi.x + shiftX + bufx, roi.y + shiftY + bufy;
      var offx := TileOffset(tiledx, tw);
      var pixels := if roi.width + offx - bufx < tw then roi.width - bufx else tw - offx;
      var ax, axT := abyss.x + shiftX, abyss.x + shiftX + abyss.width;
      Decompose(tiledx, tw);
      RunFacts(roi.x + shiftX, bufx, bufx, tw);
      assert pixels == Pixels(L, roi, bufx);
      if !(tiledx + tw >= ax && tiledx < axT) {
        SkipBlock(roi, buf, s, bufy, bufx, V, B);
      } else {
        FetchBlock(roi, buf, s, bufy, bufx, pixels, V, B);
      }
      NextBlock(L, roi, bufx);
      DoneEquiv(L, roi, s, V, Zero(), B, buf[..], bufy, BandEnd(L, roi, bufy), BlockEnd(L, roi, bufx), bufy, bufx,
                bufy, BandEnd(L, roi, bufy), BlockEnd(L, roi, bufx), bufy, BlockEnd(L, roi, bufx));
      next := bufx + (tw - offx);
    }

    /** A block not wholly in the abyss: fetch its tile, then read it. */
    method FetchBlock(roi: Rect, buf: array<Pixel>, s: int, bufy: int, bufx: int, pixels: int,
                      ghost V: View, ghost B: seq<Pixel>)
      requires Valid() && Apart(buf) && View() == V && roi.height * s <= buf.Length
      requires InBlock(Geometry(), roi, s, bufy, bufx) && !BlockSkipped(Geometry(), roi, bufx)
      requires pixels == Pixels(Geometry(), roi, bufx)
      requires ReadUpTo(Geometry(), roi, s, V, Zero(), B, buf[..], bufy, BandEnd(Geometry(), roi, bufy), bufx,
                        bufy, bufx)
      modifies buf, storage`voided, source`requests, U`lock, U`rev, U`data, U`nextShared, U`prevShared, U`Ring
      ensures Valid() && Apart(buf) && View() == V && hotTile == old(hotTile)
      ensures ReadUpTo(Geometry(), roi, s, V, Zero(), B, buf[..], bufy, BandEnd(Geometry(), roi, bufy),
                       BlockEnd(Geometry(), roi, bufx), bufy, bufx)
      ensures Locks(U) == old(Locks(U))
    {
      var tw, th := storage.tileWidth, storage.tileHeight;
      var tiledx, tiledy := roi.x + shiftX + bufx, roi.y + shiftY + bufy;
      var ax, axT := abyss.x + shiftX, abyss.x + shiftX + abyss.width;
      var tile := source.GetTile(TileIndex(tiledx, tw), TileIndex(tiledy, th), 0);
      var lskip := Clamp(ax - tiledx, pixels);
      var rskip := Clamp(tiledx + pixels - axT, pixels);
      var k := TileKey(TileIndex(tiledx, tw), TileIndex(tiledy, th), 0);
      if tile == null {
        MissingTileStep(Geometry(), roi, s, V, Zero(), B, buf[..], bufy, bufx);
        return;
      }
      ReadTile(roi, buf, s, bufy, bufx, k, lskip, rskip, V, B);
    }

    /** gegl_tile_lock, the rows of the tile, gegl_tile_unlock. */
    method ReadTile(roi: Rect, buf: array<Pixel>, s: int, bufy: int, bufx: int, k: TileKey,
                    lskip: int, rskip: int, ghost V: View, ghost B: seq<Pixel>)
      requires Valid() && Apart(buf) && View() == V && roi.height * s <= buf.Length
      requires InBlock(Geometry(), roi, s, bufy, bufx) && !BlockSkipped(Geometry(), roi, bufx)
      requires k == BlockKey(Geometry(), roi, bufy, bufx) && k in source.tiles
      requires lskip == LSkip(Geometry(), roi, bufx) && rskip == RSkip(Geometry(), roi, bufx)
      requires ReadUpTo(Geometry(), roi, s, V, Zero(), B, buf[..], bufy, BandEnd(Geometry(), roi, bufy), bufx,
                        bufy, bufx)
      modifies buf, storage`voided, U`lock, U`rev, U`data, U`nextShared, U`prevShared, U`Ring
      ensures Valid() && Apart(buf) && View() == V && hotTile == old(hotTile)
      ensures ReadUpTo(Geometry(), roi, s, V, Zero(), B, buf[..], bufy, BandEnd(Geometry(), roi, bufy),
                       BlockEnd(Geometry(), roi, bufx), bufy, bufx)
      ensures Locks(U) == old(Locks(U))
    {
      assert TileOk(k);
      LockAt(k);
      CopyBlock(roi, buf, s, bufy, bufx, k, lskip, rskip, V, B);
      UnlockAt(k);
      CharRoundTrip(old(source.tiles[k].lock));
      LocksKept(U);
    }

    /** One row of a band wholly in the abyss: a whole rowstride of zeros,
        from the row's own start. */
    method ZeroBandRow(roi: Rect, buf: array<Pixel>, s: int, bufy: int, y: int, ghost V: View, ghost B: seq<Pixel>)
      requires Valid() && Apart(buf) && View() == V && s >= roi.width >= 0 && roi.height * s <= buf.Length
      requires BandStart(Geometry(), roi, bufy) && InBand(Geometry(), roi, bufy, y) && BandSkipped(Geometry(), roi, bufy)
      requires ReadUpTo(Geometry(), roi, s, V, Zero(), B, buf[..], bufy, y, s, bufy, 0)
      modifies buf
      ensures Valid() && Apart(buf) && View() == V
      ensures ReadUpTo(Geometry(), roi, s, V, Zero(), B, buf[..], bufy, y + 1, s, bufy, 0)
    {
      RowsBelow(s, y, roi.height);
      ghost var cur := buf[..];
      FillRange(buf, y * s, s, Zero());
      RunCells(cur, buf[..], s, y, 0, seq(s, _ => Zero()));
      SkippedBandRowStep(Geometry(), roi, s, V, Zero(), B, cur, buf[..], bufy, y);
    }

    /** The rows of a band wholly in the abyss. */
    method SkipBand(roi: Rect, buf: array<Pixel>, s: int, bufy: int, ghost V: View, ghost B: seq<Pixel>)
      requires Valid() && Apart(buf) && View() == V && s >= roi.width >= 0 && roi.height * s <= buf.Length
      requires BandStart(Geometry(), roi, bufy) && bufy < roi.height && BandSkipped(Geometry(), roi, bufy)
      requires ReadUpTo(Geometry(), roi, s, V, Zero(), B, buf[..], bufy, 0, 0, 0, 0)
      modifies buf
      ensures Valid() && Apart(buf) && View() == V
      ensures ReadUpTo(Geometry(), roi, s, V, Zero(), B, buf[..], BandEnd(Geometry(), roi, bufy), 0, 0, 0, 0)
    {
      var L := Geometry();
      var th := storage.tileHeight;
      var offy := TileOffset(roi.y + shiftY + bufy, th);
      DoneEquiv(L, roi, s, V, Zero(), B, buf[..], bufy, 0, 0, 0, 0, bufy, bufy, s, bufy, 0);
      var row, y := offy, bufy;
      while row < th && y < roi.height
        invariant bufy <= y <= roi.height && row == offy + (y - bufy) && row <= th
        invariant Valid() && Apart(buf) && View() == V
        invariant ReadUpTo(L, roi, s, V, Zero(), B, buf[..], bufy, y, s, bufy, 0)
      {
        ZeroBandRow(roi, buf, s, bufy, y, V, B);
        row, y := row + 1, y + 1;
      }
      DoneEquiv(L, roi, s, V, Zero(), B, buf[..], bufy, y, s, bufy, 0, BandEnd(L, roi, bufy), 0, 0, 0, 0);
    }

    /** Row y of the as-written band skip: a rowstride of zeros from
        bufy * width + (y - bufy) * s. */
    method ZeroRowAsWritten(roi: Rect, buf: array<Pixel>, s: int, bufy: int, y: int, ghost V: View, ghost B: seq<Pixel>)
      requires Valid() && Apart(buf) && View() == V && s >= roi.width >= 0 && roi.height * s <= buf.Length
      requires 0 <= bufy <= y < roi.height && |B| == buf.Length
      requires forall m :: 0 <= m < buf.Length ==>
        buf[m] == if ZeroedAsWritten(roi.width, s, bufy, y - bufy, m) then Zero() else B[m]
      modifies buf
      ensures Valid() && Apart(buf) && View() == V
      ensures forall m :: 0 <= m < buf.Length ==>
        buf[m] == if ZeroedAsWritten(roi.width, s, bufy, y + 1 - bufy, m) then Zero() else B[m]
    {
      AsWrittenStep(roi.width, s, bufy, y, roi.height);
      FillRange(buf, bufy * roi.width + (y - bufy) * s, s, Zero());
    }

    /** The rows of a band wholly in the abyss as gegl-buffer-access.c
        zeroes them: the first memset starts at bufy * width rather than at
        bufy * rowstride, and each row then moves on by the rowstride. */
    method SkipBandAsWritten(roi: Rect, buf: array<Pixel>, s: int, bufy: int)
      requires Valid() && Apart(buf) && s >= roi.width >= 0 && roi.height * s <= buf.Length
      requires BandStart(Geometry(), roi, bufy) && bufy < roi.height
      modifies buf
      ensures Valid() && Apart(buf) && View() == old(View())
      ensures forall m :: 0 <= m < buf.Length ==>
        buf[m] == if ZeroedAsWritten(roi.width, s, bufy, BandRows(Geometry(), roi, bufy), m) then Zero() else old(buf[m])
    {
      var th := storage.tileHeight;
      var offy := TileOffset(roi.y + shiftY + bufy, th);
      Decompose(roi.y + shiftY + bufy, th);
      ghost var V, B := View(), buf[..];
      var row, y := offy, bufy;
      while row < th && y < roi.height
        invariant bufy <= y <= roi.height && row == offy + (y - bufy) && row <= th
        invariant Valid() && Apart(buf) && View() == V
        invariant forall m :: 0 <= m < buf.Length ==>
          buf[m] == if ZeroedAsWritten(roi.width, s, bufy, y - bufy, m) then Zero() else B[m]
      {
        ZeroRowAsWritten(roi, buf, s, bufy, y, V, B);
        row, y := row + 1, y + 1;
      }
      assert y - bufy == BandRows(Geometry(), roi, bufy);
    }

    /** One band of the row walk: zeros when it lies wholly in the abyss,
        else its blocks from left to right. */
    method ReadBand(roi: Rect, buf: array<Pixel>, s: int, bufy: int, ghost V: View, ghost B: seq<Pixel>)
      requires Valid() && Apart(buf) && View() == V && s >= roi.width >= 0 && roi.height * s <= buf.Length
      requires BandStart(Geometry(), roi, bufy) && bufy < roi.height
      requires ReadUpTo(Geometry(), roi, s, V, Zero(), B, buf[..], bufy, 0, 0, 0, 0)
      modifies buf, storage`voided, source`requests, U`lock, U`rev, U`data, U`nextShared, U`prevShared, U`Ring
      ensures Valid() && Apart(buf) && View() == V && hotTile == old(hotTile)
      ensures ReadUpTo(Geometry(), roi, s, V, Zero(), B, buf[..], BandEnd(Geometry(), roi, bufy), 0, 0, 0, 0)
      ensures Locks(U) == old(Locks(U))
    {
      var L := Geometry();
      var th := storage.tileHeight;
      var tiledy := roi.y + shiftY + bufy;
      Decompose(tiledy, th);
      RunFacts(roi.y + shiftY, bufy, bufy, th);
      if !(tiledy + th >= abyss.y + shiftY && tiledy < abyss.y + shiftY + abyss.height) {
        SkipBand(roi, buf, s, bufy, V, B);
        return;
      }
      DoneEquiv(L, roi, s, V, Zero(), B, buf[..], bufy, 0, 0, 0, 0, bufy, BandEnd(L, roi, bufy), 0, bufy, 0);
      var bufx := 0;
      while bufx < roi.width
        invariant BlockStart(L, roi, bufx)
        invariant Valid() && Apart(buf) && View() == V && hotTile == old(hotTile)
        invariant ReadUpTo(L, roi, s, V, Zero(), B, buf[..], bufy, BandEnd(L, roi, bufy), bufx, bufy, bufx)
        invariant Locks(U) == old(Locks(U))
        decreases roi.width - bufx
      {
        bufx := ReadBlock(roi, buf, s, bufy, bufx, V, B);
      }
      BandFinish(L, roi, s, V, Zero(), B, buf[..], bufy, bufx);
    }

    /** gegl_buffer_iterate reading the roi into the caller's buffer buf,
        whose rows are s pixels apart, at level 0 and in the buffer's own
        format: every cell of the roi's rows holds ReadAt, and the rest of
        buf is left as it was; no tile's contents change. */
    method IterateRead(roi: Rect, buf: array<Pixel>, s: int)
      requires Valid() && Apart(buf) && roi.width >= 0 && s >= roi.width && roi.height * s <= buf.Length
      modifies buf, storage`voided, source`requests, U`lock, U`rev, U`data, U`nextShared, U`prevShared, U`Ring
      ensures Valid() && View() == old(View()) && Apart(buf) && hotTile == old(hotTile)
      ensures forall j, i :: 0 <= j < roi.height && 0 <= i < s ==>
        At(buf[..], s, i, j) == ReadAt(Geometry(), roi, s, old(View()), Zero(), old(buf[..]), i, j)
      ensures forall n :: 0 <= n && roi.height * s <= n < buf.Length ==> buf[n] == old(buf[n])
      ensures Locks(U) == old(Locks(U))
    {
      var L := Geometry();
      ghost var V, B := View(), buf[..];
      var th := storage.tileHeight;
      var bufy := 0;
      while bufy < roi.height
        invariant BandStart(L, roi, bufy)
        invariant Valid() && Apart(buf) && View() == V && hotTile == old(hotTile)
        invariant ReadUpTo(L, roi, s, V, Zero(), B, buf[..], bufy, 0, 0, 0, 0)
        invariant Locks(U) == old(Locks(U))
        decreases roi.height - bufy
      {
        ReadBand(roi, buf, s, bufy, V, B);
        var offy := TileOffset(roi.y + shiftY + bufy, th);
        NextTileStart(roi.y + shiftY + bufy, th);
        Decompose(roi.y + shiftY + bufy, th);
        bufy := bufy + (th - offy);
      }
    }

    // -------------------------------------------------------------------
    // gegl_buffer_iterate, writing, level 0, in the buffer's own format

    /** What the writing of one block fixes: its place in the roi, its tile
        k, present in the source, and the clamped lskip and rskip. */
    ghost predicate WriteCtx(roi: Rect, s: int, bufy: int, bufx: int, k: TileKey, lskip: int, rskip: int, V0: View)
    {
      && InBlock(Geometry(), roi, s, bufy, bufx) && ViewOk(Geometry(), V0)
      && k == BlockKey(Geometry(), roi, bufy, bufx) && k in source.tiles && k in V0
      && lskip == LSkip(Geometry(), roi, bufx) && rskip == RSkip(Geometry(), roi, bufx)
    }

    /** memcpy into a tile's buffer d: its n pixels from offset toff on take
        the caller's cells from position p on. */
    method StoreRun(d: array<Pixel>, toff: int, buf: array<Pixel>, p: int, n: int)
      requires d != buf && 0 <= p && 0 <= n && p + n <= buf.Length && 0 <= toff && toff + n <= d.Length
      modifies d
      ensures forall q :: 0 <= q < d.Length ==> d[q] == if toff <= q < toff + n then buf[p + q - toff] else old(d[q])
    {
      var m := 0;
      while m < n
        invariant 0 <= m <= n
        invariant forall q :: 0 <= q < d.Length ==> d[q] == if toff <= q < toff + m then buf[p + q - toff] else old(d[q])
      {
        d[toff + m] := buf[p + m];
        m := m + 1;
      }
    }

    /** One row of a locked, present tile whose buffer is d: when the row
        lies inside the abyss, the pixels between lskip and rskip go into
        the tile. W0 is the view with d in tile k's place. */
    method WriteBlockRow(roi: Rect, d: array<Pixel>, buf: array<Pixel>, s: int, bufy: int, bufx: int, y: int,
                         k: TileKey, pixels: int, lskip: int, rskip: int,
                         ghost V0: View, ghost B: seq<Pixel>, ghost W0: View)
      requires d != buf && buf[..] == B && roi.height * s <= buf.Length
      requires WriteCtx(roi, s, bufy, bufx, k, lskip, rskip, V0) && InBand(Geometry(), roi, bufy, y)
      requires pixels == Pixels(Geometry(), roi, bufx) && W0.Keys == V0.Keys && k in W0
      requires WriteUpTo(Geometry(), roi, s, V0, B, W0[k := d[..]], bufy, BandEnd(Geometry(), roi, bufy), bufx,
                         y, BlockEnd(Geometry(), roi, bufx))
      modifies d
      ensures WriteUpTo(Geometry(), roi, s, V0, B, W0[k := d[..]], bufy, BandEnd(Geometry(), roi, bufy), bufx,
                        y + 1, BlockEnd(Geometry(), roi, bufx))
    {
      var L := Geometry();
      BlockBounds(L, roi, s, bufy, bufx, y);
      RowsBelow(s, y, roi.height);
      SkipsFit(L, roi, bufx);
      var rowIn := roi.y + shiftY + y >= abyss.y + shiftY && roi.y + shiftY + y < abyss.y + shiftY + abyss.height;
      var toff := TileOff(L, roi, bufy, bufx, y);
      ghost var t := d[..];
      if rowIn {
        StoreRun(d, toff + lskip, buf, y * s + bufx + lskip, pixels - lskip - rskip);
      }
      StoredRow(L, roi, s, B, t, d[..], bufy, bufx, y, rowIn);
      WriteRowStep(L, roi, s, V0, B, W0[k := t], W0[k := d[..]], bufy, bufx, y);
    }

    /** The rows of a present tile whose buffer is d. */
    method WriteBlockRows(roi: Rect, d: array<Pixel>, buf: array<Pixel>, s: int, bufy: int, bufx: int, k: TileKey,
                          lskip: int, rskip: int, ghost V0: View, ghost B: seq<Pixel>, ghost W0: View)
      requires d != buf && buf[..] == B && roi.height * s <= buf.Length
      requires WriteCtx(roi, s, bufy, bufx, k, lskip, rskip, V0) && W0.Keys == V0.Keys && k in W0
      requires WriteUpTo(Geometry(), roi, s, V0, B, W0[k := d[..]], bufy, BandEnd(Geometry(), roi, bufy), bufx,
                         bufy, bufx)
      modifies d
      ensures WriteUpTo(Geometry(), roi, s, V0, B, W0[k := d[..]], bufy, BandEnd(Geometry(), roi, bufy),
                        BlockEnd(Geometry(), roi, bufx), bufy, bufx)
    {
      var L := Geometry();
      var tw, th := storage.tileWidth, storage.tileHeight;
      var offy := TileOffset(roi.y + shiftY + bufy, th);
      var offx := TileOffset(roi.x + shiftX + bufx, tw);
      var pixels := if roi.width + offx - bufx < tw then roi.width - bufx else tw - offx;
      WriteBlockBegin(L, roi, s, V0, B, W0[k := d[..]], bufy, bufx);
      var row, y := offy, bufy;
      while row < th && y < roi.height
        invariant bufy <= y <= roi.height && row == offy + (y - bufy) && row <= th
        invariant WriteUpTo(L, roi, s, V0, B, W0[k := d[..]], bufy, BandEnd(L, roi, bufy), bufx, y, BlockEnd(L, roi, bufx))
      {
        WriteBlockRow(roi, d, buf, s, bufy, bufx, y, k, pixels, lskip, rskip, V0, B, W0);
        row, y := row + 1, y + 1;
      }
      WriteBlockEnd(L, roi, s, V0, B, W0[k := d[..]], bufy, bufx, y);
    }

    /** The rows of a present tile, locked for writing by the caller, go
        into its buffer; no other tile changes. */
    method StoreBlock(roi: Rect, buf: array<Pixel>, s: int, bufy: int, bufx: int, k: TileKey,
                      lskip: int, rskip: int, ghost V0: View, ghost B: seq<Pixel>)
      requires Valid() && Apart(buf) && buf[..] == B && roi.height * s <= buf.Length
      requires WriteCtx(roi, s, bufy, bufx, k, lskip, rskip, V0) && V0.Keys == source.tiles.Keys
      requires WriteUpTo(Geometry(), roi, s, V0, B, View(), bufy, BandEnd(Geometry(), roi, bufy), bufx,
                         bufy, bufx)
      modifies source.tiles[k].data
      ensures Valid() && Apart(buf)
      ensures WriteUpTo(Geometry(), roi, s, V0, B, View(), bufy, BandEnd(Geometry(), roi, bufy),
                        BlockEnd(Geometry(), roi, bufx), bufy, bufx)
    {
      assert TileOk(k);
      var d := source.tiles[k].data;
      forall k2 | k2 in source.tiles && k2 != k ensures source.tiles[k2].data != d {
        assert DataApart();
      }
      ghost var W0 := View();
      assert W0[k := d[..]] == W0;
      WriteBlockRows(roi, d, buf, s, bufy, bufx, k, lskip, rskip, V0, B, W0);
      ViewUpdate(k);
      KeepsValid(k);
    }

    /** gegl_tile_lock for writing, the rows of the tile, gegl_tile_unlock. */
    method WriteTile(roi: Rect, buf: array<Pixel>, s: int, bufy: int, bufx: int, k: TileKey,
                     lskip: int, rskip: int, ghost V0: View, ghost B: seq<Pixel>)
      requires Valid() && Apart(buf) && buf[..] == B && roi.height * s <= buf.Length
      requires WriteCtx(roi, s, bufy, bufx, k, lskip, rskip, V0) && V0.Keys == source.tiles.Keys
      requires WriteUpTo(Geometry(), roi, s, V0, B, View(), bufy, BandEnd(Geometry(), roi, bufy), bufx,
                         bufy, bufx)
      modifies storage`voided, Arrays(), U`lock, U`rev, U`data, U`nextShared, U`prevShared, U`Ring
      ensures Valid() && Apart(buf) && hotTile == old(hotTile)
      ensures WriteUpTo(Geometry(), roi, s, V0, B, View(), bufy, BandEnd(Geometry(), roi, bufy),
                        BlockEnd(Geometry(), roi, bufx), bufy, bufx)
      ensures forall k2 :: k2 in source.tiles ==>
        source.tiles[k2].data == old(source.tiles[k2].data) || fresh(source.tiles[k2].data)
      ensures Locks(U) == old(Locks(U))
    {
      ghost var W := View();
      LockAt(k);
      assert View() == W;
      WriteLocked(roi, buf, s, bufy, bufx, k, lskip, rskip, V0, B);
      assert forall u :: u in U && u != source.tiles[k] ==> u.lock == old(u.lock);
      CharRoundTrip(old(source.tiles[k].lock));
      LocksKept(U);
    }

    /** The rows of a locked tile, then gegl_tile_unlock. */
    method WriteLocked(roi: Rect, buf: array<Pixel>, s: int, bufy: int, bufx: int, k: TileKey,
                       lskip: int, rskip: int, ghost V0: View, ghost B: seq<Pixel>)
      requires Valid() && Apart(buf) && buf[..] == B && roi.height * s <= buf.Length
      requires WriteCtx(roi, s, bufy, bufx, k, lskip, rskip, V0) && V0.Keys == source.tiles.Keys
      requires WriteUpTo(Geometry(), roi, s, V0, B, View(), bufy, BandEnd(Geometry(), roi, bufy), bufx,
                         bufy, bufx)
      modifies storage`voided, source.tiles[k].data, TileAt(k)`lock, TileAt(k)`rev
      ensures Valid() && Apart(buf)
      ensures WriteUpTo(Geometry(), roi, s, V0, B, View(), bufy, BandEnd(Geometry(), roi, bufy),
                        BlockEnd(Geometry(), roi, bufx), bufy, bufx)
      ensures forall k2 :: k2 in source.tiles ==> source.tiles[k2].data == old(source.tiles[k2].data)
      ensures source.tiles[k].lock == CharAdd(old(source.tiles[k].lock), -1)
    {
      StoreBlock(roi, buf, s, bufy, bufx, k, lskip, rskip, V0, B);
      ghost var W := View();
      UnlockAt(k);
      assert View() == W;
    }

    /** One block of the row walk when writing: nothing when the block lies
        wholly in the abyss or the source has no tile there, and otherwise
        the rows of the tile. */
    method WriteBlock(roi: Rect, buf: array<Pixel>, s: int, bufy: int, bufx: int, ghost V0: View, ghost B: seq<Pixel>)
      returns (next: int)
      requires Valid() && Apart(buf) && buf[..] == B && roi.height * s <= buf.Length && ViewOk(Geometry(), V0)
      requires V0.Keys == source.tiles.Keys && InBlock(Geometry(), roi, s, bufy, bufx)
      requires WriteUpTo(Geometry(), roi, s, V0, B, View(), bufy, BandEnd(Geometry(), roi, bufy), bufx,
                         bufy, bufx)
      modifies storage`voided, source`requests, Arrays(), U`lock, U`rev, U`data, U`nextShared, U`prevShared, U`Ring
      ensures Valid() && Apart(buf) && hotTile == old(hotTile)
      ensures next == BlockEnd(Geometry(), roi, bufx) && next > bufx && BlockStart(Geometry(), roi, next)
      ensures WriteUpTo(Geometry(), roi, s, V0, B, View(), bufy, BandEnd(Geometry(), roi, bufy), next, bufy, next)
      ensures forall k2 :: k2 in source.tiles ==>
        source.tiles[k2].data == old(source.tiles[k2].data) || fresh(source.tiles[k2].data)
      ensures Locks(U) == old(Locks(U))
    {
      var L := Geometry();
      var tw, th := storage.tileWidth, storage.tileHeight;
      var tiledx, tiledy := roi.x + shiftX + bufx, roi.y + shiftY + bufy;
      var offx := TileOffset(tiledx, tw);
      var pixels := if roi.width + offx - bufx < tw then roi.width - bufx else tw - offx;
      var ax, axT := abyss.x + shiftX, abyss.x + shiftX + abyss.width;
      Decompose(tiledx, tw);
      RunFacts(roi.x + shiftX, bufx, bufx, tw);
      assert pixels == Pixels(L, roi, bufx);
      if !(tiledx + tw >= ax && tiledx < axT) {
        WriteSkipBlock(L, roi, s, V0, B, View(), bufy, bufx);
      } else {
        FetchWriteBlock(roi, buf, s, bufy, bufx, pixels, V0, B);
      }
      NextBlock(L, roi, bufx);
      WriteNextBlock(L, roi, s, V0, B, View(), bufy, BlockEnd(L, roi, bufx), bufx);
      next := bufx + (tw - offx);
    }

    /** A block not wholly in the abyss: fetch its tile, then write it. */
    method FetchWriteBlock(roi: Rect, buf: array<Pixel>, s: int, bufy: int, bufx: int, pixels: int, ghost V0: View, ghost B: seq<Pixel>)
      requires Valid() && Apart(buf) && buf[..] == B && roi.height * s <= buf.Length && ViewOk(Geometry(), V0)
      requires V0.Keys == source.tiles.Keys && InBlock(Geometry(), roi, s, bufy, bufx)
      requires pixels == Pixels(Geometry(), roi, bufx)
      requires WriteUpTo(Geometry(), roi, s, V0, B, View(), bufy, BandEnd(Geometry(), roi, bufy), bufx,
                         bufy, bufx)
      modifies storage`voided, source`requests, Arrays(), U`lock, U`rev, U`data, U`nextShared, U`prevShared, U`Ring
      ensures Valid() && Apart(buf) && hotTile == old(hotTile)
      ensures WriteUpTo(Geometry(), roi, s, V0, B, View(), bufy, BandEnd(Geometry(), roi, bufy),
                        BlockEnd(Geometry(), roi, bufx), bufy, bufx)
      ensures forall k2 :: k2 in source.tiles ==>
        source.tiles[k2].data == old(source.tiles[k2].data) || fresh(source.tiles[k2].data)
      ensures Locks(U) == old(Locks(U))
    {
      var tw, th := storage.tileWidth, storage.tileHeight;
      var tiledx, tiledy := roi.x + shiftX + bufx, roi.y + shiftY + bufy;
      var ax, axT := abyss.x + shiftX, abyss.x + shiftX + abyss.width;
      var lskip := Clamp(ax - tiledx, pixels);
      var rskip := Clamp(tiledx + pixels - axT, pixels);
      var k := TileKey(TileIndex(tiledx, tw), TileIndex(tiledy, th), 0);
      assert k == BlockKey(Geometry(), roi, bufy, bufx);
      assert k in source.tiles ==> WriteCtx(roi, s, bufy, bufx, k, lskip, rskip, V0);
      var tile := source.GetTile(TileIndex(tiledx, tw), TileIndex(tiledy, th), 0);
      if tile == null {
        WriteSkipBlock(Geometry(), roi, s, V0, B, View(), bufy, bufx);
        return;
      }
      WriteTile(roi, buf, s, bufy, bufx, k, lskip, rskip, V0, B);
    }

    /** One band of the row walk when writing: nothing when it lies wholly
        in the abyss, else its blocks from left to right. */
    method WriteBand(roi: Rect, buf: array<Pixel>, s: int, bufy: int, ghost V0: View, ghost B: seq<Pixel>)
      returns (next: int)
      requires Valid() && Apart(buf) && buf[..] == B && s >= roi.width >= 0 && roi.height * s <= buf.Length && ViewOk(Geometry(), V0)
      requires V0.Keys == source.tiles.Keys && BandStart(Geometry(), roi, bufy) && bufy < roi.height
      requires WriteUpTo(Geometry(), roi, s, V0, B, View(), bufy, 0, 0, 0, 0)
      modifies storage`voided, source`requests, Arrays(), U`lock, U`rev, U`data, U`nextShared, U`prevShared, U`Ring
      ensures Valid() && Apart(buf) && hotTile == old(hotTile)
      ensures next == BandEnd(Geometry(), roi, bufy) && next > bufy && BandStart(Geometry(), roi, next)
      ensures WriteUpTo(Geometry(), roi, s, V0, B, View(), next, 0, 0, 0, 0)
      ensures forall k2 :: k2 in source.tiles ==>
        source.tiles[k2].data == old(source.tiles[k2].data) || fresh(source.tiles[k2].data)
      ensures Locks(U) == old(Locks(U))
    {
      var th := storage.tileHeight;
      var tiledy := roi.y + shiftY + bufy;
      Decompose(tiledy, th);
      RunFacts(roi.y + shiftY, bufy, bufy, th);
      if !(tiledy + th >= abyss.y + shiftY && tiledy < abyss.y + shiftY + abyss.height) {
        WriteSkipBand(Geometry(), roi, s, V0, B, View(), bufy);
      } else {
        WriteBlocks(roi, buf, s, bufy, V0, B);
      }
      NextBand(Geometry(), roi, bufy);
      next := bufy + (th - TileOffset(tiledy, th));
    }

    /** The blocks of a band not wholly in the abyss, from left to right. */
    method WriteBlocks(roi: Rect, buf: array<Pixel>, s: int, bufy: int, ghost V0: View, ghost B: seq<Pixel>)
      requires Valid() && Apart(buf) && buf[..] == B && s >= roi.width >= 0 && roi.height * s <= buf.Length && ViewOk(Geometry(), V0)
      requires V0.Keys == source.tiles.Keys && BandStart(Geometry(), roi, bufy) && bufy < roi.height
      requires !BandSkipped(Geometry(), roi, bufy)
      requires WriteUpTo(Geometry(), roi, s, V0, B, View(), bufy, 0, 0, 0, 0)
      modifies storage`voided, source`requests, Arrays(), U`lock, U`rev, U`data, U`nextShared, U`prevShared, U`Ring
      ensures Valid() && Apart(buf) && hotTile == old(hotTile)
      ensures WriteUpTo(Geometry(), roi, s, V0, B, View(), BandEnd(Geometry(), roi, bufy), 0, 0, 0, 0)
      ensures forall k2 :: k2 in source.tiles ==>
        source.tiles[k2].data == old(source.tiles[k2].data) || fresh(source.tiles[k2].data)
      ensures Locks(U) == old(Locks(U))
    {
      var L := Geometry();
      WriteBandBegin(L, roi, s, V0, B, View(), bufy);
      var bufx := 0;
      while bufx < roi.width
        invariant BlockStart(L, roi, bufx)
        invariant Valid() && Apart(buf) && hotTile == old(hotTile)
        invariant WriteUpTo(L, roi, s, V0, B, View(), bufy, BandEnd(L, roi, bufy), bufx, bufy, bufx)
        invariant forall k2 :: k2 in source.tiles ==>
          source.tiles[k2].data == old(source.tiles[k2].data) || fresh(source.tiles[k2].data)
        invariant Locks(U) == old(Locks(U))
        decreases roi.width - bufx
      {
        bufx := WriteBlock(roi, buf, s, bufy, bufx, V0, B);
      }
      WriteBandFinish(L, roi, s, V0, B, View(), bufy, bufx);
    }

    /** gegl_buffer_iterate writing the roi from the caller's buffer buf,
        whose rows are s pixels apart, at level 0 and in the buffer's own
        format: afterwards every tile holds WriteView of its old contents. */
    method IterateWrite(roi: Rect, buf: array<Pixel>, s: int)
      requires Valid() && Apart(buf) && roi.width >= 0 && s >= roi.width && roi.height * s <= buf.Length
      modifies storage`voided, source`requests, Arrays(), U`lock, U`rev, U`data, U`nextShared, U`prevShared, U`Ring
      ensures Valid() && Apart(buf) && hotTile == old(hotTile)
      ensures View() == WriteView(Geometry(), roi, s, old(View()), buf[..])
      ensures Locks(U) == old(Locks(U))
    {
      var L := Geometry();
      ViewIsOk();
      ghost var V0, B := View(), buf[..];
      var bufy := 0;
      while bufy < roi.height
        invariant BandStart(L, roi, bufy)
        invariant Valid() && Apart(buf) && hotTile == old(hotTile)
        invariant WriteUpTo(L, roi, s, V0, B, View(), bufy, 0, 0, 0, 0)
        invariant forall k2 :: k2 in source.tiles ==>
          source.tiles[k2].data == old(source.tiles[k2].data) || fresh(source.tiles[k2].data)
        invariant Locks(U) == old(Locks(U))
        decreases roi.height - bufy
      {
        bufy := WriteBand(roi, buf, s, bufy, V0, B);
      }
      WriteFinish(L, roi, s, V0, B, View(), bufy);
    }

    // -------------------------------------------------------------------
    // gegl_buffer_set and gegl_buffer_get at scale 1

    /** The rectangle a rect argument stands for: NULL means the extent. */
    function Region(rect: Option<Rect>): Rect
    {
      if rect.Some? then rect.value else extent
    }

    /** gegl_buffer_set in the buffer's own format: a 1x1 rect takes the
        pixel path, any other rect (NULL meaning the extent) the bulk write;
        a shared buffer is flushed afterwards. `shared` is the answer of
        gegl_buffer_is_shared, which is not part of this model. */
    method Set(rect: Option<Rect>, format: Option<Format>, src: array<Pixel>, rowstride: int, shared: bool)
      requires Valid() && Apart(src) && NativeFormat(format, this.format)
      requires IsPixel(rect) ==> src.Length >= 1
      requires !IsPixel(rect) ==>
        Region(rect).width >= 0 && Stride(Region(rect), rowstride) >= Region(rect).width &&
        Region(rect).height * Stride(Region(rect), rowstride) <= src.Length
      modifies this`hotTile, source`requests, storage`voided, Arrays()
      modifies U`lock, U`rev, U`data, U`nextShared, U`prevShared, U`Ring
      ensures Valid() && Apart(src)
      ensures IsPixel(rect) ==>
        View() == PixelWrite(Geometry(), old(View()), rect.value.x + shiftX, rect.value.y + shiftY, old(src[0]))
      ensures !IsPixel(rect) ==>
        View() == WriteView(Geometry(), Region(rect), Stride(Region(rect), rowstride), old(View()), old(src[..]))
      ensures shared ==> hotTile == null
      ensures !shared && !IsPixel(rect) ==> hotTile == old(hotTile)
      ensures Locks(U) == old(Locks(U))
    {
      ghost var B := src[..];
      SetRect(rect, src, rowstride, B);
      if shared {
        Flush();
      }
    }

    /** The dispatch of gegl_buffer_set, before the flush. */
    method SetRect(rect: Option<Rect>, src: array<Pixel>, rowstride: int, ghost B: seq<Pixel>)
      requires Valid() && Apart(src) && src[..] == B
      requires IsPixel(rect) ==> src.Length >= 1
      requires !IsPixel(rect) ==>
        Region(rect).width >= 0 && Stride(Region(rect), rowstride) >= Region(rect).width &&
        Region(rect).height * Stride(Region(rect), rowstride) <= src.Length
      modifies this`hotTile, source`requests, storage`voided, Arrays()
      modifies U`lock, U`rev, U`data, U`nextShared, U`prevShared, U`Ring
      ensures Valid() && Apart(src)
      ensures IsPixel(rect) ==>
        View() == PixelWrite(Geometry(), old(View()), rect.value.x + shiftX, rect.value.y + shiftY, B[0])
      ensures !IsPixel(rect) ==>
        View() == WriteView(Geometry(), Region(rect), Stride(Region(rect), rowstride), old(View()), B) &&
        hotTile == old(hotTile)
      ensures Locks(U) == old(Locks(U))
    {
      if rect.Some? && rect.value.width == 1 && rect.value.height == 1 {
        SetPixel(rect.value.x, rect.value.y, src[0]);
      } else {
        var roi := if rect.Some? then rect.value else extent;
        var s := if rowstride != AutoRowstride then rowstride else roi.width;
        IterateWrite(roi, src, s);
      }
    }

    /** gegl_buffer_get at scale 1 in the buffer's own format: a 1x1 rect
        takes the pixel path, a NULL rect reads the extent, a rect without
        pixels writes nothing, any other rect is read in bulk. */
    method Get(rect: Option<Rect>, format: Option<Format>, dest: array<Pixel>, rowstride: int)
      requires Valid() && Apart(dest) && NativeFormat(format, this.format)
      requires IsPixel(rect) ==> dest.Length >= 1
      requires !IsPixel(rect) && !IsEmpty(rect) ==>
        Region(rect).width >= 0 && Stride(Region(rect), rowstride) >= Region(rect).width &&
        Region(rect).height * Stride(Region(rect), rowstride) <= dest.Length
      modifies dest, this`hotTile, source`requests, storage`voided
      modifies U`lock, U`rev, U`data, U`nextShared, U`prevShared, U`Ring
      ensures Valid() && View() == old(View()) && Apart(dest)
      ensures IsPixel(rect) ==>
        dest[0] == PixelRead(Geometry(), old(View()), Zero(), old(dest[0]), rect.value.x + shiftX, rect.value.y + shiftY) &&
        dest[1..] == old(dest[1..])
      ensures IsEmpty(rect) ==>
        dest[..] == old(dest[..]) && hotTile == old(hotTile) && source.requests == old(source.requests)
      ensures !IsPixel(rect) && !IsEmpty(rect) ==>
        hotTile == old(hotTile) &&
        (forall j, i :: 0 <= j < Region(rect).height && 0 <= i < Stride(Region(rect), rowstride) ==>
          At(dest[..], Stride(Region(rect), rowstride), i, j) ==
          ReadAt(Geometry(), Region(rect), Stride(Region(rect), rowstride), old(View()), Zero(), old(dest[..]), i, j)) &&
        (forall n :: 0 <= n && Region(rect).height * Stride(Region(rect), rowstride) <= n < dest.Length ==>
          dest[n] == old(dest[n]))
      ensures Locks(U) == old(Locks(U))
    {
      if rect.Some? && rect.value.width == 1 && rect.value.height == 1 {
        GetPixel(rect.value.x, rect.value.y, dest);
        return;
      }
      if rect.None? {
        IterateRead(extent, dest, if rowstride != AutoRowstride then rowstride else extent.width);
        return;
      }
      if rect.value.width == 0 || rect.value.height == 0 {
        return;
      }
      IterateRead(rect.value, dest, if rowstride != AutoRowstride then rowstride else rect.value.width);
    }
  }
}
