/** The tile grid: a pixel at tiled coordinates (c, r) lives in tile
    (gegl_tile_index (c, tile_width), gegl_tile_index (r, tile_height), 0)
    at linear offset offsety * tile_width + offsetx, the addressing that
    gegl_buffer_get_pixel, gegl_buffer_set_pixel and gegl_buffer_iterate use
    for tile data (row-major, tile_width pixels per row). */
module TileGrid {
  import opened TileCoords
  import opened Tiles

  /** GeglRectangle. */
  datatype Rect = Rect(x: int, y: int, width: int, height: int)

  /** A pointer argument that may be NULL. */
  datatype Option<T> = None | Some(value: T)

  predicate Contains(r: Rect, x: int, y: int)
  {
    r.x <= x < r.x + r.width && r.y <= y < r.y + r.height
  }

  function Max(a: int, b: int): int { if a >= b then a else b }
  function Min(a: int, b: int): int { if a <= b then a else b }

  /** The level-0 tile holding tiled coordinate (c, r). */
  function KeyAt(c: int, r: int, tw: int, th: int): TileKey
    requires tw > 0 && th > 0
  {
    TileKey(TileIndex(c, tw), TileIndex(r, th), 0)
  }

  /** The offset of tiled coordinate (c, r) in its tile's linear buffer. */
  function OffsetAt(c: int, r: int, tw: int, th: int): int
    requires tw > 0 && th > 0
  {
    TileOffset(r, th) * tw + TileOffset(c, tw)
  }

  /** The tiled column of offset p of tile k. */
  function ColumnOf(k: TileKey, p: int, tw: int): int
    requires tw > 0
  {
    k.x * tw + p % tw
  }

  /** The tiled row of offset p of tile k. */
  function RowOf(k: TileKey, p: int, tw: int, th: int): int
    requires tw > 0 && th > 0
  {
    k.y * th + p / tw
  }

  /** Every offset lies inside the tile's tw * th pixels. */
  lemma OffsetInTile(c: int, r: int, tw: int, th: int)
    requires tw > 0 && th > 0
    ensures 0 <= OffsetAt(c, r, tw, th) < tw * th
  {
    Decompose(c, tw);
    Decompose(r, th);
    var oy := TileOffset(r, th);
    MulLe(oy, th - 1, tw);
    assert (th - 1) * tw == tw * th - tw;
    assert 0 <= oy * tw;
  }

  /** Going from a coordinate to its tile and offset and back is the identity. */
  lemma GridRoundTrip(c: int, r: int, tw: int, th: int)
    requires tw > 0 && th > 0
    ensures ColumnOf(KeyAt(c, r, tw, th), OffsetAt(c, r, tw, th), tw) == c
    ensures RowOf(KeyAt(c, r, tw, th), OffsetAt(c, r, tw, th), tw, th) == r
  {
    Decompose(c, tw);
    Decompose(r, th);
    var p := OffsetAt(c, r, tw, th);
    EuclidUnique(p, tw, TileOffset(r, th), TileOffset(c, tw));
  }

  /** Going from a level-0 tile and an offset inside it to the coordinate
      and back is the identity as well: the grid is a bijection. */
  lemma GridRoundTripBack(k: TileKey, p: int, tw: int, th: int)
    requires tw > 0 && th > 0 && k.z == 0 && 0 <= p < tw * th
    ensures KeyAt(ColumnOf(k, p, tw), RowOf(k, p, tw, th), tw, th) == k
    ensures OffsetAt(ColumnOf(k, p, tw), RowOf(k, p, tw, th), tw, th) == p
  {
    DivModFacts(p, tw);
    var q := p / tw;
    assert q < th by {
      if q >= th {
        MulLe(th, q, tw);
        assert false;
      }
    }
    DecomposeUnique(ColumnOf(k, p, tw), tw, k.x, p % tw);
    DecomposeUnique(RowOf(k, p, tw, th), th, k.y, q);
  }

  /** Moving d pixels along one axis inside a tile keeps the tile index and
      moves the offset by d. */
  lemma SameTile(c: int, d: int, s: int)
    requires s > 0 && 0 <= d && TileOffset(c, s) + d < s
    ensures TileIndex(c + d, s) == TileIndex(c, s)
    ensures TileOffset(c + d, s) == TileOffset(c, s) + d
  {
    Decompose(c, s);
    DecomposeUnique(c + d, s, TileIndex(c, s), TileOffset(c, s) + d);
  }

  /** A coordinate at a tile boundary has offset 0. */
  lemma AlignedOffset(c: int, s: int)
    requires s > 0 && c == TileIndex(c, s) * s
    ensures TileOffset(c, s) == 0
  {
    Decompose(c, s);
  }

  /** The coordinate c + s - TileOffset(c, s), where each scan step of the
      iterate and cursor loops lands, is the start of the next tile. */
  lemma NextTileStart(c: int, s: int)
    requires s > 0
    ensures TileIndex(c + s - TileOffset(c, s), s) == TileIndex(c, s) + 1
    ensures TileOffset(c + s - TileOffset(c, s), s) == 0
    ensures c + s - TileOffset(c, s) == (TileIndex(c, s) + 1) * s
  {
    Decompose(c, s);
    DecomposeUnique(c + s - TileOffset(c, s), s, TileIndex(c, s) + 1, 0);
  }
}
