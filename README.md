# GEGL tile buffer core, modelled in Dafny

This project models the core of GEGL's tiled pixel buffers (the `jonnor/gegl`
tree). A buffer is stored as a grid of fixed-size tiles. Each tile is a linear
pixel buffer with a lock count, revision counters and a copy-on-write ring of
tiles that share one buffer. The modules follow the source files:

- `TileCoords` (`tile_coords.dfy`): the `GEGL_REMAINDER`, `gegl_tile_offset`
  and `gegl_tile_index` macros of `gegl-tile.h`, with C's truncating division
  written out. Proved: the macros are floor division and its non-negative
  remainder, also for negative coordinates.
- `TileGrid` (`tile_grid.dfy`): a tiled coordinate maps to a tile key and an
  offset in that tile's buffer, and back; this is the addressing that
  `gegl-buffer-access.c` uses.
- `Tiles` (`tile.dfy`): `gegl-tile.c`.
  - `Tile` is a class whose fields the methods update in place.
  - The copy-on-write ring is the `nextShared`/`prevShared` pointers.
  - A ghost `Ring` sequence and the `World` invariant state that every tile of
    a ring shares one buffer of one size, and that the rings of a set of tiles
    are closed.
  - `TileStorage` records the `gegl_tile_source_void` and `set_tile` requests
    a tile sends.
- `BufferAccess` (`buffer_access.dfy`): `gegl-buffer-access.c`.
  - Covered: the abyss test, the single-pixel paths with their hot-tile cache,
    and the bulk `gegl_buffer_iterate` read and write loops with their abyss
    zeroing.
  - Also covered: `gegl_buffer_set`, `gegl_buffer_get` at scale 1, flush and
    the sampler cache.
  - The loops are methods over the buffer's tiles. They are proved against two
    functions: `ReadAt`, which says what each cell of the caller's buffer
    holds after a read, and `WriteView`, which says what each tile holds after
    a write.
- `BufferIterator` (`buffer_iterator.dfy`): `gegl-buffer-iterator.c`.
  - The scan-compatibility test.
  - The per-buffer tile cursor (`gegl_buffer_tile_iterator_next`), proved to
    hand out pieces that partition the region of interest in row-major order.
  - The scratch-buffer pool.
  - The multi-buffer iterator (`add`, `next`, write-back and finish), with
    cursors that stay in step.
- `BufferOps` (`buffer_ops.dfy`): `gegl_buffer_clear` and `gegl_buffer_copy`,
  as loops over the multi-buffer iterator.

Pixels are values of type `Pixel` (`seq<byte>`). Buffers are arrays of pixels,
so sizes and rowstrides count pixels rather than bytes. The source's integer
widths are written out where they matter: `guint` revisions wrap at 2^32 and
the `gchar` lock count wraps within [-128, 127].

## Model

| member | source | states |
|---|---|---|
| TileCoords.IndexOffsetEuclid | gegl/buffer/gegl-tile.h:115-128 | The index and offset macros equal floor division and the non-negative (Euclidean) remainder, for every coordinate. |
| TileCoords.Decompose | gegl/buffer/gegl-tile.h:115-128 | index * stride + offset gives back the coordinate, and 0 <= offset < stride, also for negative coordinates. |
| TileCoords.IndexIsFloor | gegl/buffer/gegl-tile.h:125-128 | The index is the tile whose span [index*s, index*s + s) contains the coordinate. |
| TileCoords.DecomposeUnique | gegl/buffer/gegl-tile.h:115-128 | Any split q*s + r of the coordinate with 0 <= r < s is the one the macros compute. |
| TileCoords.NegativeIndexIsFloor | gegl/buffer/gegl-tile.h:125-128 | For negative coordinates the index is floor(c/s); it differs from plain C division exactly when s does not divide c. |
| TileCoords.NonNegativeCoordinates | gegl/buffer/gegl-tile.h:115-128 | For coordinates >= 0 the macros agree with C's / and %. |
| TileCoords.ShiftByStride | gegl/buffer/gegl-tile.h:115-128 | Moving one stride on reaches the next tile at the same offset. |
| TileCoords.CDivision | gegl/buffer/gegl-tile.h:115-118 | C division and remainder recompose the dividend, and the remainder of a negative dividend lies in (-s, 0]; the macro's correction is needed for this reason. |
| TileCoords.CDivCompose | gegl/buffer/gegl-tile.c:301-310 | Halving a coordinate level after level with C division equals one C division by 2^k, for negative coordinates too. |
| TileGrid.OffsetInTile | gegl/buffer/gegl-buffer-access.c:176-202 | The in-tile offset offsety*tile_width + offsetx of any pixel lies inside the tile's tile_width*tile_height pixels. |
| TileGrid.GridRoundTrip | gegl/buffer/gegl-buffer-access.c:176-202 | From a coordinate to (tile key, offset) and back gives the same coordinate. |
| TileGrid.GridRoundTripBack | gegl/buffer/gegl-buffer-access.c:176-202 | From a level-0 tile and an offset inside it to the coordinate and back gives the same tile and offset; the addressing is a bijection. |
| TileGrid.SameTile | gegl/buffer/gegl-buffer-access.c:564-576 | A run of pixels that starts at offset o and stays below the stride stays in one tile, at offsets o, o+1, ... |
| TileGrid.NextTileStart | gegl/buffer/gegl-buffer-access.c:719-722 | Advancing by tile_width - offset lands at offset 0 of the next tile. |
| Tiles.UIntInc | gegl/buffer/gegl-tile.c:341-342 | rev++ on a guint adds one, except at 2^32-1, where it wraps to 0. |
| Tiles.CharAdd | gegl/buffer/gegl-tile.c:280-346 | lock++ / lock-- on a gchar add or subtract one within [-128, 127] and wrap at the ends. |
| Tiles.CharRoundTrip | gegl/buffer/gegl-tile.c:280-346 | A lock followed by an unlock restores the lock count, across the gchar wrap too. |
| Tiles.RevCountsReleases | gegl/buffer/gegl-tile.c:280-346 | After any sequence of lock and unlock calls, rev has grown by exactly the number of unlocks that brought the count to 0, modulo 2^32. |
| Tiles.LockUnlockBumps | gegl/buffer/gegl-tile.c:328-346 | An unlocked tile that is locked and unlocked ends unlocked with its revision one higher. |
| Tiles.TileStorage.SourceVoid | gegl/buffer/gegl-tile.c:301-310 | Each gegl_tile_source_void call is appended to the storage's record of void requests. |
| Tiles.TileStorage.SetTile | gegl/buffer/gegl-tile.c:407-411 | gegl_tile_source_set_tile is recorded with its key, and answers whether the backend accepted the tile. |
| Tiles.VoidPyramidFrom | gegl/buffer/gegl-tile.c:301-310 | _gegl_tile_void_pyramid sends exactly the requests PyramidKeys lists, in order. |
| Tiles.PyramidKeysAt | gegl/buffer/gegl-tile.c:301-310 | From level z up to seen_zoom, one key per level; the i-th key is (x/2^i, y/2^i, z+i) in C division. |
| Tiles.PyramidLevels | gegl/buffer/gegl-tile.c:313-325 | For a level-0 tile, the pyramid voids exactly one ancestor per level k = 1..seen_zoom: the tile (x/2^k, y/2^k, k). |
| Tiles.VoidSkipsPyramid | gegl/buffer/gegl-tile.c:313-362 | For a level-0 tile whose storage has seen_zoom >= 1, the pyramid voider has exactly seen_zoom requests to send, the first for (x/2, y/2) at level 1. Tile.VoidCorrected sends all of them, while Tile.Void as written sends none, since it leaves the storage unchanged (see Findings). |
| Tiles.StoreResult | gegl/buffer/gegl-tile.c:402-414 | gegl_tile_store answers TRUE exactly when the tile was already stored, or it has a storage and the storage accepted it. |
| Tiles.Tile.Init | gegl/buffer/gegl-tile.c:185-200 | A tile made by gegl_tile_init has no buffer, revisions 0/0, lock 0, and is alone in its ring. |
| Tiles.Tile.SharedWith | gegl/buffer/gegl-tile.c:203-219 | The tile gegl_tile_dup creates shares the source's buffer, size and storage, with rev = stored_rev = 1 and lock 0. |
| Tiles.Tile.New | gegl/buffer/gegl-tile.c:222-231 | gegl_tile_new gives a fresh private buffer of the requested size; the tile is alone and well formed, with stored_rev 1 and rev 0, so it counts as unstored. |
| Tiles.NewAlone | gegl/buffer/gegl-tile.c:222-231 | A new tile forms a world of its own: its ring is just itself and the World invariant holds. |
| Tiles.Tile.Dup | gegl/buffer/gegl-tile.c:203-219 | The duplicate joins the ring right after the original and shares its buffer, so every member of the old ring sees the new ring. It starts stored, with lock 0, and the world stays well formed. |
| Tiles.Tile.Unclone | gegl/buffer/gegl-tile.c:261-274 | A shared tile leaves its ring with a fresh copy that has the same contents; the rest of the ring keeps the old buffer; a tile alone keeps its buffer; the world stays well formed. |
| Tiles.Tile.Cpy | gegl/buffer/gegl-tile.c:365-381 | dst leaves its own ring and joins this tile's ring right after it, sharing its buffer. Its lock count returns to what it was; when that count is 0, rev is bumped and the pyramid above dst is voided. |
| Tiles.Tile.Swp | gegl/buffer/gegl-tile.c:384-400 | Both tiles are uncloned and then hold each other's former contents, each alone in its ring. |
| Tiles.Tile.Dispose | gegl/buffer/gegl-tile.c:120-151 | An unstored tile is stored first. A tile alone drops its buffer; a shared one is unlinked, so the rest of its ring keeps the buffer and stays a well-formed world without it. |
| Tiles.Tile.Release | gegl/buffer/gegl-tile.c:127-140 | The ring half of dispose: drop the buffer when alone, otherwise bypass the tile so the rest of its ring stays linked. |
| Tiles.Tile.Lock | gegl/buffer/gegl-tile.c:280-298 | The lock count goes up by one (gchar). The tile is uncloned: it is alone afterwards with the same contents, the rest of its old ring keeps the old buffer, and the revisions do not change. |
| Tiles.Tile.Unlock | gegl/buffer/gegl-tile.c:328-346 | The lock count goes down by one (gchar). When it reaches 0, rev is bumped (guint) and the pyramid above a level-0 tile is voided. |
| Tiles.Tile.LockUnlock | gegl/buffer/gegl-tile.c:280-346 | A lock directly followed by an unlock leaves the lock count as it was and the tile alone with unchanged contents; every former ring partner keeps the old buffer (copy-on-write). |
| Tiles.Tile.VoidPyramid | gegl/buffer/gegl-tile.c:313-325 | Only a level-0 tile with a storage whose seen_zoom is set voids anything, and then exactly its ancestors (PyramidAbove). |
| Tiles.Tile.Void | gegl/buffer/gegl-tile.c:356-362 | As written: the tile becomes stored (stored_rev = rev) and loses its storage; because the storage is detached first, no void request is sent at all. |
| Tiles.Tile.VoidCorrected | gegl/buffer/gegl-tile.c:356-362 | As intended: the tile becomes stored and loses its storage, and the storage receives exactly the pyramid ancestors' void requests. |
| Tiles.Tile.Store | gegl/buffer/gegl-tile.c:402-414 | The answer is StoreResult. A set_tile request for the tile's own key is sent exactly when the tile is unstored and has a storage. |
| Tiles.CowSeparation | tests/test-gegl-tile-cow.c:45-80 | Right after gegl_tile_dup the two tiles share a buffer; after a lock/unlock of the duplicate they hold different buffers with the same contents. |
| BufferAccess.PixelWriteRead | gegl/buffer/gegl-buffer-access.c:145-219 | Reading a pixel back after set_pixel gives the pixel written, unless it lies in the abyss (zeros) or has no tile. |
| BufferAccess.PixelWriteIsLocal | gegl/buffer/gegl-buffer-access.c:145-219 | set_pixel changes no other pixel: every other coordinate reads as before. |
| BufferAccess.SetThenGet | gegl/buffer/gegl-buffer-access.c:458-724 | A bulk write of a roi followed by a bulk read gives back the caller's pixel at every cell that is in the abyss rectangle and has a tile. |
| BufferAccess.GetThenSet | gegl/buffer/gegl-buffer-access.c:458-724 | Writing back what a bulk read produced changes no tile. |
| BufferAccess.SkipBandAsWrittenMisses | gegl/buffer/gegl-buffer-access.c:544-558 | With a rowstride wider than the roi, a skipped band below the first starts its zeroing too early and leaves the band's last cell unzeroed (see Findings). |
| BufferAccess.AsWrittenAtAutoRowstride | gegl/buffer/gegl-buffer-access.c:513-558 | With GEGL_AUTO_ROWSTRIDE, the as-written band zeroing clears exactly the band's rows [bufy*width, (bufy+n)*width), as intended. |
| BufferAccess.PixelFastWrite | gegl/buffer/gegl-buffer-access.c:942-975 | A bulk write of a 1x1 roi does exactly what set_pixel does, so the fast path in gegl_buffer_set is a pure shortcut. |
| BufferAccess.PixelFastRead | gegl/buffer/gegl-buffer-access.c:1320-1345 | A bulk read of a 1x1 roi gives what get_pixel gives, whenever the pixel is in the abyss rectangle or has a tile. |
| BufferAccess.PixelFastReadDiffers | gegl/buffer/gegl-buffer-access.c:1320-1345 | The exception is real: for a pixel inside the abyss with no tile, the bulk read leaves the caller's pixel untouched while get_pixel yields zeros. |
| BufferAccess.TileSource.GetTile | gegl/buffer/gegl-buffer-access.c:194-197 | gegl_tile_source_get_tile hands out the tile stored under the key, or NULL, and the request is recorded. |
| BufferAccess.Sampler.Prepare | gegl/buffer/gegl-buffer-access.c:1655-1656 | gegl_sampler_prepare marks the sampler prepared. |
| BufferAccess.Buffer.InAbyssIff | gegl/buffer/gegl-buffer-access.c:123-142 | gegl_buffer_in_abyss is true exactly outside the abyss rectangle, whether tested in buffer coordinates or in tiled ones. |
| BufferAccess.Buffer.HotLookup | gegl/buffer/gegl-buffer-access.c:176-191 | The hot tile is reused when its indices match; otherwise it is dropped and the tile is fetched from the source. Either way the result is the tile of the pixel's key. |
| BufferAccess.Buffer.GetPixel | gegl/buffer/gegl-buffer-access.c:284-362 | The caller's pixel becomes PixelRead (zeros in the abyss, the tile's pixel otherwise) and the rest of the caller's buffer is untouched. No tile's contents change. In the abyss, or with no tile there, no field of any tile and no void request changes, and the abyss path makes no request. Otherwise the lock/unlock pair leaves the tile's lock count as it was; it bumps rev and voids the pyramid above the tile exactly when the count was 0; no other tile's lock or rev moves. Every lock count ends as it began. |
| BufferAccess.Buffer.LoadPixel | gegl/buffer/gegl-buffer-access.c:337-357 | With the pixel's tile present: dest[0] becomes that tile's pixel at the pixel's offset and the rest of dest stays; no tile's contents change; the tile's lock/unlock pair has the effect stated for GetPixel; the tile becomes the hot tile. |
| BufferAccess.Buffer.LoadAt | gegl/buffer/gegl-buffer-access.c:345-355 | The pixel read under the lock is the tile's pixel at that offset. No tile's contents change, the tile's buffer is its old one or a fresh copy, and the lock/unlock pair has the effect stated for GetPixel. |
| BufferAccess.Buffer.SetPixel | gegl/buffer/gegl-buffer-access.c:145-219 | The tiles become PixelWrite of the old tiles: one pixel replaced outside the abyss, nothing in it. Each tile's buffer is the one it had or a fresh copy made by the unclone in gegl_tile_lock. In the abyss, or with no tile there, no field of any tile and no void request changes. Otherwise the lock/unlock pair leaves the tile's lock count as it was, bumps rev and voids the pyramid exactly when the count was 0, and no other tile's lock or rev moves. The tiles that shared the written tile's buffer keep that buffer and its contents (copy-on-write). Every lock count ends as it began. |
| BufferAccess.Buffer.StorePixel | gegl/buffer/gegl-buffer-access.c:199-216 | With the pixel's tile present: the tiles become PixelWrite of the old tiles; the lock/unlock pair and the copy-on-write partners behave as stated for SetPixel; the tile becomes the hot tile. |
| BufferAccess.Buffer.StoreAt | gegl/buffer/gegl-buffer-access.c:205-214 | Under the lock the tile's pixel at offset becomes px and no other pixel of any tile changes. The former sharers of its buffer keep that buffer and its contents, and the lock/unlock pair has the effect stated for SetPixel. |
| Tiles.Tile.LockedLoad | gegl/buffer/gegl-tile.c:280-346 | A lock, a read at offset and an unlock: the pixel read is the old one, the contents stay, the buffer is the old one or a fresh copy. The lock count returns; rev is bumped and the pyramid above the tile voided exactly when the count was 0; stored_rev, the storage and every other tile's lock and rev stay. |
| Tiles.Tile.LockedStore | gegl/buffer/gegl-tile.c:280-346 | A lock, a store of px at offset and an unlock: the tile's contents are the old ones with that pixel replaced. The former ring partners keep the old buffer and its old contents. The counters change as for LockedLoad. |
| BufferAccess.Buffer.Flush | gegl/buffer/gegl-buffer-access.c:434-453 | The hot tile is dropped and no tile contents change. |
| BufferAccess.Buffer.Sample | gegl/buffer/gegl-buffer-access.c:1618-1669 | A kept sampler of the desired class is reused; otherwise a new one of that class for the buffer's format is created and prepared. |
| BufferAccess.Buffer.SampleCleanup | gegl/buffer/gegl-buffer-access.c:1672-1681 | The kept sampler is dropped. |
| BufferAccess.Buffer.SkipBand | gegl/buffer/gegl-buffer-access.c:544-558 | Corrected band zeroing: every row of a band wholly outside the abyss is zeros across the full rowstride, starting at the band's own row. |
| BufferAccess.Buffer.SkipBandAsWritten | gegl/buffer/gegl-buffer-access.c:544-558 | The band zeroing as written: the memsets start at bufy*width, not bufy*rowstride, and exactly the cells ZeroedAsWritten lists become zeros. |
| BufferAccess.Buffer.IterateRead | gegl/buffer/gegl-buffer-access.c:458-724 | After the read loop every cell of the roi's rows holds ReadAt: zeros in abyss bands, blocks and margins; the tile's pixel where a tile exists; the old value where none does. Cells past the roi are untouched, no tile's contents change, and every tile's lock count ends as it began. |
| BufferAccess.Buffer.IterateWrite | gegl/buffer/gegl-buffer-access.c:458-724 | After the write loop the tiles equal WriteView of the old tiles: every roi cell inside the abyss rectangle with a tile holds the caller's pixel, and no other pixel changes. Every tile's lock count ends as it began. |
| BufferAccess.Buffer.ReadTile | gegl/buffer/gegl-buffer-access.c:620-717 | The block of the tile is read into the caller's cells under a lock, and the unlock brings every tile's lock count back to where it was. |
| BufferAccess.Buffer.WriteTile | gegl/buffer/gegl-buffer-access.c:620-717 | The block of the caller's cells is written into the tile under a lock; each tile's buffer is its old one or a fresh copy, and every tile's lock count ends as it began. |
| BufferAccess.Buffer.Set | gegl/buffer/gegl-buffer-access.c:942-975 | A 1x1 rect becomes PixelWrite; any other rect, NULL meaning the extent, becomes WriteView with the auto or given rowstride. A shared buffer ends with no hot tile. Every tile's lock count ends as it began. |
| BufferAccess.Buffer.Get | gegl/buffer/gegl-buffer-access.c:1320-1370 | A 1x1 rect gives PixelRead; a rect without pixels leaves the caller's buffer and the cache untouched; any other rect, or NULL for the extent, gives ReadAt in every cell of its rows. No tile's contents change, and every tile's lock count ends as it began. |
| BufferIterator.ScanCompatibleIff | gegl/buffer/gegl-buffer-iterator.c:97-125 | The abs/% test is what its comment's pseudo-code says: equal tile sizes, and both starting points at the same tile offset in x and in y. |
| BufferIterator.CongruentOffsets | gegl/buffer/gegl-buffer-iterator.c:93-125 | Starting points at the same tile offset stay at equal offsets after moving both by the same amount, so compatible walks stay compatible. |
| BufferIterator.VisitedAll | gegl/buffer/gegl-buffer-iterator.c:153-250 | Once the cursor is past the last row, its pieces partition the roi: each cell lies in exactly one piece, pieces stay inside the roi, and their areas sum to the roi's area. |
| BufferIterator.VisitedEmit | gegl/buffer/gegl-buffer-iterator.c:185-230 | Handing out the next piece of the row keeps the pieces an exact, ordered cover of the cells visited so far. |
| BufferIterator.VisitedAdvance | gegl/buffer/gegl-buffer-iterator.c:231-247 | Moving down a tile row after the last column keeps the pieces an exact, ordered cover of the rows above. |
| BufferIterator.ScanPlace | gegl/buffer/gegl-buffer-iterator.c:185-230 | The piece at (col, row) is as wide as the rest of its tile column, or the rest of the roi, and as high as the rest of its tile row. |
| BufferIterator.ScanMoveDown | gegl/buffer/gegl-buffer-iterator.c:231-247 | The move down goes to the end of the current tile row, keeping the scan state. |
| BufferIterator.PairedLock | gegl/buffer/gegl-buffer-iterator.c:196-213 | A lock issued with no tile held keeps the log's locks and unlocks alternating. |
| BufferIterator.PairedUnlock | gegl/buffer/gegl-buffer-iterator.c:164-175 | An unlock right after a lock of the same tile keeps the log paired. |
| BufferIterator.TileCursor.constructor | gegl/buffer/gegl-buffer-iterator.c:128-150 | A new cursor starts at (0, 0) with no tile and nothing handed out, and max_size is a full tile. |
| BufferIterator.TileCursor.Release | gegl/buffer/gegl-buffer-iterator.c:164-175 | The tile held is unlocked (logged) when it was locked for direct access, and the cursor then holds none. |
| BufferIterator.TileCursor.MoveDown | gegl/buffer/gegl-buffer-iterator.c:231-247 | At the end of a row of tiles, next_row moves to the end of the current tile row and next_col returns to 0. |
| BufferIterator.TileCursor.Place | gegl/buffer/gegl-buffer-iterator.c:185-230 | The piece at (next_col, next_row) is recorded in tile coordinates (subrect) and in buffer coordinates (roi2), and next_col moves to the end of its tile column. |
| BufferIterator.TileCursor.Take | gegl/buffer/gegl-buffer-iterator.c:196-213 | The piece's tile is fetched. It is locked (logged) exactly when the piece spans whole tile rows, and then sub_data points at the piece's first cell. |
| BufferIterator.TileCursor.Proceed | gegl/buffer/gegl-buffer-iterator.c:176-250 | One step after the unref: the scan moves to StepPos, and TRUE is returned exactly when a next piece exists, which is then the one handed out. |
| BufferIterator.TileCursor.Next | gegl/buffer/gegl-buffer-iterator.c:153-250 | gegl_buffer_tile_iterator_next moves the scan to StepPos, answers whether a piece was found, hands it out and holds its tile; with no piece left it holds nothing. |
| BufferIterator.TileCursor.PieceInTile | gegl/buffer/gegl-buffer-iterator.c:185-213 | Every cell of a piece lies in the piece's tile, at offset sub_data + j*tile_width + i. |
| BufferIterator.TileCursor.PieceFits | gegl/buffer/gegl-buffer-iterator.c:185-230 | A piece is at least 1x1 and at most one tile in each direction. |
| BufferIterator.TileCursor.HeldFits | gegl/buffer/gegl-buffer-iterator.c:196-213 | While a tile is locked for direct access, the piece spans whole tile rows and its cells from sub_data lie inside the tile's buffer. |
| BufferIterator.TileCursor.StepCounts | gegl/buffer/gegl-buffer-iterator.c:153-250 | A step from inside the roi hands out exactly one more piece. |
| BufferIterator.TileCursor.StepMoves | gegl/buffer/gegl-buffer-iterator.c:153-250 | Every step moves the scan on, along the row or down to a later tile row, so the iteration terminates. |
| BufferIterator.TileCursor.Finished | gegl/buffer/gegl-buffer-iterator.c:153-250 | When the cursor is done, the pieces it handed out partition its roi. |
| BufferIterator.AlignedStep | gegl/buffer/gegl-buffer-iterator.c:440-457 | Two scan-compatible cursors over equally sized rois stay in step: they finish together and cut pieces of the same size at the same relative place. |
| BufferIterator.FirstFit | gegl/buffer/gegl-buffer-iterator.c:341-364 | The pool hands out the first entry that is free and large enough; no earlier entry qualifies. |
| BufferIterator.EntryOf | gegl/buffer/gegl-buffer-iterator.c:366-379 | A release finds the first entry holding the buffer. |
| BufferIterator.TakenUses | gegl/buffer/gegl-buffer-iterator.c:341-364 | A get hands out a buffer that had no holder and now has one; every other buffer's use count is unchanged. |
| BufferIterator.ReturnedUses | gegl/buffer/gegl-buffer-iterator.c:366-379 | A release takes one holder from the buffer's entry and leaves every other count unchanged. |
| BufferIterator.ReturnedTaken | gegl/buffer/gegl-buffer-iterator.c:341-379 | Releasing the buffer a get just handed out restores the pool's use counts. |
| BufferIterator.Pool.Get | gegl/buffer/gegl-buffer-iterator.c:341-364 | The first free entry of sufficient size is reused, or a new entry is appended; the buffer's holders go from 0 to 1, other counts are untouched, and no entry is dropped. |
| BufferIterator.Pool.Release | gegl/buffer/gegl-buffer-iterator.c:366-379 | The buffer's holders drop by one and every other count and every entry stays. |
| BufferIterator.ReturnedAllUses | gegl/buffer/gegl-buffer-iterator.c:508-516 | Giving back every scratch buffer the participants hold lowers exactly those buffers' counts by one. |
| BufferIterator.AddedFlagsIff | gegl/buffer/gegl-buffer-iterator.c:279-324 | The two private flag bits record exactly scan and format compatibility, and the read/write bits the caller gave are kept. |
| BufferIterator.MakeFirst | gegl/buffer/gegl-buffer-iterator.c:253-299 | Participant 0 covers the roi given, or the extent, through a fresh sub-buffer, is always scan compatible and gets a fresh cursor at the start. |
| BufferIterator.MakeOther | gegl/buffer/gegl-buffer-iterator.c:253-324 | A later participant takes participant 0's width and height, defaulting to its rect. It gets a cursor exactly when it is scan compatible with participant 0, and its flags record that. |
| BufferIterator.Iterator.constructor | gegl/buffer/gegl-buffer-iterator.c:528-536 | A new iterator has no participants, no steps and no transfers. |
| BufferIterator.Iterator.Add | gegl/buffer/gegl-buffer-iterator.c:253-327 | The participant is appended and its index returned. It has participant 0's size and a cursor exactly when scan compatible, and joins the others in step. |
| BufferIterator.New | gegl/buffer/gegl-buffer-iterator.c:528-536 | gegl_buffer_iterator_new gives an iterator with the buffer as its only participant, at the start. |
| BufferIterator.Iterator.WriteBack | gegl/buffer/gegl-buffer-iterator.c:407-435 | After a step, every writable participant not on the direct path has its piece written back with one gegl_buffer_set, in participant order. |
| BufferIterator.Iterator.Next | gegl/buffer/gegl-buffer-iterator.c:398-525 | The pending write-backs (one gegl_buffer_set per participant that writes off the direct path) are recorded first, then one gegl_buffer_get per participant that reads off the direct path. Every participant moves to its next piece in step with participant 0, the length is that piece's area, and the scan strictly advances; the result is FALSE exactly when the iterator has finished, and then no participant holds a scratch buffer any more. |
| BufferIterator.Iterator.Stop | gegl/buffer/gegl-buffer-iterator.c:505-523 | Ending the iteration releases every participant's scratch buffer to the pool (the pool is ReturnedAll of the slots held at the last piece) and leaves every slot empty. |
| BufferIterator.Iterator.Finish | gegl/buffer/gegl-buffer-iterator.c:508-523 | Every participant's scratch buffer is released to the pool in order, and the iterator is finished. |
| BufferOps.ClearRect | gegl/buffer/gegl-buffer-access.c:1725-1737 | The rect cleared is the one given, or the extent for NULL. |
| BufferOps.CopyRects | gegl/buffer/gegl-buffer-access.c:1685-1711 | The source rect is the one given or the source extent; the destination rect has its size and sits at the given destination corner, or coincides with it for NULL. |
| BufferOps.Partitioned | gegl/buffer/gegl-buffer-iterator.c:153-250 | A finished cursor's pieces partition its roi. |
| BufferOps.Clear | gegl/buffer/gegl-buffer-access.c:1725-1752 | An empty rect does nothing. Otherwise the memsets' pieces partition the rect, each memset covers its piece's bytes, and it is direct into the tile exactly when the piece spans whole tile rows. |
| BufferOps.Copy | gegl/buffer/gegl-buffer-access.c:1685-1722 | The destination pieces partition the destination rect. Each conversion reads the same-shaped piece of the source, shifted by the rects' offset, with one pixel count. A negative width converts nothing. |

## Left out

- Tiles.Tile.Swp: the `g_assert` that both tiles have the same size is a precondition; the abort is not modelled.
- BufferIterator.Iterator.Add: adding past GEGL_BUFFER_MAX_ITERABLES (6) is a `g_error` abort in the source; it is a precondition here.
- BufferIterator.TileCursor.constructor: a zero-sized roi is a `g_error` abort ("eeek"); it is a precondition here. The precondition also excludes negative sizes, which the source does not check.
- BufferIterator.MakeFirst: excludes a zero or negative first rect, as BufferIterator.TileCursor.constructor does.
- BufferIterator.New: excludes a zero or negative first rect, as BufferIterator.TileCursor.constructor does.
- BufferIterator.Iterator.Next: calling it on a finished iterator reads freed memory in the source. Here it is excluded by `!finished`.
- BufferIterator.Pool.Release: releasing a buffer that is not in the pool reaches `g_assert (0)`; it is a precondition here.
- BufferIterator.TileCursor.Fetch: assumes the tile source hands out a tile for every key, as GEGL's tile handlers create missing tiles; the handler chain is not part of this model.
- BufferIterator.TileCursor.Take: the cursor's locks are a log of lock/unlock events on tile keys. They are not tied to Tiles.Tile.Lock/Unlock, so the unclone, the revision bump and the pyramid void of those calls are not modelled on this path.
- BufferIterator.Iterator.Next: when it returns FALSE it states that every slot's scratch buffer is gone, but not the pool's counts against the state before the call, because the step fetches before it ends; BufferIterator.Iterator.Stop states the pool as ReturnedAll of the slots held at the end, and BufferIterator.ReturnedAllUses turns that into per-buffer counts.
- BufferIterator.Iterator.Next: the gegl_buffer_get/gegl_buffer_set calls of a step are recorded as transfers (participant, roi, buffer). They are not connected to BufferAccess.Buffer.Get/Set, so the pixel contents moved are not modelled here.
- Lock modes, the ENABLE_MP mutexes, and gegl_buffer_lock/unlock: not modelled. They have no effect on the values computed in a single thread.
- BufferAccess.Buffer.Set: is_shared is a parameter, because gegl_buffer_is_shared is not part of this model. The lock/unlock of the buffer around the call is not modelled.
- BufferAccess.Buffer.Get: only scale 1 is modelled. The resampling path for other scales (floating point box filter and nearest sampling) is not.
- BufferAccess.Buffer.Get: only the buffer's own format is modelled (NativeFormat). Babl conversions are not, nor are GPU paths and levels above 0 (the mipmap `level`/`factor` arguments of gegl_buffer_iterate).
- BufferAccess.Buffer.Set: only the buffer's own format is modelled, as for Get.
- BufferAccess.Buffer.Get: with a rowstride wider than the rect, the model zeroes a wholly-abyss band at its own rows (the corrected SkipBand), not at the as-written offset. With GEGL_AUTO_ROWSTRIDE the two agree (BufferAccess.AsWrittenAtAutoRowstride). The as-written behaviour is modelled separately (see Findings).
- BufferAccess.Buffer.IterateRead: with a rowstride wider than the roi it uses the corrected band zeroing, as for Get.
- BufferAccess.Buffer.IterateRead: the caller's buffer must hold roi.height rows of rowstride pixels with rowstride >= width. The source trusts its caller here and does not check.
- BufferAccess.Buffer.IterateRead: a roi of negative width is excluded (`roi.width >= 0`). In the source its block loop is empty, but the zeroing of a band wholly in the abyss then starts at a negative offset, and with GEGL_AUTO_ROWSTRIDE passes the negative rowstride to memset as a length.
- BufferAccess.Buffer.IterateRead: the buffer's abyss rect is assumed to have width and height >= 0 (`LayoutOk`, part of `Buffer.Valid`). The source does not check this. With a negative abyss width, lskip + rskip (gegl-buffer-access.c:604-616) can exceed the tile's pixel count, and the row copy gets a negative length.
- BufferAccess.Buffer.IterateWrite: assumes a non-negative abyss size, as for IterateRead; the same applies to every member that requires `Buffer.Valid`.
- BufferAccess.Buffer.IterateWrite: requires a rowstride >= width and a buffer large enough, as for IterateRead, and excludes a negative width in the same way.
- BufferAccess.Buffer.Set: a rect of negative width is excluded, as for IterateWrite.
- BufferAccess.Buffer.Get: a rect of negative width and non-zero height is excluded, as for IterateRead.
- BufferAccess.Buffer.IterateRead: states that every lock count is restored, but not, tile by tile, which revisions were bumped and which pyramid voids were sent by the unlocks of the walk, nor that the former sharers of an uncloned tile keep their contents.
- BufferAccess.Buffer.IterateWrite: states the restored lock counts but not the per-tile revision bumps and pyramid voids. The copy-on-write partners' contents are stated only for tiles of the buffer (through WriteView), not for sharers outside it.
- BufferAccess.Buffer.Get: the revision bumps, pyramid voids and copy-on-write partners of the bulk path are not stated, as for IterateRead; the pixel path states them (GetPixel).
- BufferAccess.Buffer.Set: the revision bumps, pyramid voids and copy-on-write partners of the bulk path are not stated, as for IterateWrite; the pixel path states them (SetPixel).
- BufferAccess.Buffer.GetPixel: the former sharers of an uncloned tile are not stated to keep their contents. The read writes no pixel, but only SetPixel states this.
- Rowstrides are counted in pixels, not bytes; the model stores one `Pixel` value per cell.
- BufferAccess.Buffer.Flush: the update of the storage header and the GEGL_TILE_FLUSH command to the tile source are not modelled; only the hot-tile part is.
- BufferAccess.Buffer.Sample: gegl_sampler_get, the interpolation itself, is not modelled (floating point). Only the sampler cache is.
- BufferOps.Clear: states the memset trace and its partition of the rect, not the resulting pixel contents, because the memsets are not tied to tile buffers.
- BufferOps.Clear: a negative height with positive width is excluded; the source would memset a negative length.
- BufferOps.Copy: states the conversion trace and its partition, not the resulting pixel contents, because babl_process is not modelled.
- BufferOps.Copy: an empty source rect is excluded; the source aborts with `g_error`. A negative height with positive width is also excluded.
- Tiles.Tile.Cpy: requires dst.size == size. The source neither checks nor updates dst->size; a tile whose size differs from the buffer it shares is outside the World ring invariant.
- Tiles.Tile.Cpy: requires dst != this. With src == dst the source frees the shared buffer (through the unclone's unref chain) and then reuses it, so that call is not modelled.
- Tiles.Tile.Dispose: a tile without a buffer (from Init, that is gegl_tile_init alone) is outside the World invariant, so the `if (tile->data)` guard is always taken here.
- Tiles.Tile.Release: a tile without a buffer is outside the World invariant, as for Dispose.
- Tiles.Tile.Dispose: destroy_notify and the GObject unref chain are not modelled.
- Object reference counts: g_object_ref/unref and gegl_buffer_iterator_free after g_free are not modelled; memory is garbage-collected here.
- Diagnostics: g_warning, g_print and the debug counter total_locks are not modelled.
- Tiles.CharAdd: the lock counter is a signed `gchar`, assumed signed as on the usual GEGL platforms.
- The GPU texture paths (gegl_buffer_gpu_*, gpu_data, GPU lock modes) are not part of this model.

## Findings

| source | as written | input that shows it | evidently intended | confidence | as-written member | corrected member |
|---|---|---|---|---|---|---|
| gegl/buffer/gegl-tile.c:356-362 | gegl_tile_void sets `tile->tile_storage = NULL` before calling gegl_tile_void_pyramid (313-325), which does nothing without a storage | a level-0 tile at (x, y) with a storage whose seen_zoom >= 1: no void request is sent, although PyramidKeys lists seen_zoom ancestors | void the ancestors (x/2^k, y/2^k, k) for k = 1..seen_zoom, then detach the storage | not executed | Tiles.Tile.Void, Tiles.VoidSkipsPyramid | Tiles.Tile.VoidCorrected |
| gegl/buffer/gegl-buffer-access.c:544-558 | the zeroing of a band wholly in the abyss starts at `buf + bufy * width * bpx_size` and then advances by buf_stride | tiles 4x4, abyss (0, 0, 2, 4), roi (0, 0, 2, 8), rowstride 3 pixels: the second band (rows 4-7) zeroes cells 8-19 instead of 12-23: row 3 (cells 9-10), already read from its tile, is overwritten with zeros, and cells 20-23 are never zeroed, among them cell 21 (row 7, column 0) inside the roi | start the band at `buf + bufy * buf_stride` | not executed | BufferAccess.Buffer.SkipBandAsWritten, BufferAccess.SkipBandAsWrittenMisses | BufferAccess.Buffer.SkipBand |
