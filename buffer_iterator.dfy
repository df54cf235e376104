/** gegl-buffer-iterator.c: the scan-compatibility test, the per-buffer tile
    cursor that cuts a rectangle into in-tile pieces, the scratch-buffer
    pool, and the iterator that walks up to six buffers in lock step. */
module BufferIterator {
  import opened TileCoords
  import opened Tiles
  import opened TileGrid
  import opened BufferAccess

  // ---------------------------------------------------------------------
  // gegl_buffer_scan_compatible

  function Abs(a: int): int
  {
    if a < 0 then -a else a
  }

  /** gegl_buffer_scan_compatible: walks of equal size from (x1, y1) in b1 and
      from (x2, y2) in b2 meet the same tile boundaries. */
  predicate ScanCompatible(b1: Buffer, x1: int, y1: int, b2: Buffer, x2: int, y2: int)
    requires b1.storage.tileWidth > 0 && b1.storage.tileHeight > 0
  {
    if b1.storage.tileWidth != b2.storage.tileWidth then false
    else if b1.storage.tileHeight != b2.storage.tileHeight then false
    else if Abs((b1.shiftX + x1) - (b2.shiftX + x2)) % b1.storage.tileWidth != 0 then false
    else if Abs((b1.shiftY + y1) - (b2.shiftY + y2)) % b1.storage.tileHeight != 0 then false
    else true
  }

  /** For a >= b: the difference is a multiple of s exactly when the
      Euclidean remainders agree. */
  lemma DiffModIff(a: int, b: int, s: int)
    requires s > 0 && a >= b
    ensures (a - b) % s == 0 <==> a % s == b % s
  {
    var qa, ra, qb, rb := a / s, a % s, b / s, b % s;
    DivModFacts(a, s);
    DivModFacts(b, s);
    var n, q, r := a - b, (a - b) / s, (a - b) % s;
    DivModFacts(n, s);
    assert n == (qa - qb) * s + (ra - rb) by {
      assert (qa - qb) * s == qa * s - qb * s;
    }
    if ra == rb {
      EuclidUnique(n, s, qa - qb, 0);
    } else if r == 0 {
      assert (q - qa + qb) * s == q * s - qa * s + qb * s;
      SmallMultiple(q - qa + qb, s);
    }
  }

  /** Euclidean remainders agree exactly when the distance is a multiple of s. */
  lemma AbsModIff(a: int, b: int, s: int)
    requires s > 0
    ensures Abs(a - b) % s == 0 <==> a % s == b % s
  {
    if a >= b {
      DiffModIff(a, b, s);
    } else {
      DiffModIff(b, a, s);
    }
  }

  /** Two coordinates are a multiple of s apart exactly when they sit at the
      same offset in their tiles. */
  lemma SameOffsetIff(a: int, b: int, s: int)
    requires s > 0
    ensures Abs(a - b) % s == 0 <==> TileOffset(a, s) == TileOffset(b, s)
  {
    IndexOffsetEuclid(a, s);
    IndexOffsetEuclid(b, s);
    AbsModIff(a, b, s);
  }

  /** The pseudo-code of the source's comments: scan compatibility is equal
      tile sizes and equal tile offsets of the two starting points. */
  lemma ScanCompatibleIff(b1: Buffer, x1: int, y1: int, b2: Buffer, x2: int, y2: int)
    requires b1.storage.tileWidth > 0 && b1.storage.tileHeight > 0
    ensures ScanCompatible(b1, x1, y1, b2, x2, y2) <==>
      && b1.storage.tileWidth == b2.storage.tileWidth
      && b1.storage.tileHeight == b2.storage.tileHeight
      && TileOffset(b1.shiftX + x1, b1.storage.tileWidth) == TileOffset(b2.shiftX + x2, b1.storage.tileWidth)
      && TileOffset(b1.shiftY + y1, b1.storage.tileHeight) == TileOffset(b2.shiftY + y2, b1.storage.tileHeight)
  {
    SameOffsetIff(b1.shiftX + x1, b2.shiftX + x2, b1.storage.tileWidth);
    SameOffsetIff(b1.shiftY + y1, b2.shiftY + y2, b1.storage.tileHeight);
  }

  /** Equal Euclidean remainders survive moving both numbers by d. */
  lemma ModShift(a: int, b: int, d: int, s: int)
    requires s > 0 && a % s == b % s
    ensures (a + d) % s == (b + d) % s
  {
    DivModFacts(a, s);
    DivModFacts(b, s);
    DivModFacts(a + d, s);
    var qa, qb, r, q2, r2 := a / s, b / s, a % s, (a + d) / s, (a + d) % s;
    assert b + d == (a + d) + (qb - qa) * s;
    assert b + d == (q2 + qb - qa) * s + r2;
    EuclidUnique(b + d, s, q2 + qb - qa, r2);
  }

  /** Starting points at the same tile offset stay at the same offset when
      both move by d. */
  lemma CongruentOffsets(a: int, b: int, d: int, s: int)
    requires s > 0 && TileOffset(a, s) == TileOffset(b, s)
    ensures TileOffset(a + d, s) == TileOffset(b + d, s)
  {
    IndexOffsetEuclid(a, s);
    IndexOffsetEuclid(b, s);
    IndexOffsetEuclid(a + d, s);
    IndexOffsetEuclid(b + d, s);
    ModShift(a, b, d, s);
  }

  // ---------------------------------------------------------------------
  // What a tile cursor has visited

  /** How many of the rectangles rs contain (x, y). */
  function Count(rs: seq<Rect>, x: int, y: int): nat
  {
    if |rs| == 0 then 0
    else Count(rs[..|rs| - 1], x, y) + (if Contains(rs[|rs| - 1], x, y) then 1 else 0)
  }

  /** The sum of the areas of rs. */
  function AreaSum(rs: seq<Rect>): int
  {
    if |rs| == 0 then 0 else AreaSum(rs[..|rs| - 1]) + rs[|rs| - 1].width * rs[|rs| - 1].height
  }

  lemma CountAppend(rs: seq<Rect>, r: Rect, x: int, y: int)
    ensures Count(rs + [r], x, y) == Count(rs, x, y) + (if Contains(r, x, y) then 1 else 0)
  {
    assert (rs + [r])[..|rs|] == rs;
  }

  lemma AreaAppend(rs: seq<Rect>, r: Rect)
    ensures AreaSum(rs + [r]) == AreaSum(rs) + r.width * r.height
  {
    assert (rs + [r])[..|rs|] == rs;
  }

  /** Rectangle r lies inside roi (and holds at least one pixel). */
  predicate Inside(r: Rect, roi: Rect)
  {
    roi.x <= r.x && 0 < r.width && r.x + r.width <= roi.x + roi.width &&
    roi.y <= r.y && 0 < r.height && r.y + r.height <= roi.y + roi.height
  }

  /** Rectangle a comes before b in row-major order of their top-left corners. */
  predicate Before(a: Rect, b: Rect)
  {
    a.y < b.y || (a.y == b.y && a.x < b.x)
  }

  /** The cells of roi a cursor has visited: every row above nextRow, and the
      columns left of nextCol in the band of rows [nextRow, bandEnd). Each
      visited cell lies in exactly one rectangle of rs, every other cell of
      roi in none. */
  ghost predicate CoverExact(rs: seq<Rect>, roi: Rect, nextRow: int, bandEnd: int, nextCol: int)
  {
    forall x, y {:trigger Count(rs, x, y)} :: Contains(roi, x, y) ==>
      Count(rs, x, y) == if Done(x - roi.x, y - roi.y, nextRow, bandEnd, nextCol, 0, 0) then 1 else 0
  }

  ghost predicate AllInside(rs: seq<Rect>, roi: Rect)
  {
    forall k :: 0 <= k < |rs| ==> Inside(rs[k], roi)
  }

  ghost predicate RowMajor(rs: seq<Rect>)
  {
    forall k1, k2 :: 0 <= k1 < k2 < |rs| ==> Before(rs[k1], rs[k2])
  }

  /** Every rectangle of rs starts before the point (x, y) in row-major order. */
  ghost predicate AllBefore(rs: seq<Rect>, x: int, y: int)
  {
    forall k :: 0 <= k < |rs| ==> Before(rs[k], Rect(x, y, 0, 0))
  }

  /** The number of visited cells. */
  function DoneArea(roi: Rect, nextRow: int, bandEnd: int, nextCol: int): int
  {
    Min(nextRow, roi.height) * roi.width + (Min(bandEnd, roi.height) - Min(nextRow, roi.height)) * Min(nextCol, roi.width)
  }

  /** What a cursor has emitted so far: an exact cover of the visited cells,
      inside roi, in row-major order before (nextCol, nextRow), with areas
      adding up to the visited cells. */
  ghost predicate Visited(rs: seq<Rect>, roi: Rect, nextRow: int, bandEnd: int, nextCol: int)
  {
    && CoverExact(rs, roi, nextRow, bandEnd, nextCol)
    && AllInside(rs, roi)
    && RowMajor(rs)
    && AllBefore(rs, roi.x + nextCol, roi.y + nextRow)
    && AreaSum(rs) == DoneArea(roi, nextRow, bandEnd, nextCol)
  }

  /** Nothing visited yet. */
  lemma VisitedStart(roi: Rect, bandEnd: int)
    requires roi.width > 0 && roi.height > 0
    ensures Visited([], roi, 0, bandEnd, 0)
  {
  }

  /** The piece a cursor emits at (nextCol, nextRow): as wide as the roi and
      the tile column ending at colEnd allow, as tall as the roi and the band
      ending at bandEnd allow. */
  function Piece(roi: Rect, nextRow: int, bandEnd: int, nextCol: int, colEnd: int): Rect
  {
    Rect(roi.x + nextCol, roi.y + nextRow, Min(roi.width - nextCol, colEnd - nextCol), Min(roi.height - nextRow, bandEnd - nextRow))
  }

  lemma EmitCover(rs: seq<Rect>, roi: Rect, nextRow: int, bandEnd: int, nextCol: int, colEnd: int)
    requires CoverExact(rs, roi, nextRow, bandEnd, nextCol)
    requires 0 <= nextCol < roi.width && nextCol < colEnd && 0 <= nextRow < roi.height && nextRow < bandEnd
    ensures CoverExact(rs + [Piece(roi, nextRow, bandEnd, nextCol, colEnd)], roi, nextRow, bandEnd, colEnd)
  {
    var p := Piece(roi, nextRow, bandEnd, nextCol, colEnd);
    forall x, y | Contains(roi, x, y)
      ensures Count(rs + [p], x, y) == if Done(x - roi.x, y - roi.y, nextRow, bandEnd, colEnd, 0, 0) then 1 else 0
    {
      CountAppend(rs, p, x, y);
    }
  }

  lemma EmitOrder(rs: seq<Rect>, roi: Rect, nextRow: int, bandEnd: int, nextCol: int, colEnd: int)
    requires RowMajor(rs) && AllBefore(rs, roi.x + nextCol, roi.y + nextRow) && nextCol < colEnd
    ensures RowMajor(rs + [Piece(roi, nextRow, bandEnd, nextCol, colEnd)])
    ensures AllBefore(rs + [Piece(roi, nextRow, bandEnd, nextCol, colEnd)], roi.x + colEnd, roi.y + nextRow)
  {
  }

  lemma EmitArea(rs: seq<Rect>, roi: Rect, nextRow: int, bandEnd: int, nextCol: int, colEnd: int)
    requires AreaSum(rs) == DoneArea(roi, nextRow, bandEnd, nextCol)
    requires 0 <= nextCol < roi.width && nextCol < colEnd && 0 <= nextRow < roi.height && nextRow < bandEnd
    ensures AreaSum(rs + [Piece(roi, nextRow, bandEnd, nextCol, colEnd)]) == DoneArea(roi, nextRow, bandEnd, colEnd)
  {
    var p := Piece(roi, nextRow, bandEnd, nextCol, colEnd);
    AreaAppend(rs, p);
    var h, m := p.height, Min(colEnd, roi.width);
    assert h == Min(bandEnd, roi.height) - nextRow;
    assert p.width == m - nextCol;
    assert h * nextCol + (m - nextCol) * h == h * m;
  }

  /** Emitting the next piece visits exactly its cells and moves nextCol on
      to colEnd. */
  lemma VisitedEmit(rs: seq<Rect>, roi: Rect, nextRow: int, bandEnd: int, nextCol: int, colEnd: int)
    requires Visited(rs, roi, nextRow, bandEnd, nextCol)
    requires 0 <= nextCol < roi.width && nextCol < colEnd && 0 <= nextRow < roi.height && nextRow < bandEnd
    ensures Visited(rs + [Piece(roi, nextRow, bandEnd, nextCol, colEnd)], roi, nextRow, bandEnd, colEnd)
  {
    EmitCover(rs, roi, nextRow, bandEnd, nextCol, colEnd);
    EmitOrder(rs, roi, nextRow, bandEnd, nextCol, colEnd);
    EmitArea(rs, roi, nextRow, bandEnd, nextCol, colEnd);
  }

  /** Moving down to the band ending at bandEnd2 after the last column of
      the band keeps what was visited. */
  lemma VisitedAdvance(rs: seq<Rect>, roi: Rect, nextRow: int, bandEnd: int, nextCol: int, bandEnd2: int)
    requires Visited(rs, roi, nextRow, bandEnd, nextCol)
    requires 0 <= nextRow < roi.height && nextRow < bandEnd && 0 < roi.width <= nextCol
    ensures Visited(rs, roi, bandEnd, bandEnd2, 0)
  {
    AdvanceCover(rs, roi, nextRow, bandEnd, nextCol, bandEnd2);
    AdvanceBefore(rs, roi, nextRow, bandEnd, nextCol);
    AdvanceArea(roi, nextRow, bandEnd, nextCol, bandEnd2);
  }

  /** The cells visited before the move are the rows above bandEnd. */
  lemma AdvanceCover(rs: seq<Rect>, roi: Rect, nextRow: int, bandEnd: int, nextCol: int, bandEnd2: int)
    requires CoverExact(rs, roi, nextRow, bandEnd, nextCol)
    requires nextRow < bandEnd && nextCol >= roi.width
    ensures CoverExact(rs, roi, bandEnd, bandEnd2, 0)
  {
    forall x, y | Contains(roi, x, y)
      ensures Count(rs, x, y) == if Done(x - roi.x, y - roi.y, bandEnd, bandEnd2, 0, 0, 0) then 1 else 0
    {
      var i, j := x - roi.x, y - roi.y;
      assert Done(i, j, nextRow, bandEnd, nextCol, 0, 0) == Done(i, j, bandEnd, bandEnd2, 0, 0, 0);
    }
  }

  /** Every piece starts above row bandEnd. */
  lemma AdvanceBefore(rs: seq<Rect>, roi: Rect, nextRow: int, bandEnd: int, nextCol: int)
    requires AllBefore(rs, roi.x + nextCol, roi.y + nextRow) && nextRow < bandEnd
    ensures AllBefore(rs, roi.x + 0, roi.y + bandEnd)
  {
    forall k | 0 <= k < |rs| ensures Before(rs[k], Rect(roi.x + 0, roi.y + bandEnd, 0, 0)) {
      assert Before(rs[k], Rect(roi.x + nextCol, roi.y + nextRow, 0, 0));
    }
  }

  /** A finished band adds its full width to the visited area. */
  lemma AdvanceArea(roi: Rect, nextRow: int, bandEnd: int, nextCol: int, bandEnd2: int)
    requires 0 <= nextRow < roi.height && nextRow < bandEnd && 0 <= roi.width <= nextCol
    ensures DoneArea(roi, nextRow, bandEnd, nextCol) == DoneArea(roi, bandEnd, bandEnd2, 0)
  {
    var h := Min(bandEnd, roi.height);
    assert Min(nextRow, roi.height) == nextRow && Min(nextCol, roi.width) == roi.width;
    assert nextRow * roi.width + (h - nextRow) * roi.width == h * roi.width;
    assert (Min(bandEnd2, roi.height) - h) * Min(0, roi.width) == 0;
  }

  /** Once every row is visited, the pieces partition the roi: each cell of
      the roi lies in exactly one piece, no two pieces overlap, no piece leaves
      the roi, and the areas add up to the roi's. */
  lemma VisitedAll(rs: seq<Rect>, roi: Rect, nextRow: int, bandEnd: int)
    requires roi.width > 0 && Visited(rs, roi, nextRow, bandEnd, 0) && nextRow >= roi.height
    ensures forall x, y :: Contains(roi, x, y) ==> Count(rs, x, y) == 1
    ensures forall k1, k2, x, y :: 0 <= k1 < k2 < |rs| && Contains(rs[k1], x, y) ==> !Contains(rs[k2], x, y)
    ensures forall k, x, y :: 0 <= k < |rs| && Contains(rs[k], x, y) ==> Contains(roi, x, y)
    ensures AreaSum(rs) == roi.width * roi.height
  {
    forall k1, k2, x, y | 0 <= k1 < k2 < |rs| && Contains(rs[k1], x, y)
      ensures !Contains(rs[k2], x, y)
    {
      if Contains(rs[k2], x, y) {
        assert Inside(rs[k1], roi);
        CountTwo(rs, k1, k2, x, y);
        assert false;
      }
    }
    forall k, x, y | 0 <= k < |rs| && Contains(rs[k], x, y) ensures Contains(roi, x, y) {
      assert Inside(rs[k], roi);
    }
  }

  /** A point in two of the rectangles is counted at least twice. */
  lemma {:induction false} CountTwo(rs: seq<Rect>, k1: int, k2: int, x: int, y: int)
    requires 0 <= k1 < k2 < |rs| && Contains(rs[k1], x, y) && Contains(rs[k2], x, y)
    ensures Count(rs, x, y) >= 2
  {
    var n := |rs| - 1;
    if k2 < n {
      CountTwo(rs[..n], k1, k2, x, y);
    } else {
      CountOne(rs[..n], k1, x, y);
    }
  }

  /** A point in one of the rectangles is counted at least once. */
  lemma {:induction false} CountOne(rs: seq<Rect>, k: int, x: int, y: int)
    requires 0 <= k < |rs| && Contains(rs[k], x, y)
    ensures Count(rs, x, y) >= 1
  {
    var n := |rs| - 1;
    if k < n {
      CountOne(rs[..n], k, x, y);
    }
  }

  /** Where the tile column holding column c (of a walk whose column 0 is
      at tiled coordinate ox) ends. */
  function ColEndOf(ox: int, tw: int, c: int): int
    requires tw > 0
  {
    c + tw - TileOffset(ox + c, tw)
  }

  /** The scan position of a cursor over roi whose corner is at tiled
      (ox, oy), and what it has handed out: positions past 0 are tile
      boundaries, and the pieces handed out cover the visited cells. */
  ghost predicate ScanState(tw: int, th: int, ox: int, oy: int, roi: Rect, nextCol: int, nextRow: int, emitted: seq<Rect>)
  {
    && tw > 0 && th > 0 && roi.width > 0 && roi.height > 0
    && 0 <= nextCol && 0 <= nextRow
    && (nextCol > 0 ==> TileOffset(ox + nextCol, tw) == 0)
    && (nextRow > 0 ==> TileOffset(oy + nextRow, th) == 0)
    && (nextRow >= roi.height ==> nextCol == 0)
    && Visited(emitted, roi, nextRow, ColEndOf(oy, th, nextRow), nextCol)
  }

  /** Handing out the piece at (c, r) keeps the scan state, with the scan
      moved to the end of the piece's tile column. */
  lemma ScanPlace(tw: int, th: int, ox: int, oy: int, roi: Rect, c: int, r: int, emitted: seq<Rect>)
      returns (next: int, piece: Rect)
    requires ScanState(tw, th, ox, oy, roi, c, r, emitted) && c < roi.width && r < roi.height
    ensures next == ColEndOf(ox, tw, c) && piece == Piece(roi, r, ColEndOf(oy, th, r), c, next)
    ensures ScanState(tw, th, ox, oy, roi, next, r, emitted + [piece])
  {
    next := ColEndOf(ox, tw, c);
    piece := Piece(roi, r, ColEndOf(oy, th, r), c, next);
    NextTileStart(ox + c, tw);
    VisitedEmit(emitted, roi, r, ColEndOf(oy, th, r), c, next);
  }

  /** Moving down a tile row once a row of tiles is done keeps the scan state. */
  lemma ScanMoveDown(tw: int, th: int, ox: int, oy: int, roi: Rect, c: int, r: int, emitted: seq<Rect>)
    requires ScanState(tw, th, ox, oy, roi, c, r, emitted) && c >= roi.width && r < roi.height
    ensures ScanState(tw, th, ox, oy, roi, 0, ColEndOf(oy, th, r), emitted)
  {
    NextTileStart(oy + r, th);
    VisitedAdvance(emitted, roi, r, ColEndOf(oy, th, r), c, ColEndOf(oy, th, ColEndOf(oy, th, r)));
  }

  // ---------------------------------------------------------------------
  // _GeglBufferTileIterator: the per-buffer tile cursor

  /** A gegl_tile_lock or gegl_tile_unlock the cursor issued on a tile. */
  datatype LockEvent = Locked(key: TileKey) | Unlocked(key: TileKey)

  /** Event i of the log is a lock at even positions, and at odd ones an
      unlock of the tile the event before it locked. */
  predicate PairedAt(log: seq<LockEvent>, i: int)
    requires 0 <= i < |log|
  {
    if i % 2 == 0 then log[i].Locked? else log[i] == Unlocked(log[i - 1].key)
  }

  /** Locks and unlocks alternate, and each unlock releases the tile the
      lock just before it took. */
  predicate Paired(log: seq<LockEvent>)
  {
    forall i :: 0 <= i < |log| ==> PairedAt(log, i)
  }

  lemma PairedLock(log: seq<LockEvent>, k: TileKey)
    requires Paired(log) && |log| % 2 == 0
    ensures Paired(log + [Locked(k)])
  {
    var log2 := log + [Locked(k)];
    forall i | 0 <= i < |log2| ensures PairedAt(log2, i) {
      if i < |log| {
        assert PairedAt(log, i);
      }
    }
  }

  lemma PairedUnlock(log: seq<LockEvent>, k: TileKey)
    requires Paired(log) && |log| % 2 == 1 && log[|log| - 1] == Locked(k)
    ensures Paired(log + [Unlocked(k)])
  {
    var log2 := log + [Unlocked(k)];
    forall i | 0 <= i < |log2| ensures PairedAt(log2, i) {
      if i < |log| {
        assert PairedAt(log, i);
      }
    }
  }

  /** A cursor's scan position, the piece it handed out last and how many
      pieces it has handed out. */
  datatype ScanPos = ScanPos(col: int, row: int, nextCol: int, nextRow: int, piece: Rect, steps: nat)

  /** Where a freshly initialised cursor stands. */
  const StartPos: ScanPos := ScanPos(0, 0, 0, 0, Rect(0, 0, 0, 0), 0)

  function Shift(r: Rect, dx: int, dy: int): Rect
  {
    Rect(r.x + dx, r.y + dy, r.width, r.height)
  }

  /** Position p keeps step with p0, its pieces moved by (dx, dy). */
  predicate Follows(p0: ScanPos, p: ScanPos, dx: int, dy: int)
  {
    && p.col == p0.col && p.row == p0.row && p.nextCol == p0.nextCol && p.nextRow == p0.nextRow
    && p.steps == p0.steps
    && p.piece == if p0.steps > 0 then Shift(p0.piece, dx, dy) else p0.piece
  }

  /** Coordinates at the same offset in their tiles end their tile at the
      same distance. */
  lemma SameEnd(o1: int, o2: int, s: int, c: int)
    requires s > 0 && TileOffset(o1, s) == TileOffset(o2, s)
    ensures ColEndOf(o1, s, c) == ColEndOf(o2, s, c)
  {
    CongruentOffsets(o1, o2, c, s);
  }

  /** Whole tile rows from row offy on, h of them where h fits below offy,
      lie inside the tile. */
  lemma RowsInTile(tw: int, th: int, offx: int, offy: int, h: int)
    requires tw > 0 && 0 <= offx && 0 <= offy && h <= th - offy
    ensures offy * tw + offx + tw * h <= tw * th + offx
  {
    MulLe(offy + h, th, tw);
  }

  /** A cursor over roi of one buffer. Each step hands out the next piece of
      roi that lies inside one tile, scanning the tiles in row-major order;
      a piece spanning a whole tile row is locked for direct access. Pieces
      are in roi coordinates (roi2); positions col, row, nextCol, nextRow are
      relative to roi's corner. The tile handed out is kept as its key. */
  class TileCursor {
    const buffer: Buffer
    const roi: Rect
    const maxSize: int
    var col: int
    var row: int
    var nextCol: int
    var nextRow: int
    /** The current piece, in the coordinates of its tile. */
    var subrect: Rect
    var tile: Option<TileKey>
    /** sub_data, as a pixel offset into the locked tile's buffer. */
    var subOffset: int
    /** The current piece, in buffer coordinates. */
    var roi2: Rect
    var locks: seq<LockEvent>
    /** Every piece handed out so far. */
    ghost var emitted: seq<Rect>

    function Tw(): int { buffer.storage.tileWidth }
    function Th(): int { buffer.storage.tileHeight }
    /** The tiled coordinate of roi column 0 and row 0. */
    function OriginX(): int { buffer.extent.x + buffer.shiftX }
    function OriginY(): int { buffer.extent.y + buffer.shiftY }

    /** Where the tile column holding roi column c ends. */
    function ColEnd(c: int): int
      requires Tw() > 0
    {
      ColEndOf(OriginX(), Tw(), c)
    }

    /** Where the tile row holding roi row r ends. */
    function RowEnd(r: int): int
      requires Th() > 0
    {
      ColEndOf(OriginY(), Th(), r)
    }

    function KeyFor(c: int, r: int): TileKey
      requires Tw() > 0 && Th() > 0
    {
      KeyAt(OriginX() + c, OriginY() + r, Tw(), Th())
    }

    /** The piece starting at roi column c and row r, in tile coordinates. */
    function SubrectAt(c: int, r: int): Rect
      requires Tw() > 0 && Th() > 0
    {
      var offx, offy := TileOffset(OriginX() + c, Tw()), TileOffset(OriginY() + r, Th());
      Rect(offx, offy, Min(roi.width - c, Tw() - offx), Min(roi.height - r, Th() - offy))
    }

    /** The same piece in buffer coordinates. */
    function PieceAt(c: int, r: int): Rect
      requires Tw() > 0 && Th() > 0
    {
      Piece(roi, r, RowEnd(r), c, ColEnd(c))
    }

    ghost function Pos(): ScanPos
      reads this`col, this`row, this`nextCol, this`nextRow, this`roi2, this`emitted
    {
      ScanPos(col, row, nextCol, nextRow, roi2, |emitted|)
    }

    /** The position one call of gegl_buffer_tile_iterator_next leads to
        from p, while the scan is not past its last tile row. */
    ghost function StepPos(p: ScanPos): ScanPos
      requires Tw() > 0 && Th() > 0
    {
      var c, r := StepCol(p.nextCol), StepRow(p.nextCol, p.nextRow);
      if r < roi.height then ScanPos(c, r, ColEnd(c), r, PieceAt(c, r), p.steps + 1)
      else ScanPos(p.nextCol, p.nextRow, 0, RowEnd(p.nextRow), p.piece, p.steps)
    }

    /** The current tile is locked: the piece spans whole tile rows. */
    predicate Held()
      reads this`tile, this`subrect
    {
      tile.Some? && subrect.width == Tw()
    }

    /** The scan position and what the scan has handed out. */
    ghost predicate Scanning()
      reads this`nextCol, this`nextRow, this`emitted
    {
      && maxSize == Tw() * Th()
      && ScanState(Tw(), Th(), OriginX(), OriginY(), roi, nextCol, nextRow, emitted)
    }

    /** The tile held, if any, is the current piece's, and it is locked
        exactly when the piece spans whole tile rows; sub_data then points
        at the piece's first cell. */
    ghost predicate Holding()
      reads this`tile, this`col, this`row, this`nextCol, this`nextRow, this`subrect, this`locks
      reads this`roi2, this`subOffset
    {
      && Tw() > 0 && Th() > 0
      && (tile.Some? ==>
            && 0 <= col < roi.width && row == nextRow < roi.height && nextCol == ColEnd(col)
            && tile.value == KeyFor(col, row) && subrect == SubrectAt(col, row) && roi2 == PieceAt(col, row))
      && Paired(locks) && (|locks| % 2 == 1 <==> Held())
      && (Held() ==> locks[|locks| - 1] == Locked(tile.value) && subOffset == subrect.y * Tw() + subrect.x)
    }

    ghost predicate Valid()
      reads this
    {
      Scanning() && Holding()
    }

    /** gegl_buffer_tile_iterator_init; a zero-sized roi is a fatal error
        there. */
    constructor (buffer: Buffer, roi: Rect)
      requires buffer.storage.tileWidth > 0 && buffer.storage.tileHeight > 0
      requires roi.width > 0 && roi.height > 0
      ensures this.buffer == buffer && this.roi == roi && Valid()
      ensures maxSize == buffer.storage.tileWidth * buffer.storage.tileHeight
      ensures col == 0 && row == 0 && nextCol == 0 && nextRow == 0
      ensures tile.None? && locks == [] && emitted == [] && Pos() == StartPos
    {
      this.buffer := buffer;
      this.roi := roi;
      maxSize := buffer.storage.tileWidth * buffer.storage.tileHeight;
      col, row, nextCol, nextRow := 0, 0, 0, 0;
      subrect, roi2 := Rect(0, 0, 0, 0), Rect(0, 0, 0, 0);
      tile, subOffset := None, 0;
      locks, emitted := [], [];
      new;
      VisitedStart(roi, RowEnd(0));
    }

    /** The unref at the top of a step: the previous tile is unlocked if it
        was locked, and dropped. */
    method Release()
      requires Valid()
      modifies this`tile, this`locks
      ensures Valid() && tile.None?
      ensures locks == old(locks) + if old(Held()) then [Unlocked(old(tile).value)] else []
    {
      if tile.Some? {
        if Tw() == subrect.width {
          PairedUnlock(locks, tile.value);
          locks := locks + [Unlocked(tile.value)];
        }
        tile := None;
      }
    }

    /** The move down to the next tile row once a row of tiles is done. */
    method MoveDown()
      requires Valid() && tile.None? && nextCol >= roi.width && nextRow < roi.height
      modifies this`row, this`col, this`nextRow, this`nextCol
      ensures Valid()
      ensures row == old(nextRow) && col == old(nextCol)
      ensures nextRow == RowEnd(old(nextRow)) && nextCol == 0
    {
      ScanMoveDown(Tw(), Th(), OriginX(), OriginY(), roi, nextCol, nextRow, emitted);
      row, col := nextRow, nextCol;
      var tiledy := OriginY() + nextRow;
      var offsety := TileOffset(tiledy, Th());
      nextRow := nextRow + Th() - offsety;
      nextCol := 0;
    }

    /** gegl_tile_source_get_tile for the piece's tile; GEGL's tile
        handlers hand out a tile for every key, and only the key is kept. */
    method Fetch(key: TileKey)
      modifies buffer.source`requests
      ensures buffer.source.requests == old(buffer.source.requests) + [key]
    {
      var t := buffer.source.GetTile(key.x, key.y, key.z);
    }

    /** The piece at (nextCol, nextRow): its rectangle in tile and in buffer
        coordinates, and the scan moved past it. */
    method Place()
      requires Valid() && tile.None? && nextCol < roi.width && nextRow < roi.height
      modifies this`col, this`row, this`nextCol, this`subrect, this`roi2, this`emitted
      ensures Valid() && tile.None?
      ensures col == old(nextCol) && row == old(nextRow) && nextRow == old(nextRow) && nextCol == ColEnd(col)
      ensures subrect == SubrectAt(col, row) && roi2 == PieceAt(col, row)
      ensures emitted == old(emitted) + [roi2]
    {
      var c, r := nextCol, nextRow;
      ghost var next, piece := ScanPlace(Tw(), Th(), OriginX(), OriginY(), roi, c, r, emitted);
      col, row := c, r;
      subrect := SubrectAt(c, r);
      nextCol := ColEnd(c);
      roi2 := PieceAt(c, r);
      emitted := emitted + [roi2];
    }

    /** The tile of the piece just placed is fetched, and locked for direct
        access when the piece is as wide as the tile. */
    method Take()
      requires Valid() && tile.None? && 0 <= col < roi.width && row == nextRow < roi.height
      requires nextCol == ColEnd(col) && subrect == SubrectAt(col, row) && roi2 == PieceAt(col, row)
      modifies this`tile, this`locks, this`subOffset, buffer.source`requests
      ensures Valid() && tile == Some(KeyFor(col, row))
      ensures buffer.source.requests == old(buffer.source.requests) + [KeyFor(col, row)]
      ensures locks == old(locks) + if Held() then [Locked(KeyFor(col, row))] else []
      ensures subOffset == if Held() then subrect.y * Tw() + subrect.x else old(subOffset)
    {
      var key := KeyFor(col, row);
      Fetch(key);
      tile := Some(key);
      if Tw() == subrect.width {
        PairedLock(locks, key);
        locks := locks + [Locked(key)];
        subOffset := subrect.y * Tw() + subrect.x;
      }
    }

    /** The width and height the source computes for the piece at (c, r)
        are those of SubrectAt and PieceAt. */
    lemma PlaceShape(c: int, r: int)
      requires Tw() > 0 && Th() > 0
      ensures var offx, offy := TileOffset(OriginX() + c, Tw()), TileOffset(OriginY() + r, Th());
        var w := if roi.width + offx - c < Tw() then (roi.width + offx - c) - offx else Tw() - offx;
        var h := if roi.height + offy - r < Th() then (roi.height + offy - r) - offy else Th() - offy;
        Rect(offx, offy, w, h) == SubrectAt(c, r) && Rect(roi.x + c, roi.y + r, w, h) == PieceAt(c, r)
    {
    }

    /** The column and row the next piece starts at, when there is one. */
    function StepCol(c: int): int
    {
      if c < roi.width then c else 0
    }

    function StepRow(c: int, r: int): int
      requires Th() > 0
    {
      if c < roi.width then r else RowEnd(r)
    }

    /** The part of gegl_buffer_tile_iterator_next after the previous tile
        is dropped: move down a tile row when the current one is done, and
        hand out the next piece; false once the last tile row is done. */
    method Proceed() returns (more: bool)
      requires Valid() && tile.None? && nextRow < roi.height
      modifies this`col, this`row, this`nextCol, this`nextRow, this`subrect, this`roi2, this`emitted
      modifies this`tile, this`locks, this`subOffset, buffer.source`requests
      ensures Valid() && Pos() == StepPos(old(Pos()))
      ensures more == (StepRow(old(nextCol), old(nextRow)) < roi.height)
      ensures more ==>
        && col == StepCol(old(nextCol)) && row == StepRow(old(nextCol), old(nextRow))
        && nextRow == row && nextCol == ColEnd(col)
        && tile == Some(KeyFor(col, row)) && subrect == SubrectAt(col, row) && roi2 == PieceAt(col, row)
        && emitted == old(emitted) + [roi2]
        && buffer.source.requests == old(buffer.source.requests) + [KeyFor(col, row)]
        && locks == old(locks) + (if Held() then [Locked(KeyFor(col, row))] else [])
        && subOffset == if Held() then subrect.y * Tw() + subrect.x else old(subOffset)
      ensures !more ==>
        && row == old(nextRow) && col == old(nextCol) && nextRow == RowEnd(old(nextRow)) && nextCol == 0
        && tile.None? && subrect == old(subrect) && roi2 == old(roi2) && subOffset == old(subOffset)
        && emitted == old(emitted) && buffer.source.requests == old(buffer.source.requests)
        && locks == old(locks)
    {
      if nextCol >= roi.width {
        MoveDown();
        if nextRow >= roi.height {
          return false;
        }
      }
      Place();
      Take();
      more := true;
    }

    /** gegl_buffer_tile_iterator_next: drop the previous tile, move down a
        tile row when the current one is done, and hand out the next piece;
        false once the last tile row is done. */
    method Next() returns (more: bool)
      requires Valid() && nextRow < roi.height
      modifies this, buffer.source`requests
      ensures Valid() && Pos() == StepPos(old(Pos()))
      ensures more == (StepRow(old(nextCol), old(nextRow)) < roi.height)
      ensures more ==>
        && col == StepCol(old(nextCol)) && row == StepRow(old(nextCol), old(nextRow))
        && nextRow == row && nextCol == ColEnd(col)
        && tile == Some(KeyFor(col, row)) && subrect == SubrectAt(col, row) && roi2 == PieceAt(col, row)
        && emitted == old(emitted) + [roi2]
        && buffer.source.requests == old(buffer.source.requests) + [KeyFor(col, row)]
        && locks == old(locks) + (if old(Held()) then [Unlocked(old(tile).value)] else [])
                                + (if Held() then [Locked(KeyFor(col, row))] else [])
        && subOffset == if Held() then subrect.y * Tw() + subrect.x else old(subOffset)
      ensures !more ==>
        && row == old(nextRow) && col == old(nextCol) && nextRow == RowEnd(old(nextRow)) && nextCol == 0
        && tile.None? && subrect == old(subrect) && roi2 == old(roi2) && subOffset == old(subOffset)
        && emitted == old(emitted) && buffer.source.requests == old(buffer.source.requests)
        && locks == old(locks) + (if old(Held()) then [Unlocked(old(tile).value)] else [])
    {
      Release();
      more := Proceed();
    }

    /** Every cell of a piece lies in the piece's tile, at offset
        (subrect.y + j) * tile_width + subrect.x + i: the piece can be read
        through sub_data with a row stride of one tile row. */
    lemma PieceInTile(c: int, r: int, i: int, j: int)
      requires Tw() > 0 && Th() > 0
      requires 0 <= i < PieceAt(c, r).width && 0 <= j < PieceAt(c, r).height
      ensures KeyFor(c + i, r + j) == KeyFor(c, r)
      ensures OffsetAt(OriginX() + c + i, OriginY() + r + j, Tw(), Th()) ==
              (SubrectAt(c, r).y + j) * Tw() + SubrectAt(c, r).x + i
    {
      SameTile(OriginX() + c, i, Tw());
      SameTile(OriginY() + r, j, Th());
    }

    /** A piece is at least one cell and at most one tile in each direction,
        so it never holds more than max_size cells. */
    lemma PieceFits(c: int, r: int)
      requires Tw() > 0 && Th() > 0 && 0 <= c < roi.width && 0 <= r < roi.height
      ensures 1 <= PieceAt(c, r).width <= Tw() && 1 <= PieceAt(c, r).height <= Th()
      ensures PieceAt(c, r).width * PieceAt(c, r).height <= Tw() * Th()
    {
      var p := PieceAt(c, r);
      Decompose(OriginX() + c, Tw());
      Decompose(OriginY() + r, Th());
      MulLe(p.width, Tw(), p.height);
      MulLe(p.height, Th(), Tw());
    }

    /** While a tile is locked for direct access, the piece read through
        sub_data with a stride of one tile row stays inside the tile. */
    lemma HeldFits()
      requires Valid() && Held()
      ensures subrect.x == 0 && roi2.width == Tw()
      ensures 0 <= subOffset && subOffset + roi2.width * roi2.height <= maxSize
    {
      assert Holding() && maxSize == Tw() * Th();
      Decompose(OriginX() + col, Tw());
      Decompose(OriginY() + row, Th());
      RowsInTile(Tw(), Th(), subrect.x, subrect.y, roi2.height);
    }

    /** A piece in hand has the same size in tile and in buffer
        coordinates, and at most a tile's cells. */
    lemma InHand()
      requires Valid() && tile.Some?
      ensures subrect.width == roi2.width && subrect.height == roi2.height
      ensures 1 <= roi2.width && 1 <= roi2.height && 1 <= roi2.width * roi2.height <= maxSize
    {
      assert Holding() && Scanning();
      PieceFits(col, row);
      MulLe(1, roi2.width, roi2.height);
    }

    /** A piece in hand holds at most a tile's cells and, when it spans the
        tile's width, lies inside the tile from subOffset on. */
    lemma InHandFits()
      requires Valid() && tile.Some?
      ensures 1 <= roi2.width * roi2.height <= maxSize
      ensures roi2.width == Tw() ==> 0 <= subOffset && subOffset + roi2.width * roi2.height <= maxSize
    {
      InHand();
      if roi2.width == Tw() {
        HeldFits();
      }
    }

    /** A step finds a next piece exactly when it leaves the scan inside
        the roi's tile rows. */
    lemma StepEnds(p: ScanPos)
      requires Tw() > 0 && Th() > 0 && p.nextRow < roi.height
      ensures (StepRow(p.nextCol, p.nextRow) < roi.height) == (StepPos(p).nextRow < roi.height)
    {
    }

    /** A step from inside the roi's tile rows hands out one more piece
        when it does not finish; from a position inside the roi it never
        finishes. */
    lemma StepCounts(p: ScanPos)
      requires Tw() > 0 && Th() > 0 && p.nextRow < roi.height
      ensures StepPos(p).steps >= p.steps
      ensures 0 <= p.nextCol < roi.width && 0 <= p.nextRow ==> StepPos(p).steps == p.steps + 1
    {
    }

    /** Each step moves the scan on: down a tile row, or along the row. */
    lemma StepMoves(p: ScanPos)
      requires Tw() > 0 && Th() > 0 && 0 <= p.nextCol
      ensures Advanced(p, StepPos(p), roi.width)
    {
      Decompose(OriginX() + StepCol(p.nextCol), Tw());
      Decompose(OriginY() + p.nextRow, Th());
    }

    /** Once the last tile row is done, the pieces handed out partition roi. */
    lemma Finished()
      requires Valid() && nextRow >= roi.height
      ensures forall x, y :: Contains(roi, x, y) ==> Count(emitted, x, y) == 1
      ensures forall k1, k2, x, y :: 0 <= k1 < k2 < |emitted| && Contains(emitted[k1], x, y) ==>
                !Contains(emitted[k2], x, y)
      ensures forall k, x, y :: 0 <= k < |emitted| && Contains(emitted[k], x, y) ==> Contains(roi, x, y)
      ensures AreaSum(emitted) == roi.width * roi.height
    {
      VisitedAll(emitted, roi, nextRow, RowEnd(nextRow));
    }
  }

  /** Cursors of equal tile size over rois of equal size whose corners sit
      at the same offsets in their tiles: what scan compatibility buys. */
  predicate Aligned(c0: TileCursor, c: TileCursor)
  {
    && c0.Tw() > 0 && c0.Th() > 0 && c.Tw() == c0.Tw() && c.Th() == c0.Th()
    && c.roi.width == c0.roi.width && c.roi.height == c0.roi.height
    && TileOffset(c.OriginX(), c.Tw()) == TileOffset(c0.OriginX(), c0.Tw())
    && TileOffset(c.OriginY(), c.Th()) == TileOffset(c0.OriginY(), c0.Th())
  }

  /** Aligned cursors in step stay in step: they finish together and cut
      the same pieces, moved by the distance between their rois. This is
      the g_assert (res == result) of gegl_buffer_iterator_next. */
  lemma AlignedStep(c0: TileCursor, c: TileCursor, p0: ScanPos, p: ScanPos)
    requires Aligned(c0, c) && Follows(p0, p, c.roi.x - c0.roi.x, c.roi.y - c0.roi.y)
    ensures (c.StepRow(p.nextCol, p.nextRow) < c.roi.height) == (c0.StepRow(p0.nextCol, p0.nextRow) < c0.roi.height)
    ensures Follows(c0.StepPos(p0), c.StepPos(p), c.roi.x - c0.roi.x, c.roi.y - c0.roi.y)
  {
    SameEnd(c.OriginY(), c0.OriginY(), c.Th(), p.nextRow);
    var col, row := c0.StepCol(p0.nextCol), c0.StepRow(p0.nextCol, p0.nextRow);
    SameEnd(c.OriginX(), c0.OriginX(), c.Tw(), col);
    SameEnd(c.OriginY(), c0.OriginY(), c.Th(), row);
  }

  // ---------------------------------------------------------------------
  // The scratch-buffer pool: iterator_buf_pool_get and _release

  /** A BufInfo: a scratch buffer of size bytes, and how many holders it has. */
  datatype BufInfo = BufInfo(size: int, used: int, buf: array<byte>)

  /** The entry iterator_buf_pool_get(size) hands out: the first free one of
      at least size bytes, or |es| when there is none. */
  function FirstFit(es: seq<BufInfo>, size: int): (k: nat)
    ensures k <= |es|
    ensures k < |es| ==> es[k].size >= size && es[k].used == 0
    ensures forall j :: 0 <= j < k ==> !(es[j].size >= size && es[j].used == 0)
  {
    if |es| == 0 then 0
    else if es[0].size >= size && es[0].used == 0 then 0
    else 1 + FirstFit(es[1..], size)
  }

  /** The entry iterator_buf_pool_release(buf) gives back: the first one
      holding buf, or |es| when there is none. */
  function EntryOf(es: seq<BufInfo>, buf: array<byte>): (k: nat)
    ensures k <= |es|
    ensures k < |es| ==> es[k].buf == buf
    ensures forall j :: 0 <= j < k ==> es[j].buf != buf
  {
    if |es| == 0 then 0
    else if es[0].buf == buf then 0
    else 1 + EntryOf(es[1..], buf)
  }

  /** The pool after iterator_buf_pool_get(size), where newBuf is the buffer a
      new allocation yields. */
  function Taken(es: seq<BufInfo>, size: int, newBuf: array<byte>): seq<BufInfo>
  {
    var k := FirstFit(es, size);
    if k < |es| then es[k := es[k].(used := 1)] else es + [BufInfo(size, 1, newBuf)]
  }

  /** The buffer iterator_buf_pool_get(size) returns. */
  function Handed(es: seq<BufInfo>, size: int, newBuf: array<byte>): array<byte>
  {
    var k := FirstFit(es, size);
    if k < |es| then es[k].buf else newBuf
  }

  /** The pool after iterator_buf_pool_release(buf). */
  function Returned(es: seq<BufInfo>, buf: array<byte>): seq<BufInfo>
  {
    var k := EntryOf(es, buf);
    if k < |es| then es[k := es[k].(used := es[k].used - 1)] else es
  }

  /** No two entries share a buffer, and each buffer has the entry's size. */
  predicate PoolOk(es: seq<BufInfo>)
  {
    && (forall i, j :: 0 <= i < j < |es| ==> es[i].buf != es[j].buf)
    && (forall i :: 0 <= i < |es| ==> es[i].buf.Length == es[i].size)
  }

  predicate InPool(es: seq<BufInfo>, buf: array<byte>)
  {
    exists k :: 0 <= k < |es| && es[k].buf == buf
  }

  /** Getting a buffer never drops, resizes or re-points an entry; at most
      one entry is added; the buffer handed out was free, is now marked
      used, and holds at least size bytes. */
  lemma {:induction false} TakenKeeps(es: seq<BufInfo>, size: int, newBuf: array<byte>)
    requires PoolOk(es) && !InPool(es, newBuf) && size >= 0 && newBuf.Length == size
    ensures var r := Taken(es, size, newBuf);
      && PoolOk(r) && |es| <= |r| <= |es| + 1
      && (forall j :: 0 <= j < |es| ==> r[j].size == es[j].size && r[j].buf == es[j].buf)
      && (forall j :: 0 <= j < |es| && es[j].buf != Handed(es, size, newBuf) ==> r[j] == es[j])
      && EntryOf(r, Handed(es, size, newBuf)) < |r| && r[EntryOf(r, Handed(es, size, newBuf))].used == 1
      && Handed(es, size, newBuf).Length >= size
      && (InPool(es, Handed(es, size, newBuf)) ==> es[EntryOf(es, Handed(es, size, newBuf))].used == 0)
  {
    var k := FirstFit(es, size);
    var r := Taken(es, size, newBuf);
    var b := Handed(es, size, newBuf);
    if k < |es| {
      assert r[k].buf == b;
      var e := EntryOf(r, b);
      assert e == k;
      if InPool(es, b) {
        var e2 := EntryOf(es, b);
        assert e2 == k;
      }
    } else {
      assert r[|es|].buf == b;
      var e := EntryOf(r, b);
      assert e == |es|;
      forall i, j | 0 <= i < j < |r| ensures r[i].buf != r[j].buf {
        if j == |es| {
          assert es[i].buf != newBuf;
        }
      }
    }
  }

  /** Releasing the buffer a get handed out restores the pool: the entry is
      free again, and an entry the get added stays, free. */
  lemma ReturnedTaken(es: seq<BufInfo>, size: int, newBuf: array<byte>)
    requires PoolOk(es) && !InPool(es, newBuf) && size >= 0 && newBuf.Length == size
    ensures Returned(Taken(es, size, newBuf), Handed(es, size, newBuf)) ==
      if FirstFit(es, size) < |es| then es else es + [BufInfo(size, 0, newBuf)]
  {
    TakenKeeps(es, size, newBuf);
    var k := FirstFit(es, size);
    if k < |es| {
      assert es[k].used == 0;
      assert es[k := es[k].(used := 0)] == es;
    }
  }

  /** Releasing lowers the use count of the buffer's entry by one and leaves
      every other entry as it was. */
  lemma ReturnedKeeps(es: seq<BufInfo>, buf: array<byte>)
    requires PoolOk(es) && InPool(es, buf)
    ensures var r := Returned(es, buf);
      && PoolOk(r) && |r| == |es|
      && (forall j :: 0 <= j < |es| ==> r[j].size == es[j].size && r[j].buf == es[j].buf)
      && (forall j :: 0 <= j < |es| && es[j].buf != buf ==> r[j] == es[j])
      && (forall j :: 0 <= j < |es| && es[j].buf == buf ==> r[j].used == es[j].used - 1)
  {
    var k :| 0 <= k < |es| && es[k].buf == buf;
    var e := EntryOf(es, buf);
    assert e <= k;
  }

  /** How many holders buf has: its entry's use count, 0 for a buffer that
      is not in the pool. */
  function Uses(es: seq<BufInfo>, buf: array<byte>): int
  {
    var k := EntryOf(es, buf);
    if k < |es| then es[k].used else 0
  }

  /** r has every entry of es, with the same buffer at the same place. */
  predicate KeepsBufs(es: seq<BufInfo>, r: seq<BufInfo>)
  {
    |es| <= |r| && forall j :: 0 <= j < |es| ==> r[j].buf == es[j].buf
  }

  lemma EntryAt(es: seq<BufInfo>, k: int, buf: array<byte>)
    requires PoolOk(es) && 0 <= k < |es| && es[k].buf == buf
    ensures EntryOf(es, buf) == k
  {
  }

  lemma KeptInPool(es: seq<BufInfo>, r: seq<BufInfo>, buf: array<byte>)
    requires KeepsBufs(es, r) && InPool(es, buf)
    ensures InPool(r, buf)
  {
    var k :| 0 <= k < |es| && es[k].buf == buf;
    assert r[k].buf == buf;
  }

  /** A buffer with a holder has an entry in the pool. */
  lemma UsedInPool(es: seq<BufInfo>, buf: array<byte>)
    requires Uses(es, buf) >= 1
    ensures InPool(es, buf)
  {
    var k := EntryOf(es, buf);
    assert es[k].buf == buf;
  }

  /** Two pools holding the same buffers at the same places, where entry j
      has the same count unless it holds except, agree on the uses of every
      buffer but except. */
  lemma SameUses(es: seq<BufInfo>, r: seq<BufInfo>, except: array<byte>, b: array<byte>)
    requires PoolOk(es) && PoolOk(r) && KeepsBufs(es, r) && b != except
    requires forall j :: 0 <= j < |es| && es[j].buf != except ==> r[j].used == es[j].used
    requires forall j :: |es| <= j < |r| ==> r[j].buf == except
    ensures Uses(r, b) == Uses(es, b)
  {
    var k := EntryOf(es, b);
    if k < |es| {
      EntryAt(r, k, b);
    }
  }

  /** A get hands out a buffer that had no holder and now has one; every
      other buffer keeps its count. */
  lemma TakenUses(es: seq<BufInfo>, size: int, newBuf: array<byte>)
    requires PoolOk(es) && size >= 0
    requires FirstFit(es, size) == |es| ==> !InPool(es, newBuf) && newBuf.Length == size
    ensures PoolOk(Taken(es, size, newBuf)) && KeepsBufs(es, Taken(es, size, newBuf))
    ensures Uses(es, Handed(es, size, newBuf)) == 0
    ensures Uses(Taken(es, size, newBuf), Handed(es, size, newBuf)) == 1
    ensures forall b :: b != Handed(es, size, newBuf) ==> Uses(Taken(es, size, newBuf), b) == Uses(es, b)
  {
    var k, r, h := FirstFit(es, size), Taken(es, size, newBuf), Handed(es, size, newBuf);
    if k < |es| {
      assert PoolOk(r);
      EntryAt(es, k, h);
      EntryAt(r, k, h);
    } else {
      TakenKeeps(es, size, newBuf);
      EntryAt(r, k, h);
    }
    forall b | b != h
      ensures Uses(r, b) == Uses(es, b)
    {
      SameUses(es, r, h, b);
    }
  }

  /** A release takes one holder from buf and leaves every other buffer's
      count alone. */
  lemma ReturnedUses(es: seq<BufInfo>, buf: array<byte>)
    requires PoolOk(es) && InPool(es, buf)
    ensures PoolOk(Returned(es, buf)) && KeepsBufs(es, Returned(es, buf))
    ensures Uses(Returned(es, buf), buf) == Uses(es, buf) - 1
    ensures forall b :: b != buf ==> Uses(Returned(es, buf), b) == Uses(es, b)
  {
    ReturnedKeeps(es, buf);
    var k :| 0 <= k < |es| && es[k].buf == buf;
    EntryAt(es, k, buf);
    EntryAt(Returned(es, buf), k, buf);
    forall b | b != buf
      ensures Uses(Returned(es, buf), b) == Uses(es, b)
    {
      SameUses(es, Returned(es, buf), buf, b);
    }
  }

  /** buf_pool: the process-wide GArray of BufInfo entries, created on first
      use. Entries are appended and never removed. */
  class Pool {
    var entries: seq<BufInfo>

    ghost predicate Valid()
      reads this
    {
      PoolOk(entries)
    }

    constructor ()
      ensures entries == [] && Valid()
    {
      entries := [];
    }

    /** iterator_buf_pool_get: the first free entry of at least size bytes
        is marked used and handed out; without one, a new buffer of size
        bytes is allocated and appended, marked used. */
    method Get(size: int) returns (buf: array<byte>)
      requires Valid() && size >= 0
      modifies this
      ensures Valid() && buf.Length >= size
      ensures FirstFit(old(entries), size) < |old(entries)| ==>
        buf == old(entries)[FirstFit(old(entries), size)].buf && entries == Taken(old(entries), size, buf)
      ensures FirstFit(old(entries), size) == |old(entries)| ==>
        fresh(buf) && buf.Length == size && entries == Taken(old(entries), size, buf)
      ensures KeepsBufs(old(entries), entries)
      ensures Uses(old(entries), buf) == 0 && Uses(entries, buf) == 1
      ensures forall b :: b != buf ==> Uses(entries, b) == Uses(old(entries), b)
    {
      var i := 0;
      while i < |entries|
        invariant 0 <= i <= |entries| && entries == old(entries)
        invariant forall j :: 0 <= j < i ==> !(entries[j].size >= size && entries[j].used == 0)
      {
        var info := entries[i];
        if info.size >= size && info.used == 0 {
          TakenUses(entries, size, info.buf);
          entries := entries[i := info.(used := info.used + 1)];
          return info.buf;
        }
        i := i + 1;
      }
      buf := new byte[size];
      TakenUses(entries, size, buf);
      entries := entries + [BufInfo(size, 1, buf)];
    }

    /** iterator_buf_pool_release: the entry holding buf has its use count
        lowered; a buffer that is not in the pool is a fatal error. */
    method Release(buf: array<byte>)
      requires Valid() && InPool(entries, buf)
      modifies this
      ensures Valid() && entries == Returned(old(entries), buf)
      ensures KeepsBufs(old(entries), entries)
      ensures Uses(entries, buf) == Uses(old(entries), buf) - 1
      ensures forall b :: b != buf ==> Uses(entries, b) == Uses(old(entries), b)
    {
      ReturnedUses(entries, buf);
      var i := 0;
      while i < |entries|
        invariant 0 <= i <= |entries| && entries == old(entries)
        invariant forall j :: 0 <= j < i ==> entries[j].buf != buf
      {
        var info := entries[i];
        if info.buf == buf {
          entries := entries[i := info.(used := info.used - 1)];
          return;
        }
        i := i + 1;
      }
    }
  }

  // ---------------------------------------------------------------------
  // GeglBufferIterator

  /** GEGL_BUFFER_MAX_ITERABLES. */
  const MaxIterables: int := 6

  /** GEGL_BUFFER_READ and GEGL_BUFFER_WRITE, and the two flag bits the
      iterator keeps for itself. */
  const ReadFlag: bv32 := 1
  const WriteFlag: bv32 := 2
  const ScanCompatibleFlag: bv32 := 128
  const FormatCompatibleFlag: bv32 := 256

  predicate Has(flags: bv32, bit: bv32)
  {
    flags & bit != 0
  }

  /** The flags gegl_buffer_iterator_add keeps for a participant: the
      caller's, with SCAN_COMPATIBLE and FORMAT_COMPATIBLE added as found. */
  function AddedFlags(flags: bv32, scan: bool, formatOk: bool): bv32
  {
    var f := if scan then flags | ScanCompatibleFlag else flags;
    if formatOk then f | FormatCompatibleFlag else f
  }

  /** For flags carrying only the public bits, the two private bits record
      exactly what add found, and the caller's bits are kept. */
  lemma AddedFlagsIff(flags: bv32, scan: bool, formatOk: bool)
    requires flags & (ScanCompatibleFlag | FormatCompatibleFlag) == 0
    ensures Has(AddedFlags(flags, scan, formatOk), ScanCompatibleFlag) == scan
    ensures Has(AddedFlags(flags, scan, formatOk), FormatCompatibleFlag) == formatOk
    ensures Has(AddedFlags(flags, scan, formatOk), ReadFlag) == Has(flags, ReadFlag)
    ensures Has(AddedFlags(flags, scan, formatOk), WriteFlag) == Has(flags, WriteFlag)
  {
  }

  /** The four bits of a participant's flags that the iterator tests. */
  datatype Flags = Flags(read: bool, write: bool, scan: bool, formatOk: bool)

  function FlagsOf(flags: bv32): Flags
  {
    Flags(Has(flags, ReadFlag), Has(flags, WriteFlag), Has(flags, ScanCompatibleFlag), Has(flags, FormatCompatibleFlag))
  }

  /** data[no]: where the pixels of the current piece are. Direct points into
      the cursor's tile, at a pixel offset; Pooled is a scratch buffer. */
  datatype DataRef = NoData | Direct(tile: Option<TileKey>, offset: int) | Pooled(buf: array<byte>)

  /** A gegl_buffer_get (Fetched) or gegl_buffer_set (Stored) the iterator
      issues on participant no's buffer over roi, in the participant's
      format with GEGL_AUTO_ROWSTRIDE, from or into the scratch buffer buf. */
  datatype Transfer =
    | Fetched(no: int, roi: Rect, buf: array<byte>)
    | Stored(no: int, roi: Rect, buf: array<byte>)

  /** The data of a piece of area cells holds the whole piece: a tile piece
      stays inside its locked tile of tileSize cells, a scratch buffer holds
      area pixels of bpp bytes. */
  predicate Fits(d: DataRef, area: int, bpp: int, tileSize: int)
  {
    match d
    case NoData => false
    case Direct(t, off) => t.Some? && 0 <= off && off + area <= tileSize
    case Pooled(b) => area * bpp <= b.Length
  }

  /** The rectangle a participant covers: the roi given, or by default the
      buffer's extent for participant 0 (first is None) and participant 0's
      rect after it; later participants take participant 0's size. */
  function ParticipantRect(first: Option<Rect>, roi: Option<Rect>, extent: Rect): Rect
  {
    if first.None? then (if roi.Some? then roi.value else extent)
    else
      var r := if roi.Some? then roi.value else first.value;
      Rect(r.x, r.y, first.value.width, first.value.height)
  }

  /** Participant no of an iterator: entry no of its buffer, rect, format,
      flags and i arrays, where the tile cursor is null for a participant
      that is not scan compatible. */
  datatype Part = Part(buffer: Buffer, rect: Rect, format: Format, flags: Flags, cursor: TileCursor?)

  /** The step state of participant no: entry no of the roi, buf and data
      arrays. */
  datatype Slot = Slot(roi: Rect, buf: Option<array<byte>>, data: DataRef)

  /** A slot as add leaves it. */
  const Unset: Slot := Slot(Rect(0, 0, 0, 0), None, NoData)

  /** gegl_buffer_create_sub_buffer: sub shares buffer's storage, tile
      source, shift, format and abyss, over its own extent. */
  predicate SubBuffer(sub: Buffer, buffer: Buffer, extent: Rect)
  {
    && sub.format == buffer.format && sub.storage == buffer.storage && sub.source == buffer.source
    && sub.shiftX == buffer.shiftX && sub.shiftY == buffer.shiftY && sub.abyss == buffer.abyss
    && sub.extent == extent
  }

  /** What add establishes for participant p next to participant 0: the
      sub-buffer's extent starts at the rect, the size is participant 0's,
      and p has a cursor exactly when it is scan compatible, one whose tiles
      line up with participant 0's. */
  predicate Joins(p: Part, p0: Part)
  {
    && p.buffer.storage.tileWidth > 0 && p.buffer.storage.tileHeight > 0
    && p.buffer.extent.x == p.rect.x && p.buffer.extent.y == p.rect.y
    && p.rect.width == p0.rect.width && p.rect.height == p0.rect.height
    && (p.cursor != null <==> p.flags.scan)
    && (p.cursor != null ==>
          && p0.cursor != null && p.cursor.buffer == p.buffer && p.cursor.roi == p.rect
          && Aligned(p0.cursor, p.cursor))
  }

  /** p's cursor, if it has one, is in step with position lead of
      participant 0's walk. */
  ghost predicate Tracks(p: Part, p0: Part, lead: ScanPos)
    reads p.cursor
  {
    p.cursor != null ==>
      p.cursor.Valid() && Follows(lead, p.cursor.Pos(), p.rect.x - p0.rect.x, p.rect.y - p0.rect.y)
  }

  /** The cursors owner gives to participants lo and after. */
  ghost function OwnedFrom(owner: map<TileCursor, int>, lo: int): set<TileCursor>
  {
    set c | c in owner && owner[c] >= lo
  }

  /** The cursors owner gives to participants before hi. */
  ghost function OwnedBelow(owner: map<TileCursor, int>, hi: int): set<TileCursor>
  {
    set c | c in owner && owner[c] < hi
  }

  /** Participant no's cursor, if it has one, is owned by it. */
  predicate OwnedBy(p: Part, owner: map<TileCursor, int>, no: int)
  {
    p.cursor != null ==> p.cursor in owner && owner[p.cursor] == no
  }

  /** Participants lo and after are in step with position p of participant
      0's walk, each owning its cursor. */
  ghost predicate TrackedFrom(parts: seq<Part>, owner: map<TileCursor, int>, lo: nat, p: ScanPos)
    reads OwnedFrom(owner, lo)
    decreases |parts| - lo
  {
    lo < |parts| ==>
      OwnedBy(parts[lo], owner, lo) && Tracks(parts[lo], parts[0], p) && TrackedFrom(parts, owner, lo + 1, p)
  }

  /** Participants before hi are in step with position p of participant 0's
      walk, each owning its cursor. */
  ghost predicate TrackedTo(parts: seq<Part>, owner: map<TileCursor, int>, hi: nat, p: ScanPos)
    reads OwnedBelow(owner, hi)
  {
    0 < hi <= |parts| ==>
      OwnedBy(parts[hi - 1], owner, hi - 1) && TrackedTo(parts, owner, hi - 1, p) && Tracks(parts[hi - 1], parts[0], p)
  }

  lemma {:induction false} TrackedToTracks(parts: seq<Part>, owner: map<TileCursor, int>, hi: nat, j: int, p: ScanPos)
    requires hi <= |parts| && TrackedTo(parts, owner, hi, p) && 0 <= j < hi
    ensures Tracks(parts[j], parts[0], p) && OwnedBy(parts[j], owner, j)
  {
    if j < hi - 1 {
      TrackedToTracks(parts, owner, hi - 1, j, p);
    }
  }

  lemma {:induction false} TrackedToFrom(parts: seq<Part>, owner: map<TileCursor, int>, lo: nat, p: ScanPos)
    requires lo <= |parts| && TrackedTo(parts, owner, |parts|, p)
    ensures TrackedFrom(parts, owner, lo, p)
    decreases |parts| - lo
  {
    if lo < |parts| {
      TrackedToFrom(parts, owner, lo + 1, p);
      TrackedToTracks(parts, owner, |parts|, lo, p);
    }
  }

  /** Appending a participant, and giving owner more cursors, keeps the
      participants in step. */
  lemma {:induction false} TrackedToAppend(parts: seq<Part>, owner: map<TileCursor, int>, q: Part,
                                           owner2: map<TileCursor, int>, hi: nat, p: ScanPos)
    requires 1 <= |parts| && hi <= |parts| && TrackedTo(parts, owner, hi, p)
    requires forall c :: c in owner ==> c in owner2 && owner2[c] == owner[c]
    ensures TrackedTo(parts + [q], owner2, hi, p)
  {
    if hi > 0 {
      TrackedToAppend(parts, owner, q, owner2, hi - 1, p);
      assert (parts + [q])[hi - 1] == parts[hi - 1] && (parts + [q])[0] == parts[0];
    }
  }

  /** A participant's scratch buffer is held from the pool and has room for
      need bytes; scratch data is that buffer until the iterator finishes. */
  predicate Holds(s: Slot, need: int, es: seq<BufInfo>, finished: bool)
  {
    && (s.buf.Some? ==> s.buf.value.Length >= need && Uses(es, s.buf.value) >= 1)
    && (!finished && s.data.Pooled? ==> s.buf == Some(s.data.buf))
  }

  /** Participant 0: it has a cursor over a non-empty rect. */
  predicate Leads(p0: Part)
  {
    && p0.cursor != null && p0.flags.scan
    && p0.cursor.Tw() > 0 && p0.cursor.Th() > 0 && p0.cursor.maxSize > 0
    && p0.cursor.maxSize == p0.cursor.Tw() * p0.cursor.Th()
    && p0.rect.width > 0 && p0.rect.height > 0
  }

  /** The direct path: a scan- and format-compatible participant whose piece
      spans a full tile row works in the tile itself. */
  predicate OnDirectPath(p: Part, roi: Rect)
  {
    p.flags.scan && p.flags.formatOk
      && roi.width == p.buffer.storage.tileWidth
  }

  /** After a step a participant has data, taken from the tile exactly on
      the direct path. */
  predicate Serves(p: Part, s: Slot)
  {
    !s.data.NoData? && (s.data.Direct? <==> OnDirectPath(p, s.roi))
  }

  /** The gegl_buffer_get call of a step for participant no: one when it
      is on the scratch path and reads. */
  function Fetch(no: int, p: Part, s: Slot): seq<Transfer>
  {
    if s.data.Pooled? && p.flags.read then [Fetched(no, s.roi, s.data.buf)] else []
  }

  /** The gegl_buffer_get calls of a step for the participants before n, in
      participant order. */
  function Fetches(parts: seq<Part>, slots: seq<Slot>, n: int): seq<Transfer>
    requires 0 <= n <= |parts| == |slots|
  {
    if n == 0 then [] else Fetches(parts, slots, n - 1) + Fetch(n - 1, parts[n - 1], slots[n - 1])
  }

  /** The calls for the participants before n depend on their pieces and
      data only. */
  lemma {:induction false} FetchesAgree(parts: seq<Part>, s1: seq<Slot>, s2: seq<Slot>, n: int)
    requires 0 <= n <= |parts| == |s1| == |s2|
    requires forall j :: 0 <= j < n ==> s1[j].roi == s2[j].roi && s1[j].data == s2[j].data
    ensures Fetches(parts, s1, n) == Fetches(parts, s2, n)
  {
    if n > 0 {
      FetchesAgree(parts, s1, s2, n - 1);
    }
  }

  /** The gegl_buffer_set call of the write-back for participant no: one
      when it writes and its piece is not on the direct path, handing over
      its scratch buffer, whose first pixels are the piece's. */
  function Store(no: int, p: Part, s: Slot): seq<Transfer>
  {
    if p.flags.write && !OnDirectPath(p, s.roi) && s.buf.Some? then [Stored(no, s.roi, s.buf.value)] else []
  }

  /** The gegl_buffer_set calls of a write-back for the participants
      before n, in participant order. */
  function Stores(parts: seq<Part>, slots: seq<Slot>, n: int): seq<Transfer>
    requires 0 <= n <= |parts| == |slots|
  {
    if n == 0 then [] else Stores(parts, slots, n - 1) + Store(n - 1, parts[n - 1], slots[n - 1])
  }

  /** The pool after each scratch buffer of slots is released in turn. */
  function ReturnedAll(es: seq<BufInfo>, slots: seq<Slot>): seq<BufInfo>
  {
    if |slots| == 0 then es
    else
      var n := |slots| - 1;
      var r := ReturnedAll(es, slots[..n]);
      if slots[n].buf.Some? then Returned(r, slots[n].buf.value) else r
  }

  /** The scratch buffers the slots hold. */
  function Bufs(ss: seq<Slot>): set<array<byte>>
  {
    set j | 0 <= j < |ss| && ss[j].buf.Some? :: ss[j].buf.value
  }

  /** The scratch buffers the slots' data point at. */
  function DataBufs(ss: seq<Slot>): set<array<byte>>
  {
    set j | 0 <= j < |ss| && ss[j].data.Pooled? :: ss[j].data.buf
  }

  /** No two slots hold the same scratch buffer. */
  predicate Disjoint(ss: seq<Slot>)
  {
    forall i, j :: 0 <= i < j < |ss| && ss[i].buf.Some? && ss[j].buf.Some? ==> ss[i].buf.value != ss[j].buf.value
  }

  /** Giving back every scratch buffer the slots hold, each held by one
      slot only, takes one holder from each of them and leaves every other
      buffer's count alone. */
  lemma {:induction false} ReturnedAllUses(es: seq<BufInfo>, slots: seq<Slot>)
    requires PoolOk(es) && Disjoint(slots)
    requires forall j :: 0 <= j < |slots| && slots[j].buf.Some? ==> Uses(es, slots[j].buf.value) >= 1
    ensures PoolOk(ReturnedAll(es, slots))
    ensures forall b :: Uses(ReturnedAll(es, slots), b) == Uses(es, b) - if b in Bufs(slots) then 1 else 0
  {
    if |slots| > 0 {
      var n := |slots| - 1;
      var pre := slots[..n];
      assert forall j :: 0 <= j < n ==> pre[j] == slots[j];
      ReturnedAllUses(es, pre);
      var r := ReturnedAll(es, pre);
      if slots[n].buf.Some? {
        var b := slots[n].buf.value;
        assert b !in Bufs(pre);
        UsedInPool(r, b);
        ReturnedUses(r, b);
        assert Bufs(slots) == Bufs(pre) + {b};
      } else {
        assert Bufs(slots) == Bufs(pre);
      }
    }
  }


  /** While slots are given back in order, the buffer of the next one is
      still in the pool. */
  lemma StillHeld(es: seq<BufInfo>, slots: seq<Slot>, n: int)
    requires PoolOk(es) && Disjoint(slots) && 0 <= n < |slots| && slots[n].buf.Some?
    requires forall j :: 0 <= j < |slots| && slots[j].buf.Some? ==> Uses(es, slots[j].buf.value) >= 1
    ensures InPool(ReturnedAll(es, slots[..n]), slots[n].buf.value)
  {
    var pre := slots[..n];
    assert forall j :: 0 <= j < n ==> pre[j] == slots[j];
    ReturnedAllUses(es, pre);
    UsedInPool(ReturnedAll(es, pre), slots[n].buf.value);
  }

  /** Participant p's slot s after a step to lead: it has data, its piece is
      participant 0's moved to p's rect, and while the iteration goes on the
      data holds the whole piece, within a tile of participant 0's size. */
  predicate Stepped(p: Part, s: Slot, p0: Part, lead: ScanPos, more: bool)
  {
    && Serves(p, s)
    && s.roi == Shift(lead.piece, p.rect.x - p0.rect.x, p.rect.y - p0.rect.y)
    && (more ==> p0.cursor != null && Fits(s.data, s.roi.width * s.roi.height, p.format.bytesPerPixel, p0.cursor.maxSize))
  }

  /** Whether a slot has stepped depends on its piece and data only. */
  lemma SteppedAgree(parts: seq<Part>, s1: seq<Slot>, s2: seq<Slot>, p1: ScanPos, more: bool)
    requires 1 <= |parts| == |s1| == |s2|
    requires forall j :: 0 <= j < |parts| ==> s1[j].roi == s2[j].roi && s1[j].data == s2[j].data
    requires forall j :: 0 <= j < |parts| ==> Stepped(parts[j], s1[j], parts[0], p1, more)
    ensures forall j :: 0 <= j < |parts| ==> Stepped(parts[j], s2[j], parts[0], p1, more)
  {
  }

  /** Participant p's slot s has stepped to p1 from slot s0, keeping the
      scratch buffer it held. */
  predicate Moved(p: Part, s: Slot, s0: Slot, p0: Part, p1: ScanPos, more: bool)
  {
    Stepped(p, s, p0, p1, more) && (s0.buf.Some? ==> s.buf == s0.buf)
  }

  lemma AppendAssoc<T>(a: seq<T>, b: seq<T>, c: seq<T>)
    ensures (a + b) + c == a + (b + c)
  {
  }

  /** A piece of at most a tile's cells fits a scratch buffer sized for a
      full tile. */
  lemma ScratchFits(area: int, bpp: int, maxSize: int, len: int)
    requires 0 <= area <= maxSize && bpp >= 0 && len >= bpp * maxSize
    ensures area * bpp <= len
  {
    if bpp > 0 {
      MulLe(area, maxSize, bpp);
    }
  }

  /** A step moves the scan on: down to a later tile row, or along the row
      from a column inside the roi. */
  predicate Advanced(p0: ScanPos, p: ScanPos, width: int)
  {
    p0.nextRow < p.nextRow || (p0.nextRow == p.nextRow && p0.nextCol < width && p0.nextCol < p.nextCol)
  }

  /** gegl_buffer_create_sub_buffer. */
  method NewSub(buffer: Buffer, extent: Rect) returns (sub: Buffer)
    ensures fresh(sub) && SubBuffer(sub, buffer, extent)
  {
    sub := new Buffer(buffer.format, buffer.storage, buffer.source, buffer.shiftX, buffer.shiftY, extent, buffer.abyss, buffer.U);
  }

  /** Participant 0 as gegl_buffer_iterator_add makes it: a sub-buffer over
      the rect, the format, and a tile cursor, since participant 0 is where
      scan alignment is based. */
  method MakeFirst(buffer: Buffer, roi: Option<Rect>, format: Option<Format>, access: bv32) returns (p: Part)
    requires buffer.storage.tileWidth > 0 && buffer.storage.tileHeight > 0
    requires access & (ScanCompatibleFlag | FormatCompatibleFlag) == 0
    requires ParticipantRect(None, roi, buffer.extent).width > 0
    requires ParticipantRect(None, roi, buffer.extent).height > 0
    ensures p.rect == ParticipantRect(None, roi, buffer.extent) && fresh(p.buffer) && SubBuffer(p.buffer, buffer, p.rect)
    ensures p.format == if format.Some? then format.value else buffer.format
    ensures p.flags == FlagsOf(AddedFlags(access, true, p.format == buffer.format))
    ensures p.cursor != null && fresh(p.cursor) && p.cursor.Valid() && p.cursor.Pos() == StartPos
    ensures Joins(p, p) && Leads(p)
  {
    var rect := if roi.Some? then roi.value else buffer.extent;
    var sub := NewSub(buffer, rect);
    var fmt := if format.Some? then format.value else buffer.format;
    var cursor := new TileCursor(sub, rect);
    MulLe(1, sub.storage.tileWidth, sub.storage.tileHeight);
    AddedFlagsIff(access, true, fmt == sub.format);
    p := Part(sub, rect, fmt, FlagsOf(AddedFlags(access, true, fmt == sub.format)), cursor);
  }

  /** A later participant as gegl_buffer_iterator_add makes it: a sub-buffer
      over its roi (participant 0's rect by default) with participant 0's
      size, and a tile cursor when scan compatible with participant 0. */
  method MakeOther(buffer: Buffer, roi: Option<Rect>, format: Option<Format>, access: bv32, p0: Part) returns (p: Part)
    requires buffer.storage.tileWidth > 0 && buffer.storage.tileHeight > 0
    requires access & (ScanCompatibleFlag | FormatCompatibleFlag) == 0
    requires Joins(p0, p0) && Leads(p0)
    ensures p.rect == ParticipantRect(Some(p0.rect), roi, buffer.extent)
    ensures fresh(p.buffer) && SubBuffer(p.buffer, buffer, if roi.Some? then roi.value else p0.rect)
    ensures p.format == if format.Some? then format.value else buffer.format
    ensures p.cursor != null <==> ScanCompatible(p0.buffer, p0.rect.x, p0.rect.y, buffer, p.rect.x, p.rect.y)
    ensures p.flags == FlagsOf(AddedFlags(access, p.cursor != null, p.format == buffer.format))
    ensures p.cursor != null ==> fresh(p.cursor) && p.cursor.Valid() && p.cursor.Pos() == StartPos && p.cursor.maxSize > 0
    ensures Joins(p, p0)
  {
    var r := if roi.Some? then roi.value else p0.rect;
    var sub := NewSub(buffer, r);
    var fmt := if format.Some? then format.value else buffer.format;
    var rect := Rect(r.x, r.y, p0.rect.width, p0.rect.height);
    var scan := ScanCompatible(p0.buffer, p0.rect.x, p0.rect.y, sub, rect.x, rect.y);
    var cursor: TileCursor? := null;
    if scan {
      cursor := new TileCursor(sub, rect);
      MulLe(1, sub.storage.tileWidth, sub.storage.tileHeight);
    }
    AddedFlagsIff(access, scan, fmt == sub.format);
    p := Part(sub, rect, fmt, FlagsOf(AddedFlags(access, scan, fmt == sub.format)), cursor);
    ScanAligned(p, p0);
  }

  /** A scan-compatible participant's cursor lines up with participant 0's:
      the tile grid of its sub-buffer meets its rect's corner at the offsets
      where participant 0's meets participant 0's. */
  lemma ScanAligned(p: Part, p0: Part)
    requires Joins(p0, p0) && p0.cursor != null
    requires p.buffer.storage.tileWidth > 0 && p.buffer.storage.tileHeight > 0
    requires p.buffer.extent.x == p.rect.x && p.buffer.extent.y == p.rect.y
    requires p.rect.width == p0.rect.width && p.rect.height == p0.rect.height
    requires p.cursor != null <==> p.flags.scan
    requires p.cursor != null <==> ScanCompatible(p0.buffer, p0.rect.x, p0.rect.y, p.buffer, p.rect.x, p.rect.y)
    requires p.cursor != null ==> p.cursor.buffer == p.buffer && p.cursor.roi == p.rect
    ensures Joins(p, p0)
  {
    ScanCompatibleIff(p0.buffer, p0.rect.x, p0.rect.y, p.buffer, p.rect.x, p.rect.y);
  }

  /** A GeglBufferIterator over up to MaxIterables participants, each a
      sub-buffer of a caller's buffer over its own rect. Participants that
      are scan compatible with participant 0 walk with their own tile cursor,
      in step with participant 0's; the others copy participant 0's piece.
      The gegl_buffer_get and gegl_buffer_set calls are recorded in
      transfers, in order. */
  class Iterator {
    /** The process-wide scratch-buffer pool. */
    const pool: Pool
    /** The participants; iterators is |parts|. */
    var parts: seq<Part>
    var slots: seq<Slot>
    var iterationNo: nat
    /** gegl_buffer_iterator_next has returned FALSE: buf[0] holds the
        0xdeadbeef mark and the iterator is freed. */
    var finished: bool
    /** The number of pixels of the current pieces. */
    var length: int
    var transfers: seq<Transfer>
    /** The scan position all cursors share: participant 0's. */
    ghost var pos: ScanPos
    /** The participants' tile cursors, each mapped to its participant, and
        their tile sources. */
    ghost var owner: map<TileCursor, int>
    ghost var sources: set<TileSource>

    /** Every participant's tile source is in sources, and its cursor, if
        it has one, is owned by it alone: what a step may change. */
    ghost predicate Owns()
      reads this`parts, this`owner, this`sources
    {
      forall no :: 0 <= no < |parts| ==>
        parts[no].buffer.source in sources
        && (parts[no].cursor != null ==> parts[no].cursor in owner && owner[parts[no].cursor] == no)
    }

    /** No two participants hold the same scratch buffer. */
    ghost predicate Apart()
      reads this`slots
    {
      Disjoint(slots)
    }

    /** Participant 0 leads: it has a cursor over a non-empty rect, and the
        shared position is the start before the first step and past the
        last tile row once finished. */
    ghost predicate Lead()
      reads this`parts, this`slots, this`iterationNo, this`finished, this`pos
    {
      && 1 <= |parts| <= MaxIterables && |slots| == |parts|
      && Leads(parts[0])
      && (iterationNo == 0 ==> pos == StartPos && !finished)
      && (iterationNo > 0 ==> pos.steps > 0)
      && (!finished <==> pos.nextRow < parts[0].rect.height)
    }

    /** ensure_buf's size: a full tile of participant 0 in participant no's
        format. */
    function Need(no: int): int
      requires 0 <= no < |parts| && parts[0].cursor != null
      reads this`parts
    {
      parts[no].format.bytesPerPixel * parts[0].cursor.maxSize
    }

    /** Every participant is in step with position p of participant 0's
        walk, owning its cursor. */
    ghost predicate InStep(p: ScanPos)
      reads this`parts, this`owner, owner.Keys
    {
      TrackedTo(parts, owner, |parts|, p)
    }

    /** Every participant joins participant 0. */
    ghost predicate Joined()
      reads this`parts
    {
      1 <= |parts| && forall no :: 0 <= no < |parts| ==> Joins(parts[no], parts[0])
    }

    /** The slots: each holds its scratch buffer from the pool, all are
        unset before the first step, and after a step each has stepped to
        the shared position. */
    ghost predicate Kept()
      reads this`parts, this`slots, this`iterationNo, this`finished, this`pos, pool
    {
      && 1 <= |parts| == |slots| && parts[0].cursor != null
      && (forall no :: 0 <= no < |parts| ==> Holds(slots[no], Need(no), pool.entries, finished))
      && (iterationNo == 0 ==> forall no :: 0 <= no < |parts| ==> slots[no] == Unset)
      && (iterationNo > 0 ==> forall no :: 0 <= no < |parts| ==> Stepped(parts[no], slots[no], parts[0], pos, !finished))
    }

    ghost predicate Valid()
      reads this`parts, this`slots, this`iterationNo, this`finished, this`pos, this`owner, this`sources, pool
      reads owner.Keys
    {
      && |parts| <= MaxIterables && |slots| == |parts| && pool.Valid() && Owns() && Apart()
      && (|parts| == 0 ==> iterationNo == 0 && !finished)
      && (|parts| >= 1 ==>
            && Lead() && Joined() && InStep(pos) && Kept())
    }

    /** g_new0: an iterator without participants. */
    constructor (pool: Pool)
      requires pool.Valid()
      ensures this.pool == pool && Valid() && parts == [] && slots == []
      ensures iterationNo == 0 && !finished && length == 0 && transfers == []
      ensures owner == map[] && sources == {}
    {
      this.pool := pool;
      parts, slots := [], [];
      iterationNo, finished, length := 0, false, 0;
      transfers := [];
      pos := StartPos;
      owner, sources := map[], {};
    }

    /** Appending a participant that joins participant 0 and has not moved
        keeps the invariant before the first step. */
    lemma Appended(before: seq<Part>, s0: seq<Slot>, p: Part, sources0: set<TileSource>)
      requires parts == before + [p] && slots == s0 + [Unset] && sources == sources0 + {p.buffer.source}
      requires |before| < MaxIterables && |s0| == |before|
      requires forall no :: 0 <= no < |s0| ==> s0[no] == Unset
      requires forall no :: 0 <= no < |before| ==> before[no].buffer.source in sources0
      requires pool.Valid() && iterationNo == 0 && !finished && pos == StartPos
      requires forall no :: 0 <= no < |before| ==> Joins(before[no], before[0])
      requires TrackedTo(parts, owner, |parts|, pos)
      requires |before| > 0 ==> Joins(p, before[0]) && Leads(before[0])
      requires |before| == 0 ==> Joins(p, p) && Leads(p)
      requires p.cursor != null ==> p.cursor.Valid() && p.cursor.Pos() == StartPos && p.cursor.maxSize > 0
      ensures Valid()
    {
      forall no | 0 <= no < |parts|
        ensures OwnedBy(parts[no], owner, no)
      {
        TrackedToTracks(parts, owner, |parts|, no, pos);
      }
    }

    /** After p joined, the tile sources are the old ones and p's, and the
        cursors the old ones and p's, if it has one. */
    ghost predicate Enrolled(owner0: map<TileCursor, int>, sources0: set<TileSource>, p: Part)
      reads this`owner, this`sources
    {
      && sources == sources0 + {p.buffer.source}
      && owner.Keys == owner0.Keys + (if p.cursor != null then {p.cursor} else {})
    }

    /** The participant table grows by p, with an unset slot. */
    method Join(p: Part)
      requires Valid() && iterationNo == 0 && |parts| < MaxIterables
      requires |parts| > 0 ==> Joins(p, parts[0])
      requires |parts| == 0 ==> Joins(p, p) && Leads(p)
      requires p.cursor != null ==> p.cursor.Valid() && p.cursor.Pos() == StartPos && p.cursor.maxSize > 0
      requires p.cursor != null ==> p.cursor !in owner
      requires |parts| == 0 ==> pos == StartPos
      modifies this`parts, this`slots, this`owner, this`sources
      ensures Valid() && parts == old(parts) + [p] && slots == old(slots) + [Unset]
      ensures Enrolled(old(owner), old(sources), p)
    {
      if |parts| == 0 {
        JoinFirst(p);
      } else {
        JoinNext(p);
      }
    }

    /** The first participant joins an empty table. */
    method JoinFirst(p: Part)
      requires Valid() && iterationNo == 0 && |parts| == 0 && Joins(p, p) && Leads(p)
      requires p.cursor != null ==> p.cursor.Valid() && p.cursor.Pos() == StartPos && p.cursor.maxSize > 0
      requires p.cursor != null ==> p.cursor !in owner
      requires pos == StartPos
      modifies this`parts, this`slots, this`owner, this`sources
      ensures Valid() && parts == [p] && slots == old(slots) + [Unset]
      ensures Enrolled(old(owner), old(sources), p)
    {
      ghost var owner2 := if p.cursor != null then owner[p.cursor := 0] else owner;
      assert TrackedTo([p], owner2, 1, pos);
      ghost var s0, sources0 := slots, sources;
      parts, slots, sources, owner := [p], slots + [Unset], sources + {p.buffer.source}, owner2;
      assert unchanged(OwnedBelow(owner, |parts|));
      Appended([], s0, p, sources0);
    }

    /** A later participant joins a table that already has a leader. */
    method JoinNext(p: Part)
      requires Valid() && iterationNo == 0 && 0 < |parts| < MaxIterables && Joins(p, parts[0])
      requires p.cursor != null ==> p.cursor.Valid() && p.cursor.Pos() == StartPos && p.cursor.maxSize > 0
      requires p.cursor != null ==> p.cursor !in owner
      modifies this`parts, this`slots, this`owner, this`sources
      ensures Valid() && parts == old(parts) + [p] && slots == old(slots) + [Unset]
      ensures Enrolled(old(owner), old(sources), p)
    {
      ghost var before := parts;
      assert forall no :: 0 <= no < |before| ==> Joins(before[no], before[0]);
      assert Leads(before[0]);
      ghost var owner2 := if p.cursor != null then owner[p.cursor := |before|] else owner;
      TrackedToAppend(before, owner, p, owner2, |before|, pos);
      assert (before + [p])[|before|] == p;
      assert forall no :: 0 <= no < |slots| ==> slots[no] == Unset;
      assert forall no :: 0 <= no < |before| ==> before[no].buffer.source in sources;
      Enlist(before, p, owner2);
    }

    /** The table's update for a later participant, once its cursor is
        known to be in step. */
    method Enlist(ghost before: seq<Part>, p: Part, ghost owner2: map<TileCursor, int>)
      requires parts == before && 0 < |before| < MaxIterables && |slots| == |before|
      requires forall no :: 0 <= no < |slots| ==> slots[no] == Unset
      requires forall no :: 0 <= no < |before| ==> before[no].buffer.source in sources
      requires pool.Valid() && iterationNo == 0 && !finished && pos == StartPos
      requires Joins(p, before[0]) && Leads(before[0])
      requires forall no :: 0 <= no < |before| ==> Joins(before[no], before[0])
      requires p.cursor != null ==> p.cursor.Valid() && p.cursor.Pos() == StartPos && p.cursor.maxSize > 0
      requires TrackedTo(before + [p], owner2, |before| + 1, pos)
      requires owner2 == if p.cursor != null then owner[p.cursor := |before|] else owner
      modifies this`parts, this`slots, this`owner, this`sources
      ensures Valid() && parts == old(parts) + [p] && slots == old(slots) + [Unset]
      ensures Enrolled(old(owner), old(sources), p)
    {
      ghost var s0, sources0 := slots, sources;
      parts, slots, sources, owner := parts + [p], slots + [Unset], sources + {p.buffer.source}, owner2;
      assert unchanged(OwnedBelow(owner, |parts|));
      Appended(before, s0, p, sources0);
    }

    /** gegl_buffer_iterator_add: a participant joins over a sub-buffer of
        buffer covering its rect. More than MaxIterables participants is a
        fatal error; adding after the first step is not modelled. */
    method Add(buffer: Buffer, roi: Option<Rect>, format: Option<Format>, access: bv32) returns (self: int)
      requires Valid() && iterationNo == 0 && |parts| < MaxIterables
      requires access & (ScanCompatibleFlag | FormatCompatibleFlag) == 0
      requires buffer.storage.tileWidth > 0 && buffer.storage.tileHeight > 0
      requires |parts| == 0 ==> ParticipantRect(None, roi, buffer.extent).width > 0
      requires |parts| == 0 ==> ParticipantRect(None, roi, buffer.extent).height > 0
      modifies this`parts, this`slots, this`length, this`pos, this`owner, this`sources
      ensures Valid() && self == |old(parts)| && |parts| == self + 1 && parts[..self] == old(parts)
      ensures slots == old(slots) + [Unset] && Enrolled(old(owner), old(sources), parts[self])
      ensures iterationNo == 0 && !finished && pos == StartPos && (self == 0 ==> length == 0)
      ensures var p, r0 := parts[self], if self == 0 then None else Some(parts[0].rect);
        && p.rect == ParticipantRect(r0, roi, buffer.extent)
        && fresh(p.buffer)
        && SubBuffer(p.buffer, buffer, if roi.Some? then roi.value else if r0.Some? then r0.value else buffer.extent)
        && p.format == (if format.Some? then format.value else buffer.format)
        && (p.cursor != null <==>
              self == 0 || ScanCompatible(parts[0].buffer, parts[0].rect.x, parts[0].rect.y, buffer, p.rect.x, p.rect.y))
        && p.flags == FlagsOf(AddedFlags(access, p.cursor != null, p.format == buffer.format))
        && (p.cursor != null ==> fresh(p.cursor) && p.cursor.Pos() == StartPos)
    {
      if |parts| == 0 {
        // the zeroing at the first add; the tables are empty already
        length := 0;
        pos := StartPos;
      }
      var p;
      if |parts| == 0 {
        p := MakeFirst(buffer, roi, format, access);
      } else {
        p := MakeOther(buffer, roi, format, access, parts[0]);
      }
      self := |parts|;
      Join(p);
    }
    /** Every participant's scratch buffer, if it has one, is held from the
        pool and has room for a full tile. */
    ghost predicate AllHold()
      requires |slots| == |parts| && |parts| >= 1 && parts[0].cursor != null
      reads this`parts, this`slots, pool
    {
      forall j :: 0 <= j < |parts| ==> Holds(slots[j], Need(j), pool.entries, false)
    }

    /** ensure_buf: participant no gets a scratch buffer of a full tile in
        its format from the pool, unless it holds one already. */
    method EnsureBuf(no: int) returns (b: array<byte>)
      requires 0 <= no < |parts| == |slots| && Leads(parts[0]) && pool.Valid()
      requires Holds(slots[no], Need(no), pool.entries, false)
      modifies this`slots, pool
      ensures pool.Valid() && slots == old(slots)[no := old(slots[no]).(buf := Some(b))]
      ensures old(slots[no].buf).Some? ==> b == old(slots[no].buf).value && pool.entries == old(pool.entries)
      ensures old(slots[no].buf).None? ==> Uses(old(pool.entries), b) == 0
      ensures b.Length >= Need(no) && Uses(pool.entries, b) >= 1
      ensures forall c :: c != b ==> Uses(pool.entries, c) == Uses(old(pool.entries), c)
    {
      if slots[no].buf.None? {
        MulLe(0, parts[no].format.bytesPerPixel, parts[0].cursor.maxSize);
        b := pool.Get(Need(no));
        slots := slots[no := slots[no].(buf := Some(b))];
      } else {
        b := slots[no].buf.value;
      }
    }

    /** The scratch path of a step for participant no over the piece roi:
        ensure_buf, a gegl_buffer_get of the piece when the participant
        reads, and data pointing at the scratch buffer. */
    method ToScratch(no: int, roi: Rect)
      requires 0 <= no < |parts| == |slots| && Leads(parts[0]) && pool.Valid() && Apart() && AllHold()
      modifies this`slots, this`transfers, pool
      ensures |slots| == |old(slots)| && pool.Valid() && Apart() && AllHold()
      ensures slots[no].roi == roi && slots[no].data.Pooled? && slots[no].buf == Some(slots[no].data.buf)
      ensures slots[no].data.buf.Length >= Need(no)
      ensures old(slots[no].buf).Some? ==> slots[no].buf == old(slots[no].buf)
      ensures forall j :: 0 <= j < |slots| && j != no ==> slots[j] == old(slots[j])
      ensures transfers == old(transfers) + Fetch(no, parts[no], slots[no])
    {
      ghost var es, before := pool.entries, slots;
      var b := EnsureBuf(no);
      forall j | 0 <= j < |slots| && j != no && slots[j].buf.Some?
        ensures slots[j].buf.value != b && Uses(pool.entries, slots[j].buf.value) >= 1
      {
        assert Holds(before[j], Need(j), es, false);
        if before[no].buf.Some? {
          assert j < no || no < j;
        }
      }
      if parts[no].flags.read {
        transfers := transfers + [Fetched(no, roi, b)];
      }
      slots := slots[no := Slot(roi, Some(b), Pooled(b))];
    }

    /** The cursor half of a step for participant no, scan compatible: its
        cursor moves on from lead's position (moved to its rect) and roi[no]
        becomes the cursor's piece. A piece in hand is at most a tile of
        participant 0's size, and a locked one lies inside its tile. */
    method CursorStep(no: int, ghost lead: ScanPos) returns (res: bool)
      requires 0 <= no < |parts| && Leads(parts[0]) && Joins(parts[0], parts[0])
      requires Joins(parts[no], parts[0]) && parts[no].cursor != null && Tracks(parts[no], parts[0], lead)
      requires lead.nextRow < parts[0].rect.height && parts[0].cursor.StepPos(lead).steps > 0
      modifies parts[no].cursor, parts[no].buffer.source`requests
      ensures res == (parts[0].cursor.StepRow(lead.nextCol, lead.nextRow) < parts[0].rect.height)
      ensures Tracks(parts[no], parts[0], parts[0].cursor.StepPos(lead))
      ensures var c, p1 := parts[no].cursor, parts[0].cursor.StepPos(lead);
        && c.roi2 == Shift(p1.piece, parts[no].rect.x - parts[0].rect.x, parts[no].rect.y - parts[0].rect.y)
        && c.emitted == old(c.emitted) + (if res then [c.roi2] else [])
        && (res ==> c.tile.Some? && 1 <= c.roi2.width * c.roi2.height <= parts[0].cursor.maxSize)
        && (res && c.roi2.width == c.Tw() ==>
              0 <= c.subOffset && c.subOffset + c.roi2.width * c.roi2.height <= parts[0].cursor.maxSize)
    {
      var c := parts[no].cursor;
      ghost var c0 := parts[0].cursor;
      AlignedStep(c0, c, lead, c.Pos());
      res := c.Next();
      if res {
        c.InHandFits();
      }
    }

    /** The data half of a step for participant no, scan compatible, whose
        cursor has just moved to the piece roi[no]: on the direct path data
        points into the locked tile, otherwise at a scratch buffer. */
    method ServeTile(no: int, ghost p1: ScanPos, ghost more: bool)
      requires 0 <= no < |parts| == |slots| && Leads(parts[0]) && Joins(parts[no], parts[0]) && parts[no].cursor != null
      requires pool.Valid() && Apart() && AllHold()
      requires var c := parts[no].cursor;
        && c.roi2 == Shift(p1.piece, parts[no].rect.x - parts[0].rect.x, parts[no].rect.y - parts[0].rect.y)
        && (more ==> c.tile.Some? && 1 <= c.roi2.width * c.roi2.height <= parts[0].cursor.maxSize)
        && (more && c.roi2.width == c.Tw() ==>
              0 <= c.subOffset && c.subOffset + c.roi2.width * c.roi2.height <= parts[0].cursor.maxSize)
      modifies this`slots, this`transfers, this`length, pool
      ensures |slots| == |old(slots)| && length == slots[no].roi.width * slots[no].roi.height
      ensures Stepped(parts[no], slots[no], parts[0], p1, more)
      ensures pool.Valid() && Apart() && AllHold()
      ensures old(slots[no].buf).Some? ==> slots[no].buf == old(slots[no].buf)
      ensures forall j :: 0 <= j < |slots| && j != no ==> slots[j] == old(slots[j])
      ensures transfers == old(transfers) + Fetch(no, parts[no], slots[no])
    {
      var c := parts[no].cursor;
      if parts[no].flags.formatOk && c.roi2.width == c.Tw() {
        slots := slots[no := slots[no].(roi := c.roi2, data := Direct(c.tile, c.subOffset))];
      } else {
        ToScratch(no, c.roi2);
        if more {
          ScratchFits(slots[no].roi.width * slots[no].roi.height, parts[no].format.bytesPerPixel,
            parts[0].cursor.maxSize, slots[no].data.buf.Length);
        }
      }
      length := slots[no].roi.width * slots[no].roi.height;
    }
    /** A step for participant no, scan compatible: its cursor moves on
        from lead to the successor position and its data is served there;
        res is the cursor's answer. */
    method ScanStep(no: int, ghost lead: ScanPos) returns (res: bool)
      requires 0 <= no < |parts| == |slots| && Leads(parts[0]) && Joins(parts[0], parts[0])
      requires Joins(parts[no], parts[0]) && parts[no].cursor != null && Tracks(parts[no], parts[0], lead)
      requires lead.nextRow < parts[0].rect.height && parts[0].cursor.StepPos(lead).steps > 0
      requires pool.Valid() && Apart() && AllHold()
      modifies this`slots, this`transfers, this`length, parts[no].cursor, parts[no].buffer.source`requests, pool
      ensures |slots| == |old(slots)|
      ensures res == (parts[0].cursor.StepRow(lead.nextCol, lead.nextRow) < parts[0].rect.height)
      ensures Tracks(parts[no], parts[0], parts[0].cursor.StepPos(lead))
      ensures parts[no].cursor.emitted == old(parts[no].cursor.emitted) + if res then [parts[no].cursor.roi2] else []
      ensures res ==> 1 <= slots[no].roi.width * slots[no].roi.height <= parts[0].cursor.maxSize
      ensures length == slots[no].roi.width * slots[no].roi.height
      ensures Stepped(parts[no], slots[no], parts[0], parts[0].cursor.StepPos(lead), res)
      ensures pool.Valid() && Apart() && AllHold()
      ensures old(slots[no].buf).Some? ==> slots[no].buf == old(slots[no].buf)
      ensures forall j :: 0 <= j < |slots| && j != no ==> slots[j] == old(slots[j])
      ensures transfers == old(transfers) + Fetch(no, parts[no], slots[no])
    {
      res := CursorStep(no, lead);
      ServeTile(no, parts[0].cursor.StepPos(lead), res);
    }

    /** A step for participant no, not scan compatible: roi[no] is roi[0]
        moved by the distance between the rects, and data is a scratch
        buffer. */
    method StepCopy(no: int, ghost p1: ScanPos, ghost more: bool)
      requires 0 < no < |parts| == |slots| && Leads(parts[0]) && Joins(parts[no], parts[0]) && parts[no].cursor == null
      requires pool.Valid() && Apart() && AllHold()
      requires slots[0].roi == p1.piece
      requires more ==> 0 <= slots[0].roi.width * slots[0].roi.height <= parts[0].cursor.maxSize
      modifies this`slots, this`transfers, this`length, pool
      ensures |slots| == |old(slots)| && length == slots[no].roi.width * slots[no].roi.height
      ensures Stepped(parts[no], slots[no], parts[0], p1, more)
      ensures pool.Valid() && Apart() && AllHold()
      ensures old(slots[no].buf).Some? ==> slots[no].buf == old(slots[no].buf)
      ensures forall j :: 0 <= j < |slots| && j != no ==> slots[j] == old(slots[j])
      ensures transfers == old(transfers) + Fetch(no, parts[no], slots[no])
    {
      var r := slots[0].roi;
      var roi := Rect(r.x + (parts[no].rect.x - parts[0].rect.x), r.y + (parts[no].rect.y - parts[0].rect.y), r.width, r.height);
      ToScratch(no, roi);
      if more {
        ScratchFits(roi.width * roi.height, parts[no].format.bytesPerPixel, parts[0].cursor.maxSize,
          slots[no].data.buf.Length);
      }
      length := roi.width * roi.height;
    }

    /** What holds between the steps and is not changed by them: participant
        0 leads, every participant joins it, owns its cursor and source, and
        no two share a cursor. */
    ghost predicate Fixed()
      reads this`parts, this`owner, this`sources
    {
      && 1 <= |parts| <= MaxIterables && Leads(parts[0]) && Owns()
      && (forall j :: 0 <= j < |parts| ==> Joins(parts[j], parts[0]))
    }

    /** The cursors' side of a step once the participants before no have
        moved from lead to its successor p1: the ones before no follow p1,
        the others still lead; result is participant 0's answer and e0 the
        pieces it had handed out before the step. */
    ghost predicate Tracking(no: int, lead: ScanPos, p1: ScanPos, result: bool, e0: seq<Rect>)
      reads this`parts, this`owner, this`sources, owner.Keys
    {
      && Fixed() && 1 <= no <= |parts|
      && lead.nextRow < parts[0].rect.height && p1 == parts[0].cursor.StepPos(lead) && p1.steps > 0
      && TrackedFrom(parts, owner, no, lead) && TrackedTo(parts, owner, no, p1)
      && result == (parts[0].cursor.StepRow(lead.nextCol, lead.nextRow) < parts[0].rect.height)
      && (result ==> 0 <= p1.piece.width * p1.piece.height <= parts[0].cursor.maxSize)
      && parts[0].cursor.emitted == e0 + if result then [parts[0].cursor.roi2] else []
    }

    /** The data side of the same state: the participants before no have
        their slots served at p1 from slots s0, the others keep theirs, and
        transfers grew from t0 by their reads. */
    ghost predicate Serving(no: int, p1: ScanPos, result: bool, s0: seq<Slot>, t0: seq<Transfer>)
      reads this`parts, this`slots, this`transfers, this`length, this`finished, pool
    {
      && 1 <= no <= |parts| == |slots| == |s0| && Leads(parts[0]) && !finished
      && pool.Valid() && Apart() && AllHold()
      && (forall j {:trigger s0[j]} :: no <= j < |parts| ==> slots[j] == s0[j])
      && (forall j {:trigger s0[j]} :: 0 <= j < no ==> Moved(parts[j], slots[j], s0[j], parts[0], p1, result))
      && transfers == t0 + Fetches(parts, slots, no)
      && length == p1.piece.width * p1.piece.height && slots[0].roi == p1.piece
    }

    /** The state of a step once the participants before no have moved. */
    ghost predicate Midway(no: int, lead: ScanPos, p1: ScanPos, result: bool, s0: seq<Slot>, t0: seq<Transfer>, e0: seq<Rect>)
      reads this`parts, this`slots, this`transfers, this`length, this`finished, this`owner, this`sources, pool, owner.Keys
    {
      Tracking(no, lead, p1, result, e0) && Serving(no, p1, result, s0, t0)
    }

    /** The first pass of the stepping loop: participant 0's cursor steps
        from lead, its answer becomes the result, and its data is served. */
    method LeadStep(ghost lead: ScanPos) returns (result: bool)
      requires Fixed() && |parts| == |slots| && pool.Valid() && Apart() && AllHold() && !finished
      requires TrackedFrom(parts, owner, 0, lead)
      requires lead.nextRow < parts[0].rect.height && parts[0].cursor.StepPos(lead).steps > 0
      modifies this`slots, this`transfers, this`length, parts[0].cursor, parts[0].buffer.source`requests, pool
      ensures Midway(1, lead, parts[0].cursor.StepPos(lead), result, old(slots), old(transfers), old(parts[0].cursor.emitted))
    {
      result := ScanStep(0, lead);
      assert unchanged(OwnedFrom(owner, 1));
    }

    /** The cursor half of a pass for a scan-compatible participant no: its
        cursor steps to p1 and agrees with participant 0's answer (the
        g_error of gegl_buffer_iterator_next when it does not). */
    method MovePart(no: int, ghost lead: ScanPos, ghost p1: ScanPos, result: bool,
                    ghost s0: seq<Slot>, ghost t0: seq<Transfer>, ghost e0: seq<Rect>)
      requires Midway(no, lead, p1, result, s0, t0, e0) && no < |parts| && parts[no].cursor != null
      modifies parts[no].cursor, parts[no].buffer.source`requests
      ensures Tracking(no + 1, lead, p1, result, e0) && Serving(no, p1, result, s0, t0)
      ensures var c := parts[no].cursor;
        && c.roi2 == Shift(p1.piece, parts[no].rect.x - parts[0].rect.x, parts[no].rect.y - parts[0].rect.y)
        && (result ==> c.tile.Some? && 1 <= c.roi2.width * c.roi2.height <= parts[0].cursor.maxSize)
        && (result && c.roi2.width == c.Tw() ==>
              0 <= c.subOffset && c.subOffset + c.roi2.width * c.roi2.height <= parts[0].cursor.maxSize)
    {
      var res := CursorStep(no, lead);
      assert res == result;
      assert unchanged(OwnedBelow(owner, no)) && unchanged(OwnedFrom(owner, no + 1));
    }

    /** The data half of a pass for a scan-compatible participant no whose
        cursor has just moved to p1. */
    method ServePart(no: int, ghost p1: ScanPos, result: bool, ghost s0: seq<Slot>, ghost t0: seq<Transfer>)
      requires Serving(no, p1, result, s0, t0) && no < |parts| && Joins(parts[no], parts[0]) && parts[no].cursor != null
      requires var c := parts[no].cursor;
        && c.roi2 == Shift(p1.piece, parts[no].rect.x - parts[0].rect.x, parts[no].rect.y - parts[0].rect.y)
        && (result ==> c.tile.Some? && 1 <= c.roi2.width * c.roi2.height <= parts[0].cursor.maxSize)
        && (result && c.roi2.width == c.Tw() ==>
              0 <= c.subOffset && c.subOffset + c.roi2.width * c.roi2.height <= parts[0].cursor.maxSize)
      modifies this`slots, this`transfers, this`length, pool
      ensures Serving(no + 1, p1, result, s0, t0)
    {
      ghost var before := slots;
      ServeTile(no, p1, result);
      FetchesAgree(parts, before, slots, no);
      AppendAssoc(t0, Fetches(parts, before, no), Fetch(no, parts[no], slots[no]));
    }

    /** The data half of a pass for a participant no that is not scan
        compatible: it copies participant 0's piece. */
    method CopyPart(no: int, ghost p1: ScanPos, result: bool, ghost s0: seq<Slot>, ghost t0: seq<Transfer>)
      requires Serving(no, p1, result, s0, t0) && no < |parts| && Joins(parts[no], parts[0]) && parts[no].cursor == null
      requires result ==> 0 <= p1.piece.width * p1.piece.height <= parts[0].cursor.maxSize
      modifies this`slots, this`transfers, this`length, pool
      ensures Serving(no + 1, p1, result, s0, t0)
    {
      ghost var before := slots;
      StepCopy(no, p1, result);
      FetchesAgree(parts, before, slots, no);
      AppendAssoc(t0, Fetches(parts, before, no), Fetch(no, parts[no], slots[no]));
    }

    /** One pass of the stepping loop of gegl_buffer_iterator_next for a
        scan-compatible participant no: its cursor steps, then its data is
        served; length is the piece's area. */
    method ScanPass(no: int, ghost lead: ScanPos, ghost p1: ScanPos, result: bool,
                    ghost s0: seq<Slot>, ghost t0: seq<Transfer>, ghost e0: seq<Rect>)
      requires Midway(no, lead, p1, result, s0, t0, e0) && no < |parts| && parts[no].flags.scan
      modifies this`slots, this`transfers, this`length, parts[no].cursor, parts[no].buffer.source`requests, pool
      ensures Midway(no + 1, lead, p1, result, s0, t0, e0)
    {
      MovePart(no, lead, p1, result, s0, t0, e0);
      ServeMoved(no, lead, p1, result, s0, t0, e0);
    }

    /** The data half of ScanPass, once participant no's cursor has moved;
        the cursors are left alone. */
    method ServeMoved(no: int, ghost lead: ScanPos, ghost p1: ScanPos, result: bool,
                      ghost s0: seq<Slot>, ghost t0: seq<Transfer>, ghost e0: seq<Rect>)
      requires Tracking(no + 1, lead, p1, result, e0) && Serving(no, p1, result, s0, t0)
      requires no < |parts| && parts[no].cursor != null
      requires var c := parts[no].cursor;
        && c.roi2 == Shift(p1.piece, parts[no].rect.x - parts[0].rect.x, parts[no].rect.y - parts[0].rect.y)
        && (result ==> c.tile.Some? && 1 <= c.roi2.width * c.roi2.height <= parts[0].cursor.maxSize)
        && (result && c.roi2.width == c.Tw() ==>
              0 <= c.subOffset && c.subOffset + c.roi2.width * c.roi2.height <= parts[0].cursor.maxSize)
      modifies this`slots, this`transfers, this`length, pool
      ensures Midway(no + 1, lead, p1, result, s0, t0, e0)
    {
      ServePart(no, p1, result, s0, t0);
    }

    /** One pass of the stepping loop for a participant no that is not scan
        compatible. */
    method CopyPass(no: int, ghost lead: ScanPos, ghost p1: ScanPos, result: bool,
                    ghost s0: seq<Slot>, ghost t0: seq<Transfer>, ghost e0: seq<Rect>)
      requires Midway(no, lead, p1, result, s0, t0, e0) && no < |parts| && !parts[no].flags.scan
      modifies this`slots, this`transfers, this`length, pool
      ensures Midway(no + 1, lead, p1, result, s0, t0, e0)
    {
      CopyPart(no, p1, result, s0, t0);
    }

    /** The stepping half of gegl_buffer_iterator_next after participant 0
        has moved: every other participant in turn moves to the next piece,
        to the successor p1 of the shared position. */
    method Advance(ghost lead: ScanPos, ghost p1: ScanPos, result: bool,
                   ghost s0: seq<Slot>, ghost t0: seq<Transfer>, ghost e0: seq<Rect>)
      requires Midway(1, lead, p1, result, s0, t0, e0)
      modifies this`slots, this`transfers, this`length, owner.Keys, sources, pool
      ensures Midway(|parts|, lead, p1, result, s0, t0, e0)
    {
      var no := 1;
      while no < |parts|
        invariant Midway(no, lead, p1, result, s0, t0, e0)
      {
        if parts[no].flags.scan {
          ScanPass(no, lead, p1, result, s0, t0, e0);
        } else {
          CopyPass(no, lead, p1, result, s0, t0, e0);
        }
        no := no + 1;
      }
    }
    /** The stepping loop of gegl_buffer_iterator_next: participant 0 steps
        from lead and its answer becomes the result, then every other
        participant follows it to the same successor position. */
    method Walk(ghost lead: ScanPos, ghost p1: ScanPos, ghost s0: seq<Slot>, ghost t0: seq<Transfer>,
                ghost e0: seq<Rect>) returns (result: bool)
      requires Fixed() && |parts| == |slots| && pool.Valid() && Apart() && AllHold() && !finished && InStep(lead)
      requires lead.nextRow < parts[0].rect.height && p1 == parts[0].cursor.StepPos(lead) && p1.steps > 0
      requires s0 == slots && t0 == transfers && e0 == parts[0].cursor.emitted
      modifies this`slots, this`transfers, this`length, owner.Keys, sources, pool
      ensures Midway(|parts|, lead, p1, result, s0, t0, e0)
    {
      Spread(lead);
      result := LeadStep(lead);
      Advance(lead, p1, result, s0, t0, e0);
    }

    /** In step with p counted from the last participant is in step with
        p counted from the first. */
    lemma Spread(p: ScanPos)
      requires InStep(p)
      ensures TrackedFrom(parts, owner, 0, p)
    {
      TrackedToFrom(parts, owner, 0, p);
    }

    /** The iterator is ready for a step: participant 0 leads, everything
        is in step with the shared position, and the step from there hands
        out a piece or finishes the scan. */
    lemma Ready()
      requires Valid() && |parts| >= 1 && !finished
      ensures Fixed() && |parts| == |slots| && pool.Valid() && Apart() && AllHold() && InStep(pos)
      ensures pos.nextRow < parts[0].rect.height && parts[0].cursor.StepPos(pos).steps > 0
      ensures iterationNo > 0 ==> forall j :: 0 <= j < |parts| ==> Serves(parts[j], slots[j])
    {
      assert InStep(pos) && Kept();
      assert Joins(parts[0], parts[0]);
      parts[0].cursor.StepCounts(pos);
    }

    /** Participant 0's cursor stands at the shared position, over
        participant 0's rect; the position is inside the rect's tile rows
        while the iteration goes on. */
    lemma AtLead()
      requires Valid() && |parts| >= 1
      ensures parts[0].cursor != null && parts[0].cursor.Valid() && parts[0].cursor.roi == parts[0].rect
      ensures parts[0].cursor.Pos() == pos && 0 <= pos.nextCol
      ensures parts[0].cursor.Tw() > 0 && parts[0].cursor.Th() > 0
      ensures !finished <==> pos.nextRow < parts[0].rect.height
    {
      assert InStep(pos) && Lead();
      TrackedToTracks(parts, owner, |parts|, 0, pos);
      assert Joins(parts[0], parts[0]);
    }

    /** The end of gegl_buffer_iterator_next once the step found a piece:
        the iteration number goes up and the shared position becomes p1. */
    method Settle(ghost lead: ScanPos, ghost p1: ScanPos, result: bool,
                  ghost s0: seq<Slot>, ghost t0: seq<Transfer>, ghost e0: seq<Rect>)
      requires Midway(|parts|, lead, p1, result, s0, t0, e0) && result
      modifies this`iterationNo, this`pos
      ensures Valid() && iterationNo == old(iterationNo) + 1 && pos == p1 && !finished
      ensures transfers == t0 + Fetches(parts, slots, |parts|)
      ensures length == slots[0].roi.width * slots[0].roi.height && slots[0].roi == pos.piece
      ensures parts[0].cursor.emitted == e0 + [parts[0].cursor.roi2]
    {
      assert InStep(p1);
      forall j | 0 <= j < |parts|
        ensures Stepped(parts[j], slots[j], parts[0], p1, result)
      {
        assert Moved(parts[j], slots[j], s0[j], parts[0], p1, result);
      }
      parts[0].cursor.StepEnds(lead);
      iterationNo, pos := iterationNo + 1, p1;
    }

    /** What a step that found no more pieces leaves behind before the
        scratch buffers go back: every participant has stepped past the
        last tile row at p1. */
    lemma Ended(lead: ScanPos, p1: ScanPos, result: bool, s0: seq<Slot>, t0: seq<Transfer>, e0: seq<Rect>)
      requires Midway(|parts|, lead, p1, result, s0, t0, e0) && !result
      ensures Fixed() && InStep(p1) && p1.steps > 0 && p1.nextRow >= parts[0].rect.height
      ensures |parts| == |slots| && parts[0].cursor.emitted == e0 && !finished && pool.Valid() && Apart() && AllHold()
      ensures forall j :: 0 <= j < |parts| ==> Stepped(parts[j], slots[j], parts[0], p1, false)
      ensures transfers == t0 + Fetches(parts, slots, |parts|)
      ensures length == slots[0].roi.width * slots[0].roi.height && slots[0].roi == p1.piece
    {
      forall j | 0 <= j < |parts|
        ensures Stepped(parts[j], slots[j], parts[0], p1, result)
      {
        assert Moved(parts[j], slots[j], s0[j], parts[0], p1, result);
      }
      assert InStep(p1);
      parts[0].cursor.StepEnds(lead);
    }

    /** The finish of a step that found no more pieces: the scratch
        buffers go back to the pool; the cursors are left alone. */
    method Wind(ghost p1: ScanPos)
      requires Fixed() && |parts| == |slots| && pool.Valid() && Apart() && AllHold()
      requires forall j :: 0 <= j < |parts| ==> Stepped(parts[j], slots[j], parts[0], p1, false)
      modifies this`slots, this`finished, pool
      ensures finished && pool.Valid() && |slots| == |parts|
      ensures forall j :: 0 <= j < |slots| ==> slots[j] == old(slots[j]).(buf := None)
      ensures forall j :: 0 <= j < |slots| ==> slots[j].buf.None?
      ensures forall j :: 0 <= j < |parts| ==> Stepped(parts[j], slots[j], parts[0], p1, false)
      ensures Fetches(parts, slots, |parts|) == Fetches(parts, old(slots), |parts|)
      ensures pool.entries == ReturnedAll(old(pool.entries), old(slots))
    {
      ghost var s1 := slots;
      Finish();
      FetchesAgree(parts, s1, slots, |parts|);
      SteppedAgree(parts, s1, slots, p1, false);
    }

    /** The iteration number goes up and the shared position becomes p1,
        past the last tile row, once the iterator has finished. */
    method Close(ghost p1: ScanPos)
      requires Fixed() && InStep(p1) && p1.steps > 0 && p1.nextRow >= parts[0].rect.height
      requires finished && pool.Valid() && |slots| == |parts|
      requires forall j :: 0 <= j < |slots| ==> slots[j].buf.None?
      requires forall j :: 0 <= j < |parts| ==> Stepped(parts[j], slots[j], parts[0], p1, false)
      modifies this`iterationNo, this`pos
      ensures Valid() && iterationNo == old(iterationNo) + 1 && pos == p1
    {
      iterationNo, pos := iterationNo + 1, p1;
    }

    /** The end of gegl_buffer_iterator_next once the step found no more
        pieces: the iterator finishes, the iteration number goes up and the
        shared position becomes p1. */
    method Stop(ghost p1: ScanPos)
      requires Fixed() && InStep(p1) && p1.steps > 0 && p1.nextRow >= parts[0].rect.height
      requires |parts| == |slots| && !finished && pool.Valid() && Apart() && AllHold()
      requires forall j :: 0 <= j < |parts| ==> Stepped(parts[j], slots[j], parts[0], p1, false)
      modifies this`slots, this`iterationNo, this`finished, this`pos, pool
      ensures Valid() && iterationNo == old(iterationNo) + 1 && pos == p1 && finished
      ensures Fetches(parts, slots, |parts|) == Fetches(parts, old(slots), |parts|)
      ensures slots[0].roi == old(slots[0].roi)
      ensures forall j :: 0 <= j < |slots| ==> slots[j].buf.None?
      ensures pool.entries == ReturnedAll(old(pool.entries), old(slots))
    {
      Wind(p1);
      Close(p1);
    }

    /** The end of gegl_buffer_iterator_next: the iteration number goes
        up, the shared position becomes p1, and the iterator finishes when
        the step found no more pieces. */
    method Conclude(ghost lead: ScanPos, ghost p1: ScanPos, result: bool,
                    ghost s0: seq<Slot>, ghost t0: seq<Transfer>, ghost e0: seq<Rect>)
      requires Midway(|parts|, lead, p1, result, s0, t0, e0)
      modifies this`slots, this`iterationNo, this`finished, this`pos, pool
      ensures Valid() && iterationNo == old(iterationNo) + 1 && pos == p1 && finished == !result
      ensures transfers == t0 + Fetches(parts, slots, |parts|)
      ensures length == slots[0].roi.width * slots[0].roi.height && slots[0].roi == pos.piece
      ensures parts[0].cursor.emitted == e0 + if result then [parts[0].cursor.roi2] else []
      ensures !result ==> forall j :: 0 <= j < |slots| ==> slots[j].buf.None?
      ensures !result ==> pool.entries == ReturnedAll(old(pool.entries), old(slots))
    {
      if result {
        Settle(lead, p1, result, s0, t0, e0);
      } else {
        Ended(lead, p1, result, s0, t0, e0);
        Stop(p1);
      }
    }

    /** The body of gegl_buffer_iterator_next on an iterator ready for a
        step: the write-back of the previous step, then the step. */
    method Step() returns (result: bool)
      requires Fixed() && |parts| == |slots| && pool.Valid() && Apart() && AllHold() && !finished && InStep(pos)
      requires pos.nextRow < parts[0].rect.height && parts[0].cursor.StepPos(pos).steps > 0
      requires iterationNo > 0 ==> forall j :: 0 <= j < |parts| ==> Serves(parts[j], slots[j])
      modifies this`slots, this`transfers, this`length, this`iterationNo, this`finished, this`pos
      modifies owner.Keys, sources, pool
      ensures Valid() && iterationNo == old(iterationNo) + 1 && result == !finished
      ensures pos == parts[0].cursor.StepPos(old(pos))
      ensures transfers == old(transfers) + (if old(iterationNo) > 0 then Stores(parts, old(slots), |parts|) else [])
                                          + Fetches(parts, slots, |parts|)
      ensures length == slots[0].roi.width * slots[0].roi.height && slots[0].roi == pos.piece
      ensures parts[0].cursor.emitted == old(parts[0].cursor.emitted) + if result then [parts[0].cursor.roi2] else []
      ensures !result ==> forall j :: 0 <= j < |slots| ==> slots[j].buf.None?
    {
      WriteBack();
      result := Stride();
    }

    /** The step proper: every participant moves to its next piece. */
    method Stride() returns (result: bool)
      requires Fixed() && |parts| == |slots| && pool.Valid() && Apart() && AllHold() && !finished && InStep(pos)
      requires pos.nextRow < parts[0].rect.height && parts[0].cursor.StepPos(pos).steps > 0
      modifies this`slots, this`transfers, this`length, this`iterationNo, this`finished, this`pos
      modifies owner.Keys, sources, pool
      ensures Valid() && iterationNo == old(iterationNo) + 1 && result == !finished
      ensures pos == parts[0].cursor.StepPos(old(pos))
      ensures transfers == old(transfers) + Fetches(parts, slots, |parts|)
      ensures length == slots[0].roi.width * slots[0].roi.height && slots[0].roi == pos.piece
      ensures parts[0].cursor.emitted == old(parts[0].cursor.emitted) + if result then [parts[0].cursor.roi2] else []
      ensures !result ==> forall j :: 0 <= j < |slots| ==> slots[j].buf.None?
    {
      ghost var lead, s0, t0, e0 := pos, slots, transfers, parts[0].cursor.emitted;
      ghost var p1 := parts[0].cursor.StepPos(lead);
      result := Walk(lead, p1, s0, t0, e0);
      Conclude(lead, p1, result, s0, t0, e0);
    }

    /** gegl_buffer_iterator_next: the pieces of the previous step are
        written back, then every participant moves to its next piece.
        Calling it on a finished iterator is a fatal error. The result is
        true while there is a piece to work on. */
    method Next() returns (result: bool)
      requires Valid() && |parts| >= 1 && !finished
      modifies this`slots, this`transfers, this`length, this`iterationNo, this`finished, this`pos
      modifies owner.Keys, sources, pool
      ensures Valid() && iterationNo == old(iterationNo) + 1 && result == !finished
      ensures pos == parts[0].cursor.StepPos(old(pos))
      ensures transfers == old(transfers) + (if old(iterationNo) > 0 then Stores(parts, old(slots), |parts|) else [])
                                          + Fetches(parts, slots, |parts|)
      ensures length == slots[0].roi.width * slots[0].roi.height && slots[0].roi == pos.piece
      ensures parts[0].cursor.emitted == old(parts[0].cursor.emitted) + if result then [parts[0].cursor.roi2] else []
      ensures Advanced(old(pos), pos, parts[0].rect.width)
      ensures !result ==> forall j :: 0 <= j < |slots| ==> slots[j].buf.None?
    {
      AtLead();
      parts[0].cursor.StepMoves(pos);
      Ready();
      result := Step();
    }

    /** The write-back at the top of gegl_buffer_iterator_next after a
        step: each participant that writes and whose piece is not on the
        direct path has its scratch buffer stored over its piece with
        gegl_buffer_set; on the direct path the pixels were written in the
        tile itself. The ensure_buf before the set finds the buffer the
        scratch path has held since the step. */
    method WriteBack()
      requires 1 <= |parts| == |slots| && Leads(parts[0])
      requires iterationNo > 0 ==> forall j :: 0 <= j < |parts| ==>
        Holds(slots[j], Need(j), pool.entries, false) && Serves(parts[j], slots[j])
      modifies this`transfers
      ensures transfers == old(transfers) + if iterationNo > 0 then Stores(parts, slots, |parts|) else []
    {
      if iterationNo > 0 {
        var no := 0;
        while no < |parts|
          invariant 0 <= no <= |parts|
          invariant transfers == old(transfers) + Stores(parts, slots, no)
        {
          if parts[no].flags.write && !OnDirectPath(parts[no], slots[no].roi) {
            assert Holds(slots[no], Need(no), pool.entries, false) && Serves(parts[no], slots[no]);
            var b := slots[no].buf.value;
            transfers := transfers + [Stored(no, slots[no].roi, b)];
          }
          no := no + 1;
        }
      }
    }

    /** The end of the iteration once the step found no more pieces: each
        participant gives its scratch buffer back to the pool and drops it,
        and buf[0] gets the 0xdeadbeef mark. */
    method Finish()
      requires |parts| == |slots| >= 1 && Leads(parts[0]) && pool.Valid() && Apart() && AllHold()
      modifies this`slots, this`finished, pool
      ensures finished && pool.Valid() && |slots| == |old(slots)|
      ensures forall j :: 0 <= j < |slots| ==> slots[j] == old(slots[j]).(buf := None)
      ensures pool.entries == ReturnedAll(old(pool.entries), old(slots))
    {
      ghost var s0, e0 := slots, pool.entries;
      var no := 0;
      while no < |slots|
        invariant 0 <= no <= |slots| == |s0| && pool.Valid()
        invariant forall j :: 0 <= j < no ==> slots[j] == s0[j].(buf := None)
        invariant forall j :: no <= j < |slots| ==> slots[j] == s0[j]
        invariant pool.entries == ReturnedAll(e0, s0[..no])
      {
        assert s0[..no + 1][..no] == s0[..no];
        if slots[no].buf.Some? {
          assert Holds(s0[no], Need(no), e0, false);
          StillHeld(e0, s0, no);
          pool.Release(slots[no].buf.value);
        }
        slots := slots[no := slots[no].(buf := None)];
        no := no + 1;
      }
      assert s0[..no] == s0;
      finished := true;
    }
  }

  /** gegl_buffer_iterator_new: an iterator with buffer as participant 0. */
  method New(pool: Pool, buffer: Buffer, roi: Option<Rect>, format: Option<Format>, access: bv32)
      returns (it: Iterator)
    requires pool.Valid() && buffer.storage.tileWidth > 0 && buffer.storage.tileHeight > 0
    requires access & (ScanCompatibleFlag | FormatCompatibleFlag) == 0
    requires ParticipantRect(None, roi, buffer.extent).width > 0
    requires ParticipantRect(None, roi, buffer.extent).height > 0
    ensures fresh(it) && it.pool == pool && it.Valid() && |it.parts| == 1 && it.iterationNo == 0 && !it.finished
    ensures it.transfers == [] && it.pos == StartPos
    ensures it.owner.Keys == {it.parts[0].cursor} && it.sources == {buffer.source}
    ensures var p := it.parts[0];
      && p.rect == ParticipantRect(None, roi, buffer.extent) && fresh(p.buffer) && SubBuffer(p.buffer, buffer, p.rect)
      && p.format == (if format.Some? then format.value else buffer.format)
      && p.flags == FlagsOf(AddedFlags(access, true, p.format == buffer.format))
      && p.cursor != null && fresh(p.cursor)
  {
    it := new Iterator(pool);
    var self := it.Add(buffer, roi, format, access);
  }
}
