// gegl_buffer_clear and gegl_buffer_copy: loops over a buffer iterator.

module BufferOps {
  import opened TileGrid
  import opened BufferAccess
  import opened BufferIterator

  /** One pass of the loop in gegl_buffer_clear: memset of bytes zero bytes
      over data[0], the data of the piece. */
  datatype Fill = Fill(piece: Rect, data: DataRef, bytes: int)

  /** One pass of the loop in gegl_buffer_copy: babl_process converts
      pixels pixels of the source piece, at from, into the destination
      piece, at to. */
  datatype Conversion = Conversion(dstPiece: Rect, srcPiece: Rect, to: DataRef, from: DataRef, pixels: int)

  function FillPieces(fills: seq<Fill>): (rs: seq<Rect>)
    ensures |rs| == |fills| && forall k :: 0 <= k < |fills| ==> rs[k] == fills[k].piece
  {
    if fills == [] then [] else FillPieces(fills[..|fills| - 1]) + [fills[|fills| - 1].piece]
  }

  function DstPieces(cs: seq<Conversion>): (rs: seq<Rect>)
    ensures |rs| == |cs| && forall k :: 0 <= k < |cs| ==> rs[k] == cs[k].dstPiece
  {
    if cs == [] then [] else DstPieces(cs[..|cs| - 1]) + [cs[|cs| - 1].dstPiece]
  }

  /** The pieces rs partition roi: every cell of roi lies in exactly one
      piece and no piece reaches outside roi. */
  ghost predicate Partition(rs: seq<Rect>, roi: Rect)
  {
    && (forall x, y :: Contains(roi, x, y) ==> Count(rs, x, y) == 1)
    && (forall k, x, y :: 0 <= k < |rs| && Contains(rs[k], x, y) ==> Contains(roi, x, y))
  }

  /** Once a tile cursor is past its last tile row, the pieces it handed
      out partition its roi. */
  lemma Partitioned(c: TileCursor)
    requires c.Valid() && c.nextRow >= c.roi.height
    ensures Partition(c.emitted, c.roi)
  {
    c.Finished();
  }

  /** A memset of gegl_buffer_clear: it covers the piece's pixels of bpp
      bytes, it stays inside the data the iterator handed out (a tile of
      tileWidth by tileHeight pixels, or a scratch buffer), and that data is
      the tile itself exactly when the piece spans a whole tile row. */
  predicate Zeroes(f: Fill, bpp: int, tileWidth: int, tileHeight: int)
  {
    && f.bytes == f.piece.width * f.piece.height * bpp
    && Fits(f.data, f.piece.width * f.piece.height, bpp, tileWidth * tileHeight)
    && (f.data.Direct? <==> f.piece.width == tileWidth)
  }

  /** Every memset of fills is as Zeroes says. */
  predicate AllZeroes(fills: seq<Fill>, bpp: int, tileWidth: int, tileHeight: int)
  {
    fills == [] ||
    (AllZeroes(fills[..|fills| - 1], bpp, tileWidth, tileHeight) && Zeroes(fills[|fills| - 1], bpp, tileWidth, tileHeight))
  }

  lemma {:induction false} AllZeroesEach(fills: seq<Fill>, bpp: int, tileWidth: int, tileHeight: int, k: int)
    requires AllZeroes(fills, bpp, tileWidth, tileHeight) && 0 <= k < |fills|
    ensures Zeroes(fills[k], bpp, tileWidth, tileHeight)
  {
    if k < |fills| - 1 {
      AllZeroesEach(fills[..|fills| - 1], bpp, tileWidth, tileHeight, k);
    }
  }

  /** A conversion of gegl_buffer_copy: the source piece is the destination
      piece moved as dstRect is moved onto srcRect, both cover pixels pixels, each end stays
      inside the data handed out for it (of bpp bytes a pixel, with
      participant 0's tiles of tileWidth by tileHeight pixels), and the destination is the
      tile itself exactly when the piece spans a whole tile row. */
  predicate Converts(cv: Conversion, dstRect: Rect, srcRect: Rect, dstBpp: int, srcBpp: int, tileWidth: int, tileHeight: int)
  {
    && cv.srcPiece == Shift(cv.dstPiece, srcRect.x - dstRect.x, srcRect.y - dstRect.y)
    && cv.pixels == cv.dstPiece.width * cv.dstPiece.height
    && Fits(cv.to, cv.pixels, dstBpp, tileWidth * tileHeight) && Fits(cv.from, cv.pixels, srcBpp, tileWidth * tileHeight)
    && (cv.to.Direct? <==> cv.dstPiece.width == tileWidth)
  }

  /** Every conversion of cs is as Converts says. */
  predicate AllConvert(cs: seq<Conversion>, dstRect: Rect, srcRect: Rect, dstBpp: int, srcBpp: int, tileWidth: int, tileHeight: int)
  {
    cs == [] ||
    (AllConvert(cs[..|cs| - 1], dstRect, srcRect, dstBpp, srcBpp, tileWidth, tileHeight)
     && Converts(cs[|cs| - 1], dstRect, srcRect, dstBpp, srcBpp, tileWidth, tileHeight))
  }

  lemma {:induction false} AllConvertEach(cs: seq<Conversion>, dstRect: Rect, srcRect: Rect, dstBpp: int, srcBpp: int,
                                          tileWidth: int, tileHeight: int, k: int)
    requires AllConvert(cs, dstRect, srcRect, dstBpp, srcBpp, tileWidth, tileHeight) && 0 <= k < |cs|
    ensures Converts(cs[k], dstRect, srcRect, dstBpp, srcBpp, tileWidth, tileHeight)
  {
    if k < |cs| - 1 {
      AllConvertEach(cs[..|cs| - 1], dstRect, srcRect, dstBpp, srcBpp, tileWidth, tileHeight, k);
    }
  }

  /** The rect gegl_buffer_clear works on: the one given, or the extent. */
  function ClearRect(rect: Option<Rect>, extent: Rect): (r: Rect)
    ensures rect.Some? ==> r == rect.value
    ensures rect.None? ==> r == extent
  {
    if rect.Some? then rect.value else extent
  }

  /** The rects gegl_buffer_copy works on: the source rect given or the
      source's extent, and the destination rect given or the source rect,
      at the destination's position but always of the source's size. */
  function CopyRects(srcRect: Option<Rect>, srcExtent: Rect, dstRect: Option<Rect>): (rs: (Rect, Rect))
    ensures rs.0 == (if srcRect.Some? then srcRect.value else srcExtent)
    ensures rs.1.width == rs.0.width && rs.1.height == rs.0.height
    ensures dstRect.Some? ==> rs.1.x == dstRect.value.x && rs.1.y == dstRect.value.y
    ensures dstRect.None? ==> rs.1 == rs.0
  {
    var s := if srcRect.Some? then srcRect.value else srcExtent;
    var d := if dstRect.Some? then dstRect.value else s;
    (s, Rect(d.x, d.y, s.width, s.height))
  }

  /** gegl_buffer_clear: nothing for an empty rect; otherwise an iterator
      writes dst over the rect in dst's own format and every piece it hands
      out is zeroed, i->length pixels of data[0]. fills lists the memsets in
      order: their pieces partition the rect and each is as Zeroes says.
      With a negative width the iterator finds no piece: its first step is
      already past the width and moves down past the rect. A negative height
      with a positive width is excluded: the first piece would then have a
      negative height and the memset a negative length. */
  method Clear(pool: Pool, dst: Buffer, rect: Option<Rect>) returns (fills: seq<Fill>)
    requires pool.Valid() && dst.storage.tileWidth > 0 && dst.storage.tileHeight > 0
    requires ClearRect(rect, dst.extent).width < 0 || ClearRect(rect, dst.extent).height >= 0
    modifies pool, dst.source
    ensures pool.Valid()
    ensures var r := ClearRect(rect, dst.extent);
      (r.width <= 0 || r.height == 0) ==> fills == [] && pool.entries == old(pool.entries)
    ensures var r := ClearRect(rect, dst.extent);
      r.width > 0 && r.height > 0 ==> Partition(FillPieces(fills), r)
    ensures AllZeroes(fills, dst.format.bytesPerPixel, dst.storage.tileWidth, dst.storage.tileHeight)
  {
    var r := ClearRect(rect, dst.extent);
    if r.width == 0 || r.height == 0 {
      return [];
    }
    if r.width < 0 {
      // gegl_buffer_iterator_next moves down row after row and stops
      return [];
    }
    var it := New(pool, dst, Some(r), Some(dst.format), WriteFlag);
    AddedFlagsIff(WriteFlag, true, true);
    fills := ZeroPieces(it, dst, it.parts[0]);
  }

  /** The loop of gegl_buffer_clear, from the iterator's creation on: while
      gegl_buffer_iterator_next hands out a piece, zero it. */
  method ZeroPieces(it: Iterator, dst: Buffer, ghost p0: Part) returns (fills: seq<Fill>)
    requires it.Valid() && |it.parts| == 1 && it.parts[0] == p0 && it.iterationNo == 0
    requires p0.format == dst.format && p0.flags.scan && p0.flags.formatOk && p0.buffer.storage == dst.storage
    modifies it, it.owner.Keys, it.sources, it.pool
    ensures it.pool.Valid() && it.parts == old(it.parts)
    ensures Partition(FillPieces(fills), p0.rect)
    ensures AllZeroes(fills, dst.format.bytesPerPixel, dst.storage.tileWidth, dst.storage.tileHeight)
  {
    ghost var c := p0.cursor;
    ghost var bpp, tw, th := dst.format.bytesPerPixel, dst.storage.tileWidth, dst.storage.tileHeight;
    it.AtLead();
    fills := [];
    var more := true;
    while more
      invariant it.Valid() && it.parts == old(it.parts) && c == p0.cursor
      invariant it.owner == old(it.owner) && it.sources == old(it.sources)
      invariant more == !it.finished && c.Pos() == it.pos
      invariant c.emitted == FillPieces(fills) && AllZeroes(fills, bpp, tw, th)
      decreases more, p0.rect.height - it.pos.nextRow, Max(0, p0.rect.width - it.pos.nextCol)
    {
      fills, more := ZeroPiece(it, dst, fills, p0, bpp, tw, th);
    }
    it.AtLead();
    Partitioned(c);
  }

  /** One pass of the loop of gegl_buffer_clear: gegl_buffer_iterator_next,
      then the memset of the piece it hands out, if any. */
  method ZeroPiece(it: Iterator, dst: Buffer, fills0: seq<Fill>, ghost p0: Part, ghost bpp: int, ghost tw: int, ghost th: int)
      returns (fills: seq<Fill>, more: bool)
    requires it.Valid() && |it.parts| == 1 && p0 == it.parts[0] && !it.finished && p0.cursor.Pos() == it.pos
    requires p0.cursor.emitted == FillPieces(fills0)
    requires p0.format.bytesPerPixel == bpp == dst.format.bytesPerPixel && p0.flags.formatOk && p0.flags.scan
    requires p0.buffer.storage.tileWidth == tw && p0.buffer.storage.tileHeight == th
    requires AllZeroes(fills0, bpp, tw, th)
    modifies it`slots, it`transfers, it`length, it`iterationNo, it`finished, it`pos
    modifies it.owner.Keys, it.sources, it.pool
    ensures it.Valid() && more == !it.finished
    ensures p0.cursor.Pos() == it.pos && Advanced(old(it.pos), it.pos, p0.rect.width)
    ensures p0.cursor.emitted == FillPieces(fills) && AllZeroes(fills, bpp, tw, th)
  {
    more := it.Next();
    it.AtLead();
    if more {
      ZeroesLead(it, fills0, bpp, tw, th);
      fills := fills0 + [Fill(it.slots[0].roi, it.slots[0].data, it.length * dst.format.bytesPerPixel)];
    } else {
      fills := fills0;
    }
  }

  /** The memset of a step of gegl_buffer_clear is as Zeroes says, and its
      piece is the one the lead cursor handed out. */
  lemma ZeroesLead(it: Iterator, fills0: seq<Fill>, bpp: int, tw: int, th: int)
    requires it.Valid() && |it.parts| >= 1 && !it.finished && it.iterationNo > 0
    requires it.length == it.slots[0].roi.width * it.slots[0].roi.height
    requires it.parts[0].format.bytesPerPixel == bpp && it.parts[0].flags.formatOk && it.parts[0].flags.scan
    requires it.parts[0].buffer.storage.tileWidth == tw && it.parts[0].buffer.storage.tileHeight == th
    requires AllZeroes(fills0, bpp, tw, th)
    ensures var f := Fill(it.slots[0].roi, it.slots[0].data, it.length * bpp);
      && AllZeroes(fills0 + [f], bpp, tw, th)
      && FillPieces(fills0 + [f]) == FillPieces(fills0) + [it.slots[0].roi]
  {
    var f := Fill(it.slots[0].roi, it.slots[0].data, it.length * bpp);
    assert (fills0 + [f])[..|fills0|] == fills0;
    assert it.Kept();
    it.AtLead();
    var p, s := it.parts[0], it.slots[0];
    assert Stepped(p, s, p, it.pos, true);
    assert Leads(p);
  }

  /** gegl_buffer_copy: an iterator writes dst over the destination rect
      in dst's format, participant 0, and reads src over the source rect in
      src's format, participant 1; each step converts i->length pixels from
      data[1] into data[0]. convs lists the conversions in order: their
      destination pieces partition the destination rect, and each is as
      Converts says, its source piece being its destination piece moved by
      the offset between the two rects. An empty source rect makes the
      iterator abort with g_error and is excluded here. With a negative
      width the iterator finds no piece and nothing is converted; a negative
      height with a positive width is excluded, as its first piece would
      have a negative height and babl_process a negative length. */
  method Copy(pool: Pool, src: Buffer, srcRect: Option<Rect>, dst: Buffer, dstRect: Option<Rect>)
      returns (convs: seq<Conversion>)
    requires pool.Valid()
    requires dst.storage.tileWidth > 0 && dst.storage.tileHeight > 0
    requires src.storage.tileWidth > 0 && src.storage.tileHeight > 0
    requires var s := CopyRects(srcRect, src.extent, dstRect).0;
      s.width != 0 && s.height != 0 && (s.width < 0 || s.height > 0)
    modifies pool, dst.source, src.source
    ensures pool.Valid()
    ensures var (s, d) := CopyRects(srcRect, src.extent, dstRect);
      && (s.width < 0 ==> convs == [])
      && Partition(DstPieces(convs), d)
      && AllConvert(convs, d, s, dst.format.bytesPerPixel, src.format.bytesPerPixel,
                    dst.storage.tileWidth, dst.storage.tileHeight)
  {
    var (s, d) := CopyRects(srcRect, src.extent, dstRect);
    if s.width < 0 {
      // gegl_buffer_iterator_next moves down row after row and stops
      return [];
    }
    var it := New(pool, dst, Some(d), Some(dst.format), WriteFlag);
    AddedFlagsIff(WriteFlag, true, true);
    ghost var p0 := it.parts[0];
    var read := it.Add(src, Some(s), Some(src.format), ReadFlag);
    assert it.parts[0] == p0;
    convs := ConvertPieces(it, dst, src, p0, it.parts[1]);
  }

  /** The loop of gegl_buffer_copy, from the iterator's creation on: while
      gegl_buffer_iterator_next hands out a piece, convert it. */
  method ConvertPieces(it: Iterator, dst: Buffer, src: Buffer, ghost p0: Part, ghost p1: Part)
      returns (convs: seq<Conversion>)
    requires it.Valid() && it.parts == [p0, p1] && it.iterationNo == 0
    requires p0.format == dst.format && p0.flags.scan && p0.flags.formatOk && p0.buffer.storage == dst.storage
    requires p1.format == src.format
    modifies it, it.owner.Keys, it.sources, it.pool
    ensures it.pool.Valid()
    ensures Partition(DstPieces(convs), p0.rect)
    ensures AllConvert(convs, p0.rect, p1.rect, dst.format.bytesPerPixel,
                       src.format.bytesPerPixel, dst.storage.tileWidth, dst.storage.tileHeight)
  {
    it.AtLead();
    convs := ConvertLoop(it, p0, p1, dst.format.bytesPerPixel, src.format.bytesPerPixel,
                         dst.storage.tileWidth, dst.storage.tileHeight);
    it.AtLead();
    Partitioned(p0.cursor);
  }

  /** The loop state of gegl_buffer_copy: a valid iterator over the two parts. */
  ghost predicate Converting(it: Iterator, p0: Part, p1: Part)
    reads it, it.pool, it.owner.Keys
  {
    it.Valid() && it.parts == [p0, p1]
  }

  /** The loop of gegl_buffer_copy proper: it runs until the iterator
      finishes, each conversion as Converts says. */
  method ConvertLoop(it: Iterator, ghost p0: Part, ghost p1: Part,
                     ghost dbpp: int, ghost sbpp: int, ghost tw: int, ghost th: int)
      returns (convs: seq<Conversion>)
    requires Converting(it, p0, p1)
    requires p0.cursor != null && p0.cursor.Pos() == it.pos
    requires p0.format.bytesPerPixel == dbpp && p1.format.bytesPerPixel == sbpp && p0.flags.formatOk && p0.flags.scan
    requires p0.buffer.storage.tileWidth == tw && p0.buffer.storage.tileHeight == th
    requires !it.finished && p0.cursor.emitted == []
    modifies it`slots, it`transfers, it`length, it`iterationNo, it`finished, it`pos
    modifies it.owner.Keys, it.sources, it.pool
    ensures it.Valid() && it.finished && p0.cursor.Pos() == it.pos
    ensures p0.cursor.emitted == DstPieces(convs) && AllConvert(convs, p0.rect, p1.rect, dbpp, sbpp, tw, th)
  {
    ghost var c := p0.cursor;
    convs := [];
    var more := true;
    while more
      invariant Converting(it, p0, p1)
      invariant it.owner == old(it.owner) && it.sources == old(it.sources)
      invariant more == !it.finished && c.Pos() == it.pos
      invariant c.emitted == DstPieces(convs) && AllConvert(convs, p0.rect, p1.rect, dbpp, sbpp, tw, th)
      decreases more, p0.rect.height - it.pos.nextRow, Max(0, p0.rect.width - it.pos.nextCol)
    {
      convs, more := ConvertPiece(it, convs, p0, p1, dbpp, sbpp, tw, th);
    }
  }

  /** One pass of the loop of gegl_buffer_copy: gegl_buffer_iterator_next,
      then babl_process over the pieces it hands out, if any. */
  method ConvertPiece(it: Iterator, convs0: seq<Conversion>, ghost p0: Part, ghost p1: Part,
                      ghost dbpp: int, ghost sbpp: int, ghost tw: int, ghost th: int)
      returns (convs: seq<Conversion>, more: bool)
    requires Converting(it, p0, p1)
    requires !it.finished && p0.cursor.Pos() == it.pos
    requires p0.cursor.emitted == DstPieces(convs0)
    requires p0.format.bytesPerPixel == dbpp && p1.format.bytesPerPixel == sbpp && p0.flags.formatOk && p0.flags.scan
    requires p0.buffer.storage.tileWidth == tw && p0.buffer.storage.tileHeight == th
    requires AllConvert(convs0, p0.rect, p1.rect, dbpp, sbpp, tw, th)
    modifies it`slots, it`transfers, it`length, it`iterationNo, it`finished, it`pos
    modifies it.owner.Keys, it.sources, it.pool
    ensures Converting(it, p0, p1) && more == !it.finished
    ensures p0.cursor.Pos() == it.pos && Advanced(old(it.pos), it.pos, p0.rect.width)
    ensures p0.cursor.emitted == DstPieces(convs) && AllConvert(convs, p0.rect, p1.rect, dbpp, sbpp, tw, th)
  {
    more := it.Next();
    it.AtLead();
    if more {
      ConvertsLead(it, convs0, dbpp, sbpp, tw, th);
      convs := convs0 + [Conversion(it.slots[0].roi, it.slots[1].roi, it.slots[0].data, it.slots[1].data, it.length)];
    } else {
      convs := convs0;
    }
  }

  /** The conversion of a step of gegl_buffer_copy is as Converts says, and
      its destination piece is the one the lead cursor handed out. */
  lemma ConvertsLead(it: Iterator, convs0: seq<Conversion>, dbpp: int, sbpp: int, tw: int, th: int)
    requires it.Valid() && |it.parts| == 2 && !it.finished && it.iterationNo > 0
    requires it.length == it.slots[0].roi.width * it.slots[0].roi.height
    requires it.parts[0].format.bytesPerPixel == dbpp && it.parts[1].format.bytesPerPixel == sbpp
    requires it.parts[0].flags.formatOk && it.parts[0].flags.scan
    requires it.parts[0].buffer.storage.tileWidth == tw && it.parts[0].buffer.storage.tileHeight == th
    requires AllConvert(convs0, it.parts[0].rect, it.parts[1].rect, dbpp, sbpp, tw, th)
    ensures var cv := Conversion(it.slots[0].roi, it.slots[1].roi, it.slots[0].data, it.slots[1].data, it.length);
      && AllConvert(convs0 + [cv], it.parts[0].rect, it.parts[1].rect, dbpp, sbpp, tw, th)
      && DstPieces(convs0 + [cv]) == DstPieces(convs0) + [it.slots[0].roi]
  {
    var cv := Conversion(it.slots[0].roi, it.slots[1].roi, it.slots[0].data, it.slots[1].data, it.length);
    assert (convs0 + [cv])[..|convs0|] == convs0;
    assert it.Kept();
    it.AtLead();
    var p, s := it.parts[0], it.slots[0];
    assert Stepped(p, s, p, it.pos, true);
    assert Stepped(it.parts[1], it.slots[1], p, it.pos, true);
    assert Leads(p);
  }
}
