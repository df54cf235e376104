/** The tile (gegl-tile.c / gegl-tile.h): a linear pixel buffer with a lock
    counter, a revision and a stored revision, and membership in a circular
    doubly-linked copy-on-write ring of tiles that share one buffer. */
module Tiles {
  import opened TileCoords

  newtype byte = b: int | 0 <= b < 256

  /** One pixel: px_size bytes. Tile buffers are arrays of pixels, so the size
      of a buffer and the offsets into it count pixels. */
  type Pixel = seq<byte>

  datatype TileKey = TileKey(x: int, y: int, z: int)

  /** guint: the revision counters wrap at 2^32. */
  newtype uint32 = v: int | 0 <= v < 0x1_0000_0000

  /** gchar: the lock counter wraps within [-128, 127]. */
  newtype gchar = v: int | -128 <= v < 128

  /** v + 1 in guint arithmetic. */
  function UIntInc(v: uint32): (r: uint32)
    ensures v < 0xFFFF_FFFF ==> r as int == v as int + 1
    ensures v == 0xFFFF_FFFF ==> r == 0
  {
    if v == 0xFFFF_FFFF then 0 else v + 1
  }

  /** v + d in gchar arithmetic, for d = 1 or d = -1. */
  function CharAdd(v: gchar, d: int): (r: gchar)
    requires d == 1 || d == -1
    ensures -128 <= v as int + d < 128 ==> r as int == v as int + d
    ensures v as int + d == 128 ==> r == -128
    ensures v as int + d == -129 ==> r == 127
  {
    var w := v as int + d;
    if w == 128 then -128 else if w == -129 then 127 else w as gchar
  }

  /** Locking and then unlocking leaves a gchar lock count as it was. */
  lemma CharRoundTrip(v: gchar)
    ensures CharAdd(CharAdd(v, 1), -1) == v
  {
  }

  /** The lock count and revision of a tile, as gegl_tile_lock and
      gegl_tile_unlock change them. */
  datatype Counters = Counters(lock: gchar, rev: uint32)

  /** One call: true is gegl_tile_lock, false is gegl_tile_unlock. */
  function Step(c: Counters, isLock: bool): Counters
  {
    if isLock then Counters(CharAdd(c.lock, 1), c.rev)
    else
      var l := CharAdd(c.lock, -1);
      Counters(l, if l == 0 then UIntInc(c.rev) else c.rev)
  }

  /** The counters after a sequence of calls. */
  function Run(c: Counters, calls: seq<bool>): Counters
    decreases |calls|
  {
    if calls == [] then c else Run(Step(c, calls[0]), calls[1..])
  }

  /** The number of unlock calls in the sequence that bring the count to 0. */
  function Releases(c: Counters, calls: seq<bool>): nat
    decreases |calls|
  {
    if calls == [] then 0
    else (if !calls[0] && Step(c, false).lock == 0 then 1 else 0) + Releases(Step(c, calls[0]), calls[1..])
  }

  /** After any sequence of lock and unlock calls the revision has grown by
      exactly the number of unlocks that returned the count to 0, in guint
      arithmetic; so it never decreases until it wraps at 2^32. */
  lemma {:induction false} RevCountsReleases(c: Counters, calls: seq<bool>)
    ensures Run(c, calls).rev as int == (c.rev as int + Releases(c, calls)) % 0x1_0000_0000
    ensures c.rev as int + Releases(c, calls) < 0x1_0000_0000 ==> Run(c, calls).rev >= c.rev
    decreases |calls|
  {
    if calls != [] {
      var c1 := Step(c, calls[0]);
      RevCountsReleases(c1, calls[1..]);
      assert c1.rev as int == (c.rev as int + (if !calls[0] && c1.lock == 0 then 1 else 0)) % 0x1_0000_0000;
    }
  }

  /** A lock followed by an unlock from a count of 0 bumps the revision by
      one and leaves the count at 0. */
  lemma LockUnlockBumps(rev: uint32)
    requires rev < 0xFFFF_FFFF
    ensures Run(Counters(0, rev), [true, false]) == Counters(0, rev + 1)
  {
  }

  /** Index of the successor / predecessor of position i in a ring of n tiles. */
  function Succ(i: int, n: int): int { if i + 1 < n then i + 1 else 0 }
  function Pred(i: int, n: int): int { if i > 0 then i - 1 else n - 1 }

  /** The part of the tile storage a tile talks to: tile geometry, the highest
      pyramid level seen, and records of the calls a tile makes into it
      (void and set_tile), whose effect belongs to the tile source. */
  class TileStorage {
    const tileWidth: int
    const tileHeight: int
    const pxSize: int
    var seenZoom: int
    /** The (x, y, z) of every gegl_tile_source_void call, in order. */
    var voided: seq<TileKey>
    /** The (x, y, z) of every gegl_tile_source_set_tile call, in order. */
    var setRequests: seq<TileKey>

    constructor (tileWidth: int, tileHeight: int, pxSize: int, seenZoom: int)
      ensures this.tileWidth == tileWidth && this.tileHeight == tileHeight
      ensures this.pxSize == pxSize && this.seenZoom == seenZoom
      ensures voided == [] && setRequests == []
    {
      this.tileWidth := tileWidth;
      this.tileHeight := tileHeight;
      this.pxSize := pxSize;
      this.seenZoom := seenZoom;
      voided := [];
      setRequests := [];
    }

    /** gegl_tile_source_void. */
    method SourceVoid(x: int, y: int, z: int)
      modifies this`voided
      ensures voided == old(voided) + [TileKey(x, y, z)]
    {
      voided := voided + [TileKey(x, y, z)];
    }

    /** gegl_tile_source_set_tile; whether the backend accepts the tile is
        decided outside the model and passed in. */
    method SetTile(x: int, y: int, z: int, accepted: bool) returns (ok: bool)
      modifies this`setRequests
      ensures ok == accepted
      ensures setRequests == old(setRequests) + [TileKey(x, y, z)]
    {
      setRequests := setRequests + [TileKey(x, y, z)];
      ok := accepted;
    }
  }

  /** The keys voided by _gegl_tile_void_pyramid (source, x, y, z): level z,
      then x/2, y/2 at z+1, and so on while the level is at most seenZoom. */
  function PyramidKeys(x: int, y: int, z: int, seenZoom: int): seq<TileKey>
    decreases seenZoom - z
  {
    if z > seenZoom then []
    else [TileKey(x, y, z)] + PyramidKeys(CDiv(x, 2), CDiv(y, 2), z + 1, seenZoom)
  }

  /** _gegl_tile_void_pyramid. */
  method VoidPyramidFrom(source: TileStorage, x: int, y: int, z: int)
    modifies source`voided
    decreases source.seenZoom - z
    ensures source.voided == old(source.voided) + PyramidKeys(x, y, z, source.seenZoom)
  {
    if z > source.seenZoom {
      return;
    }
    source.SourceVoid(x, y, z);
    VoidPyramidFrom(source, CDiv(x, 2), CDiv(y, 2), z + 1);
  }

  /** The i-th key voided from level z is x / 2^i, y / 2^i (C division) at
      level z + i, and the walk stops after level seenZoom. */
  lemma {:induction false} PyramidKeysAt(x: int, y: int, z: int, seenZoom: int)
    ensures |PyramidKeys(x, y, z, seenZoom)| == if seenZoom >= z then seenZoom - z + 1 else 0
    ensures forall i :: 0 <= i < |PyramidKeys(x, y, z, seenZoom)| ==>
      PyramidKeys(x, y, z, seenZoom)[i] == TileKey(CDiv(x, Pow2(i)), CDiv(y, Pow2(i)), z + i)
    decreases seenZoom - z
  {
    if z <= seenZoom {
      var rest := PyramidKeys(CDiv(x, 2), CDiv(y, 2), z + 1, seenZoom);
      PyramidKeysAt(CDiv(x, 2), CDiv(y, 2), z + 1, seenZoom);
      forall i | 0 < i < 1 + |rest|
        ensures PyramidKeys(x, y, z, seenZoom)[i] == TileKey(CDiv(x, Pow2(i)), CDiv(y, Pow2(i)), z + i)
      {
        CDivCompose(x, 2, Pow2(i - 1));
        CDivCompose(y, 2, Pow2(i - 1));
      }
    }
  }

  /** Unlocking a level-0 tile at (x, y) voids, for k = 1 .. seenZoom in
      that order, exactly the tile (x / 2^k, y / 2^k, k), and nothing when
      seenZoom is below 1. */
  lemma PyramidLevels(x: int, y: int, seenZoom: int)
    ensures |PyramidKeys(CDiv(x, 2), CDiv(y, 2), 1, seenZoom)| == if seenZoom >= 1 then seenZoom else 0
    ensures forall k :: 1 <= k <= seenZoom ==>
      PyramidKeys(CDiv(x, 2), CDiv(y, 2), 1, seenZoom)[k - 1] == TileKey(CDiv(x, Pow2(k)), CDiv(y, Pow2(k)), k)
  {
    PyramidKeysAt(CDiv(x, 2), CDiv(y, 2), 1, seenZoom);
    forall k | 1 <= k <= seenZoom
      ensures CDiv(CDiv(x, 2), Pow2(k - 1)) == CDiv(x, Pow2(k)) && CDiv(CDiv(y, 2), Pow2(k - 1)) == CDiv(y, Pow2(k))
    {
      CDivCompose(x, 2, Pow2(k - 1));
      CDivCompose(y, 2, Pow2(k - 1));
    }
  }

  /** The void requests gegl_tile_void loses. For a level-0 tile whose
      storage has seen_zoom >= 1, Tile.Void as written leaves the storage
      unchanged (no request), while Tile.VoidCorrected sends PyramidAbove(t):
      exactly seen_zoom requests, the first for (x/2, y/2) at level 1. */
  lemma VoidSkipsPyramid(t: Tile)
    requires t.storage != null && t.z == 0 && t.storage.seenZoom >= 1
    ensures |PyramidAbove(t)| == t.storage.seenZoom
    ensures PyramidAbove(t)[0] == TileKey(CDiv(t.x, 2), CDiv(t.y, 2), 1)
  {
    PyramidLevels(t.x, t.y, t.storage.seenZoom);
  }

  /** The keys gegl_tile_void_pyramid voids for tile t: none unless t is at
      level 0 with a storage whose seen_zoom is not 0, else x/2, y/2 at
      level 1 and upward. */
  ghost function PyramidAbove(t: Tile): seq<TileKey>
    reads t`storage, t`x, t`y, t`z, t.Storages()`seenZoom
  {
    if t.storage != null && t.storage.seenZoom != 0 && t.z == 0
    then PyramidKeys(CDiv(t.x, 2), CDiv(t.y, 2), 1, t.storage.seenZoom)
    else []
  }

  /** The answer of gegl_tile_store, given whether the tile is stored,
      whether it has a storage, and what set_tile answers. */
  function StoreResult(stored: bool, hasStorage: bool, accepted: bool): (ok: bool)
    ensures ok <==> stored || (hasStorage && accepted)
  {
    if stored then true else if !hasStorage then false else accepted
  }

  /** The tiles of a copy-on-write ring, listed in next_shared order: distinct,
      each one's next_shared / prev_shared the following / preceding entry,
      all carrying this same list as their ghost Ring and sharing one buffer. */
  ghost predicate RingShape(r: seq<Tile>)
    reads r`Ring, r`data, r`size, r`nextShared, r`prevShared
  {
    && |r| > 0
    && Distinct(r)
    && Linked(r)
    && (forall i :: 0 <= i < |r| ==> r[i].Ring == r && r[i].data == r[0].data && r[i].size == r[0].size)
  }

  /** Membership in a world of tiles. The facts World states about a tile
      are used only where a proof names the tile with this predicate. */
  ghost predicate Member(U: set<Tile>, t: Tile)
  {
    t in U
  }

  /** A set of tiles closed under ring membership, every tile well formed. */
  ghost predicate World(U: set<Tile>)
    reads U`Ring, U`data, U`size, U`nextShared, U`prevShared
  {
    forall t {:trigger Member(U, t)} :: t in U && Member(U, t) ==>
      (forall i :: 0 <= i < |t.Ring| ==> t.Ring[i] in U) && t.Valid()
  }

  /** next_shared / prev_shared of every entry point at its neighbours in r. */
  ghost predicate Linked(r: seq<Tile>)
    reads r`nextShared, r`prevShared
  {
    && (forall i {:trigger r[i].nextShared} :: 0 <= i < |r| ==> r[i].nextShared == r[Succ(i, |r|)])
    && (forall i {:trigger r[i].prevShared} :: 0 <= i < |r| ==> r[i].prevShared == r[Pred(i, |r|)])
  }

  ghost predicate Distinct(r: seq<Tile>)
  {
    forall i, j :: 0 <= i < j < |r| ==> r[i] != r[j]
  }

  /** The position of t in r. */
  ghost function IndexOf(r: seq<Tile>, t: Tile): (k: nat)
    requires t in r
    ensures k < |r| && r[k] == t
  {
    if r[0] == t then 0 else 1 + IndexOf(r[1..], t)
  }

  /** r without its entry at position k. */
  ghost function RemoveAt(r: seq<Tile>, k: nat): (r2: seq<Tile>)
    requires k < |r|
    ensures |r2| == |r| - 1
    ensures forall i :: 0 <= i < |r2| ==> r2[i] == (if i < k then r[i] else r[i + 1])
  {
    r[..k] + r[k + 1..]
  }

  /** r without its tile t. */
  ghost function Without(r: seq<Tile>, t: Tile): seq<Tile>
    requires t in r
  {
    RemoveAt(r, IndexOf(r, t))
  }

  /** r with t inserted right after its tile after. */
  ghost function Joined(r: seq<Tile>, after: Tile, t: Tile): seq<Tile>
    requires after in r
  {
    InsertAfter(r, IndexOf(r, after), t)
  }

  /** The ring r after t left it: r without t, or r itself when t is not in it. */
  ghost function Leaving(r: seq<Tile>, t: Tile): seq<Tile>
  {
    if t in r then Without(r, t) else r
  }

  /** A tile other than t stays in the ring t leaves. */
  lemma StaysIn(r: seq<Tile>, t: Tile, u: Tile)
    requires u in r && u != t
    ensures u in Leaving(r, t)
  {
    if t in r {
      var k, j := IndexOf(r, t), IndexOf(r, u);
      assert Without(r, t)[if j < k then j else j - 1] == u;
    }
  }

  /** r with t inserted right after position k. */
  ghost function InsertAfter(r: seq<Tile>, k: nat, t: Tile): (r2: seq<Tile>)
    requires k < |r|
    ensures |r2| == |r| + 1
    ensures forall i :: 0 <= i < |r2| ==>
      r2[i] == (if i <= k then r[i] else if i == k + 1 then t else r[i - 1])
  {
    r[..k + 1] + [t] + r[k + 1..]
  }

  /** Removing position k from a list of distinct tiles removes exactly r[k]. */
  lemma RemoveAtMembers(r: seq<Tile>, k: nat)
    requires k < |r| && Distinct(r)
    ensures Distinct(RemoveAt(r, k))
    ensures forall t :: t in RemoveAt(r, k) <==> t in r && t != r[k]
  {
    var r2 := RemoveAt(r, k);
    forall t | t in r && t != r[k]
      ensures t in r2
    {
      var j := IndexOf(r, t);
      assert r2[if j < k then j else j - 1] == t;
    }
  }

  /** Inserting t after position k adds exactly t. */
  lemma InsertAfterMembers(r: seq<Tile>, k: nat, t: Tile)
    requires k < |r| && Distinct(r) && t !in r
    ensures Distinct(InsertAfter(r, k, t))
    ensures forall u :: u in InsertAfter(r, k, t) <==> u in r || u == t
  {
    var r2 := InsertAfter(r, k, t);
    assert r2[k + 1] == t;
    forall u | u in r
      ensures u in r2
    {
      var j := IndexOf(r, u);
      assert r2[if j <= k then j else j + 1] == u;
    }
  }

  /** Unlinking r[k] (prev->next = next, next->prev = prev), with every other
      pointer of r left as it was, leaves the other entries a linked
      circular list. */
  twostate lemma {:induction false} UnlinkKeepsLinked(r: seq<Tile>, new k: nat)
    requires 2 <= |r| && k < |r| && Distinct(r) && old(Linked(r))
    requires forall t :: t in r && t != r[k] && t != r[Pred(k, |r|)] ==>
      t.nextShared == old(t.nextShared)
    requires forall t :: t in r && t != r[k] && t != r[Succ(k, |r|)] ==>
      t.prevShared == old(t.prevShared)
    requires r[Pred(k, |r|)].nextShared == r[Succ(k, |r|)]
    requires r[Succ(k, |r|)].prevShared == r[Pred(k, |r|)]
    ensures Linked(RemoveAt(r, k))
  {
    var r2 := RemoveAt(r, k);
    forall i | 0 <= i < |r2|
      ensures r2[i].nextShared == r2[Succ(i, |r2|)] && r2[i].prevShared == r2[Pred(i, |r2|)]
    {
      var j := if i < k then i else i + 1;
      assert r2[i] == r[j];
      assert old(r[j].nextShared) == r[Succ(j, |r|)];
      assert old(r[j].prevShared) == r[Pred(j, |r|)];
    }
  }

  /** Linking t in after position k (t->next = old next, k->next = t,
      t->prev = k, next->prev = t), with every other pointer of r left as it
      was, gives a linked circular list. */
  twostate lemma JoinKeepsLinked(r: seq<Tile>, new k: nat, new t: Tile)
    requires 1 <= |r| && k < |r| && Distinct(r) && old(Linked(r)) && t !in r
    requires forall u :: u in r && u != r[k] ==> u.nextShared == old(u.nextShared)
    requires forall u :: u in r && u != r[Succ(k, |r|)] ==> u.prevShared == old(u.prevShared)
    requires r[k].nextShared == t && t.prevShared == r[k]
    requires t.nextShared == r[Succ(k, |r|)] && r[Succ(k, |r|)].prevShared == t
    ensures Linked(InsertAfter(r, k, t))
  {
    JoinKeepsNext(r, k, t);
    JoinKeepsPrev(r, k, t);
  }

  /** The next_shared half of JoinKeepsLinked. */
  twostate lemma {:induction false} JoinKeepsNext(r: seq<Tile>, new k: nat, new t: Tile)
    requires 1 <= |r| && k < |r| && Distinct(r) && old(Linked(r)) && t !in r
    requires forall u :: u in r && u != r[k] ==> u.nextShared == old(u.nextShared)
    requires r[k].nextShared == t && t.nextShared == r[Succ(k, |r|)]
    ensures forall i :: 0 <= i < |r| + 1 ==>
      InsertAfter(r, k, t)[i].nextShared == InsertAfter(r, k, t)[Succ(i, |r| + 1)]
  {
    var r2 := InsertAfter(r, k, t);
    forall i | 0 <= i < |r2|
      ensures r2[i].nextShared == r2[Succ(i, |r2|)]
    {
      if i < k {
        assert r2[i] == r[i] && r2[i + 1] == r[i + 1];
        assert old(r[i].nextShared) == r[Succ(i, |r|)];
      } else if i > k + 1 {
        assert r2[i] == r[i - 1];
        assert old(r[i - 1].nextShared) == r[Succ(i - 1, |r|)];
      } else if i == k {
        assert r2[i] == r[k] && r2[k + 1] == t;
      } else {
        assert r2[i] == t;
      }
    }
  }

  /** The prev_shared half of JoinKeepsLinked. */
  twostate lemma {:induction false} JoinKeepsPrev(r: seq<Tile>, new k: nat, new t: Tile)
    requires 1 <= |r| && k < |r| && Distinct(r) && old(Linked(r)) && t !in r
    requires forall u :: u in r && u != r[Succ(k, |r|)] ==> u.prevShared == old(u.prevShared)
    requires t.prevShared == r[k] && r[Succ(k, |r|)].prevShared == t
    ensures forall i :: 0 <= i < |r| + 1 ==>
      InsertAfter(r, k, t)[i].prevShared == InsertAfter(r, k, t)[Pred(i, |r| + 1)]
  {
    var r2 := InsertAfter(r, k, t);
    forall i | 0 <= i < |r2|
      ensures r2[i].prevShared == r2[Pred(i, |r2|)]
    {
      if i <= k {
        assert r2[i] == r[i];
        if r[i] != r[Succ(k, |r|)] {
          assert old(r[i].prevShared) == r[Pred(i, |r|)];
        }
      } else if i > k + 1 {
        assert r2[i] == r[i - 1];
        if r[i - 1] != r[Succ(k, |r|)] {
          assert old(r[i - 1].prevShared) == r[Pred(i - 1, |r|)];
        }
      } else {
        assert r2[i] == t;
      }
    }
  }

  /** A ring operation that changes only the tiles r, which hold whole old
      rings of the world (and perhaps new tiles), keeps every other tile well
      formed: no other ring shares a tile with r. */
  twostate lemma WorldFrame(U: set<Tile>, new r: seq<Tile>)
    requires old(World(U))
    requires forall i, j :: 0 <= i < |r| && r[i] in U && 0 <= j < |old(r[i].Ring)| ==>
      old(r[i].Ring)[j] in r
    requires forall t :: t in U && t !in r ==> unchanged(t)
    ensures forall t {:trigger Member(U, t)} :: Member(U, t) && t !in r ==>
      (forall i :: 0 <= i < |t.Ring| ==> t.Ring[i] in U && t.Ring[i] !in r) && t.Valid()
  {
    forall t | Member(U, t) && t !in r
      ensures (forall i :: 0 <= i < |t.Ring| ==> t.Ring[i] in U && t.Ring[i] !in r) && t.Valid()
    {
      assert Member(U, t);
      forall i | 0 <= i < |old(t.Ring)|
        ensures old(t.Ring)[i] !in r
      {
      }
    }
  }

  /** When r[k] leaves its ring r, the other tiles carrying the rest of r as
      their ring, linked and with their buffers untouched, are well formed. */
  twostate lemma RestValid(r: seq<Tile>, new k: nat, new U: set<Tile>)
    requires 2 <= |r| && k < |r| && old(RingShape(r))
    requires forall i :: 0 <= i < |r| ==> r[i] in U
    requires old(r[0].data != null && r[0].data.Length == r[0].size)
    requires forall i :: 0 <= i < |r| && i != k ==>
      r[i].data == old(r[i].data) && r[i].size == old(r[i].size) && r[i].Ring == RemoveAt(r, k)
    requires Linked(RemoveAt(r, k))
    ensures forall i :: 0 <= i < |r| && i != k ==>
      r[i].Valid() && (forall m :: 0 <= m < |r[i].Ring| ==> r[i].Ring[m] in U)
  {
    var r2 := RemoveAt(r, k);
    RestShape(r, k, U);
    forall i | 0 <= i < |r| && i != k
      ensures r[i].Valid() && forall m :: 0 <= m < |r[i].Ring| ==> r[i].Ring[m] in U
    {
      assert r2[if i < k then i else i - 1] == r[i];
    }
  }

  /** The rest of r, after r[k] left it, is a ring in U. */
  twostate lemma RestShape(r: seq<Tile>, new k: nat, new U: set<Tile>)
    requires 2 <= |r| && k < |r| && old(RingShape(r))
    requires forall i :: 0 <= i < |r| ==> r[i] in U
    requires forall i :: 0 <= i < |r| && i != k ==>
      r[i].data == old(r[i].data) && r[i].size == old(r[i].size) && r[i].Ring == RemoveAt(r, k)
    requires Linked(RemoveAt(r, k))
    ensures RingShape(RemoveAt(r, k))
    ensures forall m :: 0 <= m < |r| - 1 ==> RemoveAt(r, k)[m] in U
  {
    var r2 := RemoveAt(r, k);
    RemoveAtMembers(r, k);
    forall i | 0 <= i < |r2|
      ensures r2[i].data == old(r[0].data) && r2[i].size == old(r[0].size)
      ensures r2[i].Ring == r2 && r2[i] in U
    {
      assert r2[i] == r[if i < k then i else i + 1];
    }
  }

  /** A tile alone in its ring, with a buffer of its size, is well formed. */
  lemma AloneValid(t: Tile)
    requires t.Alone() && t.prevShared == t && t.data != null && t.data.Length == t.size
    ensures t.Valid()
  {
    assert t.Ring[0] == t;
  }

  /** After r[k] leaves its ring r, the rest of r is a ring of its own with
      the old buffer and the world is well formed: U2 is the world with r[k]
      in it, alone with a buffer of its own (unclone), or without it
      (dispose). */
  twostate lemma DetachRestores(U: set<Tile>, new me: Tile, new r: seq<Tile>, new k: nat, new U2: set<Tile>)
    requires old(World(U)) && me in U && 1 <= |r| && k < |r|
    requires r == old(me.Ring) && r[k] == me
    requires U2 == U - {me} || (U2 == U && 2 <= |r|)
    requires forall t :: t in U && t !in r ==> unchanged(t)
    requires forall i :: 0 <= i < |r| && i != k ==>
      r[i].data == old(r[i].data) && r[i].size == old(r[i].size) && r[i].Ring == RemoveAt(r, k)
    requires 2 <= |r| ==> Linked(RemoveAt(r, k))
    requires U2 == U ==>
      me.Alone() && me.prevShared == me && me.data != null && me.data.Length == me.size
    ensures World(U2)
  {
    assert Member(U, me);
    assert forall i :: 0 <= i < |r| ==> old(r[i].Ring) == r;
    WorldFrame(U, r);
    if 2 <= |r| {
      RestValid(r, k, U);
    }
    if U2 == U {
      AloneValid(me);
    }
    forall t | Member(U2, t)
      ensures (forall i :: 0 <= i < |t.Ring| ==> t.Ring[i] in U2) && t.Valid()
    {
      assert Member(U, t);
      if t in r {
        var j := IndexOf(r, t);
        if j == k {
          assert t == me;
        } else {
          RemoveAtMembers(r, k);
        }
      }
    }
  }

  /** After t, alone before or new, joins the ring r right after r[k]
      sharing its buffer, the world with t in it is well formed. */
  twostate lemma JoinRestores(U: set<Tile>, new me: Tile, new r: seq<Tile>, new k: nat, new t: Tile)
    requires old(World(U)) && me in U && k < |r|
    requires r == old(me.Ring) && r[k] == me && t !in r
    requires t in U ==> old(t.Ring) == [t]
    requires forall u :: u in U && u !in r && u != t ==> unchanged(u)
    requires forall i :: 0 <= i < |r| ==>
      r[i].data == old(r[i].data) && r[i].size == old(r[i].size) && r[i].Ring == InsertAfter(r, k, t)
    requires t.Ring == InsertAfter(r, k, t) && t.data == old(me.data) && t.size == old(me.size)
    requires Linked(InsertAfter(r, k, t))
    ensures World(U + {t})
  {
    var r2 := InsertAfter(r, k, t);
    assert Member(U, me);
    InsertAfterMembers(r, k, t);
    forall i, j | 0 <= i < |r2| && r2[i] in U && 0 <= j < |old(r2[i].Ring)|
      ensures old(r2[i].Ring)[j] in r2
    {
      if r2[i] != t {
        var m := IndexOf(r, r2[i]);
      }
    }
    WorldFrame(U, r2);
    JoinShape(U, r, k, t);
    forall u | Member(U + {t}, u)
      ensures (forall i :: 0 <= i < |u.Ring| ==> u.Ring[i] in U + {t}) && u.Valid()
    {
      if u !in r2 {
        assert Member(U, u);
      }
    }
  }

  /** t joined right after r[k], every entry sharing the old buffer of r,
      makes InsertAfter(r, k, t) a ring of U + {t}. */
  twostate lemma JoinShape(U: set<Tile>, new r: seq<Tile>, new k: nat, new t: Tile)
    requires old(allocated(r))
    requires k < |r| && Distinct(r) && t !in r && old(RingShape(r))
    requires forall i :: 0 <= i < |r| ==> r[i] in U
    requires forall i :: 0 <= i < |r| ==>
      r[i].data == old(r[i].data) && r[i].size == old(r[i].size) && r[i].Ring == InsertAfter(r, k, t)
    requires t.Ring == InsertAfter(r, k, t) && t.data == old(r[k].data) && t.size == old(r[k].size)
    requires Linked(InsertAfter(r, k, t))
    ensures RingShape(InsertAfter(r, k, t))
    ensures forall i :: 0 <= i < |r| + 1 ==> InsertAfter(r, k, t)[i] in U + {t}
  {
    var r2 := InsertAfter(r, k, t);
    InsertAfterMembers(r, k, t);
    forall i | 0 <= i < |r2|
      ensures r2[i].data == old(r[0].data) && r2[i].size == old(r[0].size)
      ensures r2[i].Ring == r2 && r2[i] in U + {t}
    {
      if i != k + 1 {
        assert r2[i] == r[if i <= k then i else i - 1];
      }
    }
  }

  /** After two tiles, each alone in its ring, exchange their buffers, the
      world is well formed. */
  twostate lemma SwapRestores(U: set<Tile>, new a: Tile, new b: Tile)
    requires old(World(U)) && a in U && b in U
    requires old(a.Ring) == [a] && old(b.Ring) == [b] && old(a.size) == old(b.size)
    requires forall u :: u in U && u != a && u != b ==> unchanged(u)
    requires a.Alone() && a.prevShared == a && a.size == old(a.size)
    requires b.Alone() && b.prevShared == b && b.size == old(b.size)
    requires a.data == old(b.data) && b.data == old(a.data)
    ensures World(U)
  {
    assert Member(U, a) && Member(U, b);
    WorldFrame(U, [a, b]);
    AloneValid(a);
    AloneValid(b);
    forall u | Member(U, u)
      ensures (forall i :: 0 <= i < |u.Ring| ==> u.Ring[i] in U) && u.Valid()
    {
    }
  }

  /** When t unclones, another tile u of the world is afterwards in the
      ring u had, less t: the tiles of u's ring are among those of r0. */
  twostate lemma LeavingRing(u: Tile, new t: Tile, new r0: seq<Tile>)
    requires old(allocated(t)) && old(t.Valid()) && old(u.Valid()) && r0 == old(u.Ring) && t != u
    requires forall v :: v in old(t.Ring) && v != t ==> v.Ring == Without(old(t.Ring), t)
    requires t !in old(u.Ring) ==> u.Ring == old(u.Ring)
    ensures u.Ring == Leaving(r0, t)
    ensures forall i :: 0 <= i < |u.Ring| ==> u.Ring[i] in r0
  {
    if t in r0 {
      var j := IndexOf(r0, t);
      assert old(r0[j].Ring) == r0;
      RemoveAtMembers(r0, j);
    }
  }

  /** gegl_memdup: a fresh buffer with the same contents. */
  method MemDup(src: array<Pixel>) returns (dst: array<Pixel>)
    ensures fresh(dst) && dst[..] == src[..]
  {
    dst := new Pixel[src.Length];
    forall i | 0 <= i < src.Length {
      dst[i] := src[i];
    }
  }

  /** Records the rest of r, without r[k], as the ring of each of its tiles. */
  ghost method SetRestRing(r: seq<Tile>, k: nat)
    requires k < |r|
    modifies r`Ring
    ensures forall i :: 0 <= i < |r| && i != k ==> r[i].Ring == RemoveAt(r, k)
  {
    var r2 := RemoveAt(r, k);
    forall i | 0 <= i < |r| && i != k {
      r[i].Ring := r2;
    }
  }

  /** Records r with t inserted after r[k] as the ring of each of its tiles. */
  ghost method SetJoinedRing(r: seq<Tile>, k: nat, t: Tile)
    requires k < |r|
    modifies r`Ring, t`Ring
    ensures forall i :: 0 <= i < |r| ==> r[i].Ring == InsertAfter(r, k, t)
    ensures t.Ring == InsertAfter(r, k, t)
  {
    var r2 := InsertAfter(r, k, t);
    forall i | 0 <= i < |r| {
      r[i].Ring := r2;
    }
    t.Ring := r2;
  }

  /** The lock count of each tile of U. */
  ghost function Locks(U: set<Tile>): map<Tile, gchar>
    reads U`lock
  {
    map t | t in U :: t.lock
  }

  /** Counts that are all back where they were leave the map of counts as
      it was. */
  twostate lemma LocksKept(U: set<Tile>)
    requires forall t :: t in U ==> t.lock == old(t.lock)
    ensures Locks(U) == old(Locks(U))
  {
  }

  class Tile {
    var data: array?<Pixel>
    var size: nat
    var storage: TileStorage?
    var x: int
    var y: int
    var z: int
    var rev: uint32
    var storedRev: uint32
    var lock: gchar
    var nextShared: Tile?
    var prevShared: Tile?
    /** The ring this tile belongs to, in next_shared order. */
    ghost var Ring: seq<Tile>

    ghost predicate Valid()
      reads this`Ring, this`data, this`size
      reads Ring`Ring, Ring`data, Ring`size, Ring`nextShared, Ring`prevShared
    {
      && this in Ring
      && RingShape(Ring)
      && data != null
      && data.Length == size
    }

    /** The tile is alone in its ring: its buffer is not shared. */
    ghost predicate Alone()
      reads this`nextShared, this`Ring
    {
      nextShared == this && Ring == [this]
    }

    /** gegl_tile_init (g_object_new): no buffer, rev 0, stored_rev 0, lock 0,
        no storage, a ring of one. */
    constructor Init()
      ensures Alone() && prevShared == this
      ensures data == null && size == 0 && storage == null
      ensures rev == 0 && storedRev == 0 && lock == 0
      ensures x == 0 && y == 0 && z == 0
    {
      data := null;
      size := 0;
      storage := null;
      x, y, z := 0, 0, 0;
      rev := 0;
      storedRev := 0;
      lock := 0;
      new;
      nextShared := this;
      prevShared := this;
      Ring := [this];
    }

    /** The tile gegl_tile_dup creates from src (g_object_new, then the
        fields copied from src) before linking it in: src's buffer, size and
        storage, rev and stored_rev 1, a ring of one. */
    constructor SharedWith(src: Tile)
      ensures Alone() && prevShared == this
      ensures data == src.data && size == src.size && storage == src.storage
      ensures rev == 1 && storedRev == 1 && lock == 0
      ensures x == 0 && y == 0 && z == 0
    {
      data := src.data;
      size := src.size;
      storage := src.storage;
      x, y, z := 0, 0, 0;
      rev := 1;
      storedRev := 1;
      lock := 0;
      new;
      nextShared := this;
      prevShared := this;
      Ring := [this];
    }

    /** gegl_tile_new (size), including gegl_tile_init: a private buffer of
        `size` pixels, rev 0 and stored_rev 1, a ring of one, no storage. */
    constructor New(size: nat)
      ensures Valid() && Alone() && fresh(data)
      ensures this.size == size && data.Length == size
      ensures rev == 0 && storedRev == 1 && lock == 0
      ensures storage == null && x == 0 && y == 0 && z == 0
    {
      this.size := size;
      data := new Pixel[size];
      storage := null;
      x, y, z := 0, 0, 0;
      rev := 0;
      storedRev := 1;
      lock := 0;
      new;
      nextShared := this;
      prevShared := this;
      Ring := [this];
    }

    /** gegl_tile_unclone: a tile whose buffer is shared takes a private copy
        of it and leaves the ring; the others keep the old buffer and stay a
        ring without it. A tile alone in its ring is left as it is. */
    method Unclone(ghost U: set<Tile>)
      requires World(U) && this in U && Valid()
      modifies this`data, Ring`nextShared, Ring`prevShared, Ring`Ring
      ensures World(U)
      ensures Alone() && prevShared == this
      ensures data != null && data[..] == old(data[..])
      ensures old(nextShared) != this ==> fresh(data)
      ensures old(nextShared) == this ==> data == old(data)
      ensures forall t :: t in old(Ring) && t != this ==> t.Ring == Without(old(Ring), this)
    {
      if nextShared == this {
        assert Ring == [this];
      } else {
        Detach(U);
      }
    }

    /** The shared case of gegl_tile_unclone. */
    method Detach(ghost U: set<Tile>)
      requires World(U) && this in U && Valid() && nextShared != this
      modifies this`data, Ring`nextShared, Ring`prevShared, Ring`Ring
      ensures World(U)
      ensures Alone() && prevShared == this
      ensures fresh(data) && data[..] == old(data[..])
      ensures forall t :: t in old(Ring) && t != this ==> t.Ring == Without(old(Ring), this)
    {
      ghost var r := Ring;
      ghost var k := IndexOf(r, this);
      data := MemDup(data);
      Unlink(r, k);
      DetachRestores(U, this, r, k, U);
    }

    /** The relinking half of gegl_tile_unclone: the neighbours of r[k], this
        tile, are joined around it, and it becomes a ring of one. */
    method Unlink(ghost r: seq<Tile>, ghost k: nat)
      requires r == Ring && k < |r| && r[k] == this
      requires Distinct(r) && Linked(r) && nextShared != this
      modifies r`nextShared, r`prevShared, r`Ring
      ensures Alone() && prevShared == this
      ensures Linked(RemoveAt(r, k))
      ensures forall i :: 0 <= i < |r| && i != k ==> r[i].Ring == RemoveAt(r, k)
    {
      Bypass(r, k);
      SetRestRing(r, k);
      prevShared := this;
      nextShared := this;
      Ring := [this];
    }

    /** prev->next = next, next->prev = prev: the other tiles of the ring r
        of this tile, r[k], are linked without it. The tile's own pointers
        are not touched. */
    method Bypass(ghost r: seq<Tile>, ghost k: nat)
      requires r == Ring && k < |r| && r[k] == this
      requires Distinct(r) && Linked(r) && nextShared != this
      modifies Ring`nextShared, Ring`prevShared
      ensures 2 <= |r| && this !in RemoveAt(r, k)
      ensures old(prevShared).nextShared == old(nextShared)
      ensures old(nextShared).prevShared == old(prevShared)
      ensures Linked(RemoveAt(r, k))
    {
      prevShared.nextShared := nextShared;
      nextShared.prevShared := prevShared;
      UnlinkKeepsLinked(r, k);
      RemoveAtMembers(r, k);
    }

    /** t->next = next, next = t, t->prev = this, t->next->prev = t: t, not
        in the ring r of this tile r[k], is linked in right after it. */
    method Join(ghost r: seq<Tile>, ghost k: nat, t: Tile)
      requires r == Ring && k < |r| && r[k] == this
      requires Distinct(r) && Linked(r) && t !in r
      modifies r`nextShared, r`prevShared, r`Ring, t`nextShared, t`prevShared, t`Ring
      ensures nextShared == t && t.prevShared == this
      ensures Linked(InsertAfter(r, k, t))
      ensures forall i :: 0 <= i < |r| ==> r[i].Ring == InsertAfter(r, k, t)
      ensures t.Ring == InsertAfter(r, k, t)
    {
      Link(r, k, t);
      SetJoinedRing(r, k, t);
    }

    /** The pointer half of Join. */
    method Link(ghost r: seq<Tile>, ghost k: nat, t: Tile)
      requires r == Ring && k < |r| && r[k] == this
      requires Distinct(r) && Linked(r) && t !in r
      modifies r`nextShared, r`prevShared, t`nextShared, t`prevShared
      ensures nextShared == t && t.prevShared == this
      ensures Linked(InsertAfter(r, k, t))
    {
      t.nextShared := nextShared;
      nextShared := t;
      t.prevShared := this;
      t.nextShared.prevShared := t;
      JoinKeepsLinked(r, k, t);
    }

    /** gegl_tile_dup: a new tile sharing this tile's buffer and size and its
        storage, with rev and stored_rev 1, linked in right after it. */
    method Dup(ghost U: set<Tile>) returns (t: Tile)
      requires World(U) && this in U && Valid()
      modifies Ring`nextShared, Ring`prevShared, Ring`Ring
      ensures fresh(t) && World(U + {t})
      ensures t.data == data && t.size == size && t.storage == storage
      ensures t.rev == 1 && t.storedRev == 1 && t.lock == 0 && t.IsStored()
      ensures t.x == 0 && t.y == 0 && t.z == 0
      ensures nextShared == t && t.prevShared == this
      ensures forall u :: u in old(Ring) ==> u.Ring == Joined(old(Ring), this, t)
      ensures t.Ring == Joined(old(Ring), this, t)
    {
      t := new Tile.SharedWith(this);
      ghost var r := Ring;
      ghost var k := IndexOf(r, this);
      Join(r, k, t);
      JoinRestores(U, this, r, k, t);
    }

    /** gegl_tile_cpy: dst is locked (so it leaves its ring with a private
        copy), its buffer dropped, then it is linked in right after this tile
        sharing this tile's buffer, and unlocked. dst's size is not updated
        by the source, so the sizes must already agree. */
    method Cpy(ghost U: set<Tile>, dst: Tile)
      requires World(U) && this in U && dst in U && Valid() && dst.Valid()
      requires dst != this && dst.size == size
      modifies dst`lock, dst`rev, dst`data, dst.Storages()`voided
      modifies dst.Ring`nextShared, dst.Ring`prevShared, dst.Ring`Ring
      modifies Ring`nextShared, Ring`prevShared, Ring`Ring
      ensures World(U)
      ensures (StaysIn(old(Ring), dst, this); SharedIn(dst, Leaving(old(Ring), dst)))
      ensures dst.lock == old(dst.lock)
      ensures dst.rev == if dst.lock == 0 then UIntInc(old(dst.rev)) else old(dst.rev)
      ensures dst.storage != null ==>
        dst.storage.voided == old(dst.storage.voided) + (if dst.lock == 0 then PyramidAbove(dst) else [])
    {
      ghost var st := dst.storage;
      ghost var v0 := if st != null then st.voided else [];
      LockAndShare(U, dst);
      assert dst.storage == st && dst.rev == old(dst.rev);
      assert st != null ==> st.voided == v0;
      dst.UnlockBeside(U, this);
      CharRoundTrip(old(dst.lock));
    }

    /** The unlock that ends gegl_tile_cpy: the ring fields of this tile and
        of src, which it now shares with, stay as they are. */
    method UnlockBeside(ghost U: set<Tile>, ghost src: Tile)
      requires World(U)
      modifies this`lock, this`rev, Storages()`voided
      ensures World(U)
      ensures lock == CharAdd(old(lock), -1)
      ensures rev == if lock == 0 then UIntInc(old(rev)) else old(rev)
      ensures storage != null ==>
        storage.voided == old(storage.voided) + (if lock == 0 then PyramidAbove(this) else [])
      ensures unchanged(this`data, this`prevShared, this`Ring, src`data, src`nextShared, src`Ring)
    {
      UnlockIn(U);
    }

    /** Unlock, with the world it leaves well formed. */
    method UnlockIn(ghost U: set<Tile>)
      requires World(U)
      modifies this`lock, this`rev, Storages()`voided
      ensures World(U)
      ensures lock == CharAdd(old(lock), -1)
      ensures rev == if lock == 0 then UIntInc(old(rev)) else old(rev)
      ensures storage != null ==>
        storage.voided == old(storage.voided) + (if lock == 0 then PyramidAbove(this) else [])
    {
      Unlock();
    }

    /** Lock, as seen by a buffer that only reads and writes the tile's
        pixels: the world stays well formed and the contents are kept, in the
        same buffer or in a fresh copy. */
    method LockIn(ghost U: set<Tile>)
      requires World(U) && this in U && Valid()
      modifies this`lock, this`data, Ring`nextShared, Ring`prevShared, Ring`Ring
      ensures World(U) && lock == CharAdd(old(lock), 1)
      ensures data != null && data[..] == old(data[..])
      ensures fresh(data) || data == old(data)
      ensures old(Ring) != [this] ==> fresh(data)
      ensures forall t :: t in old(Ring) && t != this ==> t.data == old(data)
    {
      Lock(U);
    }

    /** What gegl_tile_cpy needs: two distinct well-formed tiles of one
        world, with buffers of the same size. */
    ghost predicate CanShare(U: set<Tile>, dst: Tile)
      reads U`Ring, U`data, U`size, U`nextShared, U`prevShared
      reads this`Ring, this`data, this`size, Ring`Ring, Ring`data, Ring`size, Ring`nextShared, Ring`prevShared
      reads dst`Ring, dst`data, dst`size, dst.Ring`Ring, dst.Ring`data, dst.Ring`size
      reads dst.Ring`nextShared, dst.Ring`prevShared
    {
      World(U) && this in U && dst in U && Valid() && dst.Valid() && dst != this && dst.size == size
    }

    /** dst sits right after this tile in this tile's ring, which is r with
        dst linked in, and shares this tile's buffer. */
    ghost predicate SharedIn(dst: Tile, r: seq<Tile>)
      requires this in r
      reads this`data, this`nextShared, this`Ring, dst`data, dst`prevShared, dst`Ring
    {
      && dst.data == data && nextShared == dst && dst.prevShared == this
      && Ring == Joined(r, this, dst) && dst.Ring == Ring
    }

    /** gegl_tile_cpy up to the unlock of dst. */
    method LockAndShare(ghost U: set<Tile>, dst: Tile)
      requires CanShare(U, dst)
      modifies dst`lock, dst`data
      modifies dst.Ring`nextShared, dst.Ring`prevShared, dst.Ring`Ring
      modifies Ring`nextShared, Ring`prevShared, Ring`Ring
      ensures World(U)
      ensures (StaysIn(old(Ring), dst, this); SharedIn(dst, Leaving(old(Ring), dst)))
      ensures dst.lock == CharAdd(old(dst.lock), 1)
    {
      ghost var r0 := Ring;
      dst.Lock(U);
      LeavingRing(this, dst, r0);
      assert Member(U, this);
      ShareWith(U, dst);
    }

    /** The middle of gegl_tile_cpy: dst, alone, is linked in right after
        this tile and takes this tile's buffer. */
    method ShareWith(ghost U: set<Tile>, dst: Tile)
      requires World(U) && this in U && dst in U && Valid() && dst.Ring == [dst]
      requires dst != this && dst.size == size
      modifies dst`data, dst`nextShared, dst`prevShared, dst`Ring
      modifies Ring`nextShared, Ring`prevShared, Ring`Ring
      ensures World(U)
      ensures dst.data == data && nextShared == dst && dst.prevShared == this
      ensures Ring == Joined(old(Ring), this, dst) && dst.Ring == Ring
    {
      ghost var r := Ring;
      ghost var k := IndexOf(r, this);
      Join(r, k, dst);
      dst.data := data;
      JoinRestores(U, this, r, k, dst);
      assert U + {dst} == U;
    }

    /** gegl_tile_swp: both tiles are uncloned, then exchange their buffers
        (the sizes must agree). */
    method Swp(ghost U: set<Tile>, b: Tile)
      requires World(U) && this in U && b in U && Valid() && b.Valid() && size == b.size
      modifies this`data, b`data
      modifies Ring`nextShared, Ring`prevShared, Ring`Ring
      modifies b.Ring`nextShared, b.Ring`prevShared, b.Ring`Ring
      ensures World(U) && Alone() && b.Alone()
      ensures data != null && b.data != null
      ensures data[..] == old(b.data[..]) && b.data[..] == old(data[..])
    {
      UncloneBoth(U, b);
      Exchange(U, b);
    }

    /** The two gegl_tile_unclone calls of gegl_tile_swp. */
    method UncloneBoth(ghost U: set<Tile>, b: Tile)
      requires World(U) && this in U && b in U && Valid() && b.Valid()
      modifies this`data, b`data
      modifies Ring`nextShared, Ring`prevShared, Ring`Ring
      modifies b.Ring`nextShared, b.Ring`prevShared, b.Ring`Ring
      ensures World(U) && Alone() && b.Alone()
      ensures data != null && b.data != null
      ensures data[..] == old(data[..]) && b.data[..] == old(b.data[..])
    {
      if b == this {
        Unclone(U);
        b.Unclone(U);
      } else {
        UnclonePair(U, b);
      }
    }

    /** gegl_tile_swp's two unclones on two different tiles. */
    method UnclonePair(ghost U: set<Tile>, b: Tile)
      requires World(U) && this in U && b in U && Valid() && b.Valid() && b != this
      modifies this`data, b`data
      modifies Ring`nextShared, Ring`prevShared, Ring`Ring
      modifies b.Ring`nextShared, b.Ring`prevShared, b.Ring`Ring
      ensures World(U) && Alone() && b.Alone()
      ensures data != null && b.data != null
      ensures data[..] == old(data[..]) && b.data[..] == old(b.data[..])
    {
      ghost var r0 := b.Ring;
      Unclone(U);
      LeavingRing(b, this, r0);
      UncloneOther(U, b, r0);
    }

    /** The second unclone of gegl_tile_swp, on a tile b other than this
        one, which is already alone; b's ring is among the tiles r0. */
    method UncloneOther(ghost U: set<Tile>, b: Tile, ghost r0: seq<Tile>)
      requires World(U) && this in U && b in U && b != this && Alone()
      requires forall i :: 0 <= i < |b.Ring| ==> b.Ring[i] in r0
      requires data != null && b.data != null
      modifies b`data, r0`nextShared, r0`prevShared, r0`Ring
      ensures World(U) && Alone() && b.Alone()
      ensures data == old(data) && b.data != null && b.data[..] == old(b.data[..])
    {
      assert Member(U, b);
      assert this !in b.Ring;
      b.Unclone(U);
    }

    /** The end of gegl_tile_swp: two tiles, each alone, exchange buffers. */
    method Exchange(ghost U: set<Tile>, b: Tile)
      requires World(U) && this in U && b in U && Alone() && b.Alone() && size == b.size
      modifies this`data, b`data
      ensures World(U) && data == old(b.data) && b.data == old(data)
    {
      assert Member(U, this) && Member(U, b);
      var tmp := data;
      data := b.data;
      b.data := tmp;
      SwapRestores(U, this, b);
    }

    /** The ring handling of dispose: an unstored tile is stored first; then
        the tile leaves the world. */
    method Dispose(ghost U: set<Tile>, accepted: bool)
      requires World(U) && this in U && Valid()
      modifies this`data, Storages()`setRequests, Ring`nextShared, Ring`prevShared, Ring`Ring
      ensures World(U - {this})
      ensures storage != null ==>
        storage.setRequests == old(storage.setRequests) + (if old(IsStored()) then [] else [TileKey(x, y, z)])
      ensures old(nextShared) == this ==> data == null
      ensures old(nextShared) != this ==>
        old(prevShared).nextShared == old(nextShared) && old(nextShared).prevShared == old(prevShared)
      ensures forall t :: t in old(Ring) && t != this ==> t.Ring == Without(old(Ring), this)
    {
      if !IsStored() {
        var _ := Store(accepted);
      }
      Release(U);
    }

    /** A tile alone in its ring drops its buffer; a shared one is bypassed
        by its neighbours, which keep the buffer. */
    method Release(ghost U: set<Tile>)
      requires World(U) && this in U && Valid()
      modifies this`data, Ring`nextShared, Ring`prevShared, Ring`Ring
      ensures World(U - {this})
      ensures old(nextShared) == this ==> data == null
      ensures old(nextShared) != this ==>
        old(prevShared).nextShared == old(nextShared) && old(nextShared).prevShared == old(prevShared)
      ensures forall t :: t in old(Ring) && t != this ==> t.Ring == Without(old(Ring), this)
    {
      assert Member(U, this);
      if nextShared == this {
        assert Ring == [this];
        data := null;
        DetachRestores(U, this, [this], 0, U - {this});
      } else {
        ghost var r := Ring;
        ghost var k := IndexOf(r, this);
        Bypass(r, k);
        SetRestRing(r, k);
        DetachRestores(U, this, r, k, U - {this});
      }
    }

    /** The tile storage, if any, as a set. */
    ghost function Storages(): set<TileStorage>
      reads this`storage
    {
      if storage == null then {} else {storage}
    }

    /** gegl_tile_lock: bumps the lock count (a count other than 0 only
        draws a warning) and always unclones. */
    method Lock(ghost U: set<Tile>)
      requires World(U) && this in U && Valid()
      modifies this`lock, this`data, Ring`nextShared, Ring`prevShared, Ring`Ring
      ensures lock == CharAdd(old(lock), 1)
      ensures World(U)
      ensures Alone() && prevShared == this
      ensures data != null && data[..] == old(data[..])
      ensures old(nextShared) != this ==> fresh(data)
      ensures old(nextShared) == this ==> data == old(data)
      ensures old(Ring) != [this] ==> fresh(data)
      ensures forall t :: t in old(Ring) && t != this ==> t.Ring == Without(old(Ring), this)
      ensures forall t :: t in old(Ring) && t != this ==> t.data == old(data)
      ensures rev == old(rev) && storedRev == old(storedRev)
    {
      lock := CharAdd(lock, 1);
      assert nextShared == this ==> Ring == [this];
      Unclone(U);
    }

    /** A gegl_tile_lock directly followed by gegl_tile_unlock. */
    method LockUnlock(ghost U: set<Tile>)
      requires World(U) && this in U && Valid()
      modifies this`lock, this`rev, this`data, Storages()`voided
      modifies Ring`nextShared, Ring`prevShared, Ring`Ring
      ensures World(U) && Alone() && lock == old(lock)
      ensures data != null && data[..] == old(data[..])
      ensures old(nextShared) != this ==> fresh(data)
      ensures forall t :: t in old(Ring) && t != this ==> t.data == old(data)
    {
      Lock(U);
      UnlockIn(U);
      CharRoundTrip(old(lock));
    }

    /** What a gegl_tile_lock / gegl_tile_unlock pair on this tile leaves,
        besides the pixels, among the tiles U: the lock count is back where
        it was; when the unlock brought it to 0, rev is bumped (so a stored
        tile is stored no more: stored_rev stays) and the storage is asked to
        void the pyramid above the tile; no other tile's count or rev moves. */
    twostate predicate LockedOnce(U: set<Tile>)
      reads U`lock, U`rev, this`lock, this`rev, this`storedRev, this`storage, this`x, this`y, this`z
      reads Storages()`voided, Storages()`seenZoom
    {
      && (forall t :: t in U && t != this ==> t.lock == old(t.lock) && t.rev == old(t.rev))
      && lock == old(lock) && storedRev == old(storedRev)
      && rev == (if old(lock) == 0 then UIntInc(old(rev)) else old(rev))
      && storage == old(storage)
      && (storage != null ==>
            storage.voided == old(storage.voided) + (if old(lock) == 0 then PyramidAbove(this) else []))
    }

    /** gegl_tile_lock, a read of the pixel at offset, gegl_tile_unlock: the
        bracket gegl_buffer_get_pixel puts around its memcpy. The pixel is
        the one the tile held; the lock count is back where it was, and the
        unlock bumped rev and voided the pyramid when it reached 0. */
    method LockedLoad(ghost U: set<Tile>, offset: int) returns (px: Pixel)
      requires World(U) && this in U && Valid() && 0 <= offset < size
      modifies this`lock, this`rev, this`data, Storages()`voided
      modifies Ring`nextShared, Ring`prevShared, Ring`Ring
      ensures World(U) && data != null && data[..] == old(data[..])
      ensures data == old(data) || fresh(data)
      ensures px == old(data[offset])
      ensures LockedOnce(U)
    {
      LockIn(U);
      px := data[offset];
      UnlockIn(U);
      CharRoundTrip(old(lock));
    }

    /** gegl_tile_lock, a store of px at offset, gegl_tile_unlock: the bracket
        gegl_buffer_set_pixel puts around its memcpy. The store lands in the
        tile's own buffer: a buffer it shared is first copied, and the tiles
        it shared with keep that buffer and its contents. */
    method LockedStore(ghost U: set<Tile>, offset: int, px: Pixel)
      requires World(U) && this in U && Valid() && 0 <= offset < size
      modifies this`lock, this`rev, this`data, data, Storages()`voided
      modifies Ring`nextShared, Ring`prevShared, Ring`Ring
      ensures World(U) && data != null && data[..] == old(data[..])[offset := px]
      ensures data == old(data) || fresh(data)
      ensures forall t :: t in old(Ring) && t != this ==> t.data == old(data) && t.data[..] == old(data[..])
      ensures LockedOnce(U)
    {
      LockIn(U);
      assert Member(U, this);
      StoreUnlock(U, offset, px);
      CharRoundTrip(old(lock));
    }

    /** The end of LockedStore: the store into the tile's own buffer, then
        gegl_tile_unlock. */
    method StoreUnlock(ghost U: set<Tile>, offset: int, px: Pixel)
      requires World(U) && this in U && Valid() && 0 <= offset < size
      modifies this`lock, this`rev, data, Storages()`voided
      ensures World(U) && data[..] == old(data[..])[offset := px]
      ensures lock == CharAdd(old(lock), -1)
      ensures rev == if lock == 0 then UIntInc(old(rev)) else old(rev)
      ensures storage != null ==>
        storage.voided == old(storage.voided) + (if lock == 0 then PyramidAbove(this) else [])
    {
      data[offset] := px;
      UnlockIn(U);
    }

    /** gegl_tile_void_pyramid: only a level-0 tile with a storage whose
        seen_zoom is not 0 voids x/2, y/2 at level 1 and the levels above. */
    method VoidPyramid()
      modifies Storages()`voided
      ensures storage != null ==> storage.voided == old(storage.voided) + PyramidAbove(this)
    {
      if storage != null && storage.seenZoom != 0 && z == 0 {
        VoidPyramidFrom(storage, CDiv(x, 2), CDiv(y, 2), z + 1);
      }
    }

    /** gegl_tile_unlock: drops the lock count (at 0 it only warns and
        wraps); when the count reaches 0 a level-0 tile voids its pyramid
        ancestors and rev is bumped. */
    method Unlock()
      modifies this`lock, this`rev, Storages()`voided
      ensures lock == CharAdd(old(lock), -1)
      ensures rev == if lock == 0 then UIntInc(old(rev)) else old(rev)
      ensures storage != null ==>
        storage.voided == old(storage.voided) + (if lock == 0 then PyramidAbove(this) else [])
    {
      lock := CharAdd(lock, -1);
      if lock == 0 && z == 0 {
        VoidPyramid();
      }
      if lock == 0 {
        rev := UIntInc(rev);
      }
    }

    /** gegl_tile_void as written: stored_rev = rev, then the storage is
        detached BEFORE the pyramid voider runs, so that call finds no
        storage and voids nothing. */
    method Void()
      modifies this`storedRev, this`storage
      ensures storedRev == rev && IsStored() && storage == null
      ensures old(storage) != null ==> unchanged(old(storage))
    {
      storedRev := rev;
      storage := null;
      if z == 0 {
        VoidPyramid();
      }
    }

    /** gegl_tile_void as evidently intended: the pyramid ancestors of a
        level-0 tile are voided before the storage is detached. */
    method VoidCorrected()
      modifies this`storedRev, this`storage, Storages()`voided
      ensures storedRev == rev && IsStored() && storage == null
      ensures old(storage) != null ==>
        old(storage).voided == old(storage.voided) + old(PyramidAbove(this))
    {
      storedRev := rev;
      if z == 0 {
        VoidPyramid();
      }
      storage := null;
    }

    /** gegl_tile_store: TRUE if already stored, FALSE without a storage,
        otherwise whatever set_tile answers (passed in as `accepted`). */
    method Store(accepted: bool) returns (ok: bool)
      modifies Storages()`setRequests
      ensures ok == StoreResult(IsStored(), storage != null, accepted)
      ensures storage != null ==>
        storage.setRequests == old(storage.setRequests) + (if IsStored() then [] else [TileKey(x, y, z)])
    {
      if IsStored() {
        return true;
      }
      if storage == null {
        return false;
      }
      ok := storage.SetTile(x, y, z, accepted);
    }

    /** gegl_tile_is_stored. */
    predicate IsStored()
      reads this
    {
      storedRev == rev
    }
  }

  /** gegl_tile_new, as the only tile of a world of its own. */
  method NewAlone(size: nat) returns (tile: Tile)
    ensures fresh(tile) && fresh(tile.data) && World({tile}) && tile.Alone() && tile.Valid()
    ensures tile.data != null && tile.data.Length == size && tile.storage == null
  {
    tile := new Tile.New(size);
    AloneValid(tile);
    assert World({tile}) by {
      forall t | Member({tile}, t)
        ensures (forall i :: 0 <= i < |t.Ring| ==> t.Ring[i] in {tile}) && t.Valid()
      {
      }
    }
  }

  /** The copy-on-write scenario of the tile tests: right after a dup the
      two tiles share one buffer; after a lock / unlock of the duplicate
      they hold different buffers with the same contents. */
  method CowSeparation(size: nat) returns (sharedAfterDup: bool, separatedAfterLock: bool, sameContents: bool)
    ensures sharedAfterDup && separatedAfterLock && sameContents
  {
    var tile := NewAlone(size);
    var tile2 := tile.Dup({tile});
    sharedAfterDup := tile.data == tile2.data;
    ghost var U := {tile} + {tile2};
    ghost var r := tile2.Ring;
    assert IndexOf([tile], tile) == 0;
    assert r == InsertAfter([tile], 0, tile2) == [tile, tile2];
    assert Member(U, tile2) && tile2.Valid();
    assert r[1].nextShared == r[Succ(1, 2)];
    tile2.LockUnlock(U);
    separatedAfterLock := tile.data != tile2.data;
    sameContents := tile.data[..] == tile2.data[..];
  }
}
