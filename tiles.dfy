/** Tile addressing of src/MRF.js: where a tile's index record lives
    (`getTiles`, lines 388-416), the key of the tile cache
    (`getCacheKeyForTile`), the inclusive byte range of a tile, and how a
    buffer holding several consecutive ranges is cut back into tiles. */
module Tiles {
  import opened Common
  import opened Text
  import opened Pyramid
  import opened IndexStore
  import Clustering

  /** A band-aware tile coordinate `{ b, l, x, y }`. */
  datatype Coord = Coord(b: nat, l: nat, x: nat, y: nat)

  /** What the reader knows about the raster (the result of parsing the
      metadata file). */
  datatype Meta = Meta(
    width: nat, height: nat, numBands: nat,
    pageWidth: nat, pageHeight: nat, pageBands: nat,
    widthInTiles: nat, overviews: Option<seq<Overview>>,
    noDataValue: Option<real>, compression: Option<string>)

  /** The reader's metadata for a raster whose geometry the pyramid module computed. */
  function MetaOf(r: Raster, overviews: Option<seq<Overview>>, noDataValue: Option<real>, compression: Option<string>): (m: Meta)
    requires Valid(r)
    ensures m.widthInTiles == LayoutOf(r).widthInTiles
  {
    Meta(r.width, r.height, r.numBands, r.pageWidth, r.pageHeight, r.pageBands,
         LayoutOf(r).widthInTiles, overviews, noDataValue, compression)
  }

  /** A decoded single-band tile: its pixels in row-major order and its size. */
  datatype Image = Image(pixels: seq<real>, height: nat, width: nat)

  /** A tile object of `getTiles`: its coordinate, index slot, inclusive byte
      range and length, and, once known, its bytes and its decoded image. */
  datatype TileRecord = TileRecord(
    coord: Coord, slot: nat, start: nat, end: int, length: nat,
    data: Option<Bytes>, image: Option<Image>)

  function TileStart(t: TileRecord): int { t.start }
  function TileEnd(t: TileRecord): int { t.end }

  /** The ways a request fails; each is an exception thrown by the source. */
  datatype ReadError =
    | MissingOverview(level: nat)
    | MissingIndexEntry(slot: nat)
    | IncompleteIndexEntry(slot: nat)
    | RangeRequestsUnsupported
    | NoDataUrl
    | NothingToCluster
    | TileWithoutData
    | DecodeFailed(reason: DecodeError)
    | EmptyCoords
    | NoOverviews
    | MissingTile(x: int, y: int)
    | MissingBand(band: nat)
    | UndefinedName(name: string)
    | DegenerateScale
    | NegativeSize

  datatype DecodeError = NoData | LercFailed | BandCountMismatch(decoded: nat, expected: nat) | NotSingleBand(count: nat)

  // ---- The cache key ---------------------------------------------------------

  /** `b:${tile.b}  l:${tile.l}  x:${tile.x}  y:${tile.y}`. */
  function CacheKey(c: Coord): string {
    "b:" + NatToString(c.b) + "  l:" + NatToString(c.l) + "  x:" + NatToString(c.x) + "  y:" + NatToString(c.y)
  }

  /** Equal keys that agree up to a field agree on that field and on what follows it. */
  lemma PeelField(prefix: string, a: nat, b: nat, r1: string, r2: string)
    requires |r1| > 0 && |r2| > 0 && r1[0] == ' ' && r2[0] == ' '
    requires prefix + (NatToString(a) + r1) == prefix + (NatToString(b) + r2)
    ensures a == b && r1 == r2
  {
    var s1, s2 := prefix + (NatToString(a) + r1), prefix + (NatToString(b) + r2);
    assert NatToString(a) + r1 == s1[|prefix|..] == s2[|prefix|..] == NatToString(b) + r2;
    DigitPrefixUnique(NatToString(a), NatToString(b), r1, r2);
    NatToStringInjective(a, b);
  }

  lemma CacheKeyNested(c: Coord)
    ensures CacheKey(c) == "b:" + (NatToString(c.b) + ("  l:" + (NatToString(c.l) + ("  x:" + (NatToString(c.x) + ("  y:" + NatToString(c.y)))))))
  {
  }

  /** Different tiles never share a cache entry. */
  lemma CacheKeyInjective(c: Coord, d: Coord)
    requires CacheKey(c) == CacheKey(d)
    ensures c == d
  {
    CacheKeyNested(c);
    CacheKeyNested(d);
    var y1, y2 := "  y:" + NatToString(c.y), "  y:" + NatToString(d.y);
    var x1, x2 := "  x:" + (NatToString(c.x) + y1), "  x:" + (NatToString(d.x) + y2);
    var l1, l2 := "  l:" + (NatToString(c.l) + x1), "  l:" + (NatToString(d.l) + x2);
    PeelField("b:", c.b, d.b, l1, l2);
    PeelField("  l:", c.l, d.l, x1, x2);
    PeelField("  x:", c.x, d.x, y1, y2);
    assert NatToString(c.y) == y1[4..] == y2[4..] == NatToString(d.y);
    NatToStringInjective(c.y, d.y);
  }

  // ---- Slots -----------------------------------------------------------------

  /** Where a level's slots begin in the index, and its width in pages. */
  datatype Level = Level(offset: nat, widthInPages: nat)

  /** Level 0 starts at slot 0 and is `widthInTiles` wide; level `l >= 1` is
      `overviews[l - 1]`, which must exist. */
  function LevelOf(meta: Meta, l: nat): (r: Result<Level, ReadError>)
    ensures l == 0 ==> r == Ok(Level(0, meta.widthInTiles))
    ensures l > 0 ==> (r.Ok? <==> meta.overviews.Some? && l <= |meta.overviews.value|)
    ensures l > 0 && r.Ok? ==>
      r.value == Level(meta.overviews.value[l - 1].offset, meta.overviews.value[l - 1].widthInPages)
    ensures r.Err? ==> r.error == MissingOverview(l)
  {
    if l == 0 then Ok(Level(0, meta.widthInTiles))
    else if meta.overviews.Some? && l <= |meta.overviews.value| then
      var o := meta.overviews.value[l - 1];
      Ok(Level(o.offset, o.widthInPages))
    else Err(MissingOverview(l))
  }

  /** `levelOffset + y * levelWidth * numBands + x * numBands + b`: the
      records are interleaved by band within a tile position, positions
      run along rows, and rows follow each other. */
  function Slot(level: Level, numBands: nat, c: Coord): nat {
    level.offset + c.y * level.widthInPages * numBands + c.x * numBands + c.b
  }

  lemma SlotParts(level: Level, numBands: nat, c: Coord)
    ensures Slot(level, numBands, c) - level.offset == (c.y * level.widthInPages + c.x) * numBands + c.b
  {
    assert c.y * level.widthInPages * numBands + c.x * numBands == (c.y * level.widthInPages + c.x) * numBands;
  }

  /** The slot determines the band, column and row it was computed from. */
  lemma SlotDecompose(level: Level, numBands: nat, c: Coord)
    requires c.b < numBands && c.x < level.widthInPages
    ensures var k := Slot(level, numBands, c) - level.offset;
      && k % numBands == c.b
      && (k / numBands) % level.widthInPages == c.x
      && (k / numBands) / level.widthInPages == c.y
  {
    var k := Slot(level, numBands, c) - level.offset;
    SlotParts(level, numBands, c);
    Numbers.DivModUnique(k, numBands, c.y * level.widthInPages + c.x, c.b);
    Numbers.DivModUnique(c.y * level.widthInPages + c.x, level.widthInPages, c.y, c.x);
  }

  /** Within a level, distinct coordinates have distinct slots. */
  lemma SlotInjective(level: Level, numBands: nat, c: Coord, d: Coord)
    requires c.l == d.l
    requires c.b < numBands && c.x < level.widthInPages
    requires d.b < numBands && d.x < level.widthInPages
    requires Slot(level, numBands, c) == Slot(level, numBands, d)
    ensures c == d
  {
    SlotDecompose(level, numBands, c);
    SlotDecompose(level, numBands, d);
  }

  /** With one band per page, the slots of a level fill its `pages` slots:
      slot `offset + pages` is where the next level begins. */
  lemma SlotWithinLevel(level: Level, heightInPages: nat, numBands: nat, c: Coord)
    requires c.b < numBands && c.x < level.widthInPages && c.y < heightInPages
    ensures level.offset <= Slot(level, numBands, c) < level.offset + level.widthInPages * heightInPages * numBands
  {
    SlotParts(level, numBands, c);
    var p := c.y * level.widthInPages + c.x;
    assert p < level.widthInPages * heightInPages by {
      assert p < c.y * level.widthInPages + level.widthInPages == (c.y + 1) * level.widthInPages;
      MulMono(c.y + 1, heightInPages, level.widthInPages);
    }
    assert p * numBands + c.b < (p + 1) * numBands;
    MulMono(p + 1, level.widthInPages * heightInPages, numBands);
  }

  lemma MulMono(a: nat, b: nat, m: nat)
    requires a <= b
    ensures a * m <= b * m
  {
  }

  // ---- Locating a tile ---------------------------------------------------------

  /** An index record with both fields: one that is not comes only from an
      index whose size is not a multiple of 16 (see IndexStore.TruncatedRecord). */
  predicate Complete(rec: Record) {
    rec.offset.Some? && rec.length.Some?
  }

  /** The tile object made for one coordinate: the index record at its slot
      gives `start` and `length`, and `end = start + length - 1` is the last
      byte, inclusive as in the byte-range-spec of section 2.1 of RFC 7233. */
  function Locate(meta: Meta, idx: seq<Record>, c: Coord): (r: Result<TileRecord, ReadError>)
    ensures r.Ok? ==> r.value.coord == c && r.value.data == None && r.value.image == None
    ensures r.Ok? ==> r.value.end - r.value.start + 1 == r.value.length
    ensures r.Ok? ==> (LevelOf(meta, c.l).Ok?
      && r.value.slot == Slot(LevelOf(meta, c.l).value, meta.numBands, c)
      && r.value.slot < |idx|
      && idx[r.value.slot] == Record(Some(r.value.start), Some(r.value.length)))
    ensures LevelOf(meta, c.l).Err? ==> r == Err(MissingOverview(c.l))
    ensures LevelOf(meta, c.l).Ok? && Slot(LevelOf(meta, c.l).value, meta.numBands, c) >= |idx| ==>
      r == Err(MissingIndexEntry(Slot(LevelOf(meta, c.l).value, meta.numBands, c)))
    ensures (LevelOf(meta, c.l).Ok? && Slot(LevelOf(meta, c.l).value, meta.numBands, c) < |idx|
             && !Complete(idx[Slot(LevelOf(meta, c.l).value, meta.numBands, c)])) ==>
      r == Err(IncompleteIndexEntry(Slot(LevelOf(meta, c.l).value, meta.numBands, c)))
  {
    var level := LevelOf(meta, c.l);
    if level.Err? then Err(level.error)
    else
      var i := Slot(level.value, meta.numBands, c);
      if i >= |idx| then Err(MissingIndexEntry(i))
      else if !Complete(idx[i]) then Err(IncompleteIndexEntry(i))
      else
        var start, length := idx[i].offset.value, idx[i].length.value;
        Ok(TileRecord(c, i, start, start + length - 1, length, None, None))
  }

  /** `coords.map(...)`: the first coordinate that cannot be located fails the request. */
  function LocateAll(meta: Meta, idx: seq<Record>, coords: seq<Coord>): (r: Result<seq<TileRecord>, ReadError>)
    ensures r.Ok? ==> |r.value| == |coords|
    ensures r.Ok? <==> forall k :: 0 <= k < |coords| ==> Locate(meta, idx, coords[k]).Ok?
    ensures r.Ok? ==> forall k :: 0 <= k < |coords| ==> r.value[k] == Locate(meta, idx, coords[k]).value
  {
    if coords == [] then Ok([])
    else
      var p := coords[..|coords| - 1];
      var init := LocateAll(meta, idx, p);
      var last := Locate(meta, idx, coords[|coords| - 1]);
      if init.Err? then
        assert !Locate(meta, idx, p[FailingIndex(meta, idx, p)]).Ok?;
        Err(init.error)
      else if last.Err? then Err(last.error)
      else Ok(init.value + [last.value])
  }

  /** The index of a coordinate that cannot be located, when there is one. */
  ghost function FailingIndex(meta: Meta, idx: seq<Record>, coords: seq<Coord>): (k: nat)
    requires exists k :: 0 <= k < |coords| && !Locate(meta, idx, coords[k]).Ok?
    ensures k < |coords| && !Locate(meta, idx, coords[k]).Ok?
  {
    var k :| 0 <= k < |coords| && !Locate(meta, idx, coords[k]).Ok?; k
  }

  // ---- Cutting a buffer into tiles ---------------------------------------------

  /** Total length of a run of tiles. */
  function SumLengths(ts: seq<TileRecord>): nat {
    if ts == [] then 0 else SumLengths(ts[..|ts| - 1]) + ts[|ts| - 1].length
  }

  /** `objs.slice(0, i).reduce((total, tile) => total + tile.length, 0)`:
      where member `i` begins in a buffer holding the members back to back. */
  function OffsetOf(ts: seq<TileRecord>, i: nat): nat
    requires i <= |ts|
  {
    SumLengths(ts[..i])
  }

  /** Member `i`'s part of such a buffer: `buffer.slice(offset, offset + length)`. */
  function MemberSlice(buffer: Bytes, ts: seq<TileRecord>, i: nat): Bytes
    requires i < |ts|
  {
    Slice(buffer, OffsetOf(ts, i), OffsetOf(ts, i) + ts[i].length)
  }

  lemma OffsetNext(ts: seq<TileRecord>, i: nat)
    requires i < |ts|
    ensures OffsetOf(ts, i + 1) == OffsetOf(ts, i) + ts[i].length
  {
    assert ts[..i + 1][..i] == ts[..i];
  }

  /** The members' parts follow each other without gap or overlap, from 0 to
      the total length. */
  lemma SlicesTile(ts: seq<TileRecord>)
    ensures OffsetOf(ts, 0) == 0
    ensures forall i :: 0 <= i < |ts| ==> OffsetOf(ts, i + 1) == OffsetOf(ts, i) + ts[i].length
    ensures OffsetOf(ts, |ts|) == SumLengths(ts)
  {
    assert ts[..0] == [];
    assert ts[..|ts|] == ts;
    forall i | 0 <= i < |ts| ensures OffsetOf(ts, i + 1) == OffsetOf(ts, i) + ts[i].length {
      OffsetNext(ts, i);
    }
  }

  lemma {:induction false} OffsetMono(ts: seq<TileRecord>, i: nat, j: nat)
    requires i <= j <= |ts|
    ensures OffsetOf(ts, i) <= OffsetOf(ts, j)
    decreases j - i
  {
    if i < j {
      OffsetNext(ts, i);
      OffsetMono(ts, i + 1, j);
    }
  }

  /** The bytes a server returns for one tile's range, from a data file. */
  function TileBytes(file: Bytes, t: TileRecord): Bytes {
    Slice(file, t.start, t.start + t.length)
  }

  /** The bytes of the ranges of `ts`, back to back: what the slicing of a
      multipart response expects to receive. */
  function ConcatRanges(file: Bytes, ts: seq<TileRecord>): Bytes {
    if ts == [] then [] else ConcatRanges(file, ts[..|ts| - 1]) + TileBytes(file, ts[|ts| - 1])
  }

  predicate InFile(file: Bytes, ts: seq<TileRecord>) {
    forall k :: 0 <= k < |ts| ==> ts[k].start + ts[k].length <= |file|
  }

  lemma {:induction false} ConcatPrefix(file: Bytes, ts: seq<TileRecord>, j: nat)
    requires InFile(file, ts) && j <= |ts|
    ensures |ConcatRanges(file, ts[..j])| == OffsetOf(ts, j)
    ensures OffsetOf(ts, j) <= |ConcatRanges(file, ts)| && ConcatRanges(file, ts)[..OffsetOf(ts, j)] == ConcatRanges(file, ts[..j])
    decreases |ts|
  {
    if ts != [] {
      var p := ts[..|ts| - 1];
      assert InFile(file, p) by {
        forall k | 0 <= k < |p| ensures p[k].start + p[k].length <= |file| {
          assert p[k] == ts[k];
        }
      }
      var last := ts[|ts| - 1];
      assert |TileBytes(file, last)| == last.length;
      if j == |ts| {
        assert ts[..j] == ts;
        ConcatPrefix(file, p, |p|);
        assert p[..|p|] == p;
        assert p == ts[..|ts| - 1];
      } else {
        ConcatPrefix(file, p, j);
        ConcatPrefix(file, p, |p|);
        assert p[..|p|] == p;
        assert p[..j] == ts[..j];
        OffsetMono(ts, j, |p|);
        assert OffsetOf(p, j) == OffsetOf(ts, j);
        assert OffsetOf(p, |p|) == SumLengths(p);
      }
    } else {
      assert ts[..j] == [];
    }
  }

  /** Multipart mode: when the response holds the requested ranges back to
      back, each tile's part is exactly its own bytes of the data file. */
  lemma MultipartMemberBytes(file: Bytes, ts: seq<TileRecord>, i: nat)
    requires InFile(file, ts) && i < |ts|
    ensures MemberSlice(ConcatRanges(file, ts), ts, i) == TileBytes(file, ts[i])
  {
    var all := ConcatRanges(file, ts);
    ConcatPrefix(file, ts, i);
    ConcatPrefix(file, ts, i + 1);
    OffsetNext(ts, i);
    assert ts[..i + 1][..i] == ts[..i];
    var pre := ConcatRanges(file, ts[..i + 1]);
    assert pre == ConcatRanges(file, ts[..i]) + TileBytes(file, ts[i]);
    assert |TileBytes(file, ts[i])| == ts[i].length;
    var a, b := OffsetOf(ts, i), OffsetOf(ts, i + 1);
    OffsetMono(ts, i + 1, |ts|);
    assert |all| == SumLengths(ts) by {
      ConcatPrefix(file, ts, |ts|);
      assert ts[..|ts|] == ts;
    }
    assert OffsetOf(ts, |ts|) == SumLengths(ts) by {
      assert ts[..|ts|] == ts;
    }
    assert b <= |all|;
    assert all[a..b] == all[..b][a..b] == pre[a..b];
  }

  /** Members of a run are byte-adjacent and each spans its length. */
  ghost predicate Contiguous(objs: seq<TileRecord>) {
    && (forall k :: 0 <= k < |objs| ==> objs[k].end == objs[k].start + objs[k].length - 1)
    && (forall k :: 0 < k < |objs| ==> objs[k].start == objs[k - 1].end + 1)
  }

  lemma {:induction false} OffsetInRun(objs: seq<TileRecord>, i: nat)
    requires Contiguous(objs) && 0 < i <= |objs|
    ensures objs[0].start + OffsetOf(objs, i) == objs[i - 1].end + 1
  {
    OffsetNext(objs, i - 1);
    if i == 1 {
      assert objs[..0] == [];
    } else {
      OffsetInRun(objs, i - 1);
    }
  }

  /** `fetchRange([start, end])`: the server's answer to `Range: bytes=start-end`. */
  function FetchRange(file: Bytes, start: nat, end: int): Bytes
    requires end >= -1
  {
    Slice(file, start, (end + 1) as nat)
  }

  /** Member `i` begins `OffsetOf(objs, i)` bytes into the run and ends within it. */
  lemma RunOffsets(objs: seq<TileRecord>, i: nat)
    requires Contiguous(objs) && i < |objs|
    ensures objs[0].start + OffsetOf(objs, i) == objs[i].start
    ensures objs[i].start + objs[i].length <= objs[|objs| - 1].end + 1
  {
    var n := |objs|;
    OffsetInRun(objs, n);
    OffsetMono(objs, i + 1, n);
    OffsetNext(objs, i);
    if i > 0 {
      OffsetInRun(objs, i);
    } else {
      assert objs[..0] == [];
    }
  }

  /** Cluster mode: slicing a run's buffer at the cumulative lengths of its
      members gives each member exactly its own bytes of the data file. */
  lemma ClusterMemberBytes(file: Bytes, run: Clustering.Run<TileRecord>, i: nat)
    requires Clustering.RunOk(run, TileStart, TileEnd) && Contiguous(run.objs)
    requires i < |run.objs|
    ensures run.end >= -1
    ensures MemberSlice(FetchRange(file, run.start as nat, run.end), run.objs, i) == TileBytes(file, run.objs[i])
  {
    var objs := run.objs;
    RunOffsets(objs, i);
    var a, off, len := objs[0].start, OffsetOf(objs, i), objs[i].length;
    assert run.end == objs[|objs| - 1].end;
    SliceOfSlice(file, a, (run.end + 1) as nat, off, off + len);
  }

  /** The sample test index: the first full-resolution tile of band 2 at
      row 1, column 3 of 13 columns in a 4-band raster lives at slot
      1*13*4 + 3*4 + 2 = 66. */
  lemma SampleSlot()
    ensures Slot(Level(0, 13), 4, Coord(2, 0, 3, 1)) == 66
  {
  }
}
