/** The `MRF` class of src/MRF.js: a reader over a parsed `.mrf` description,
    a parsed index and a data source, holding a tile cache that `getTiles`
    reads and fills. */
module Reader {
  import opened Common
  import opened Tiles
  import opened Fetch
  import Sorting
  import IndexStore
  import MultiBand
  import Numbers
  import Sampling

  class Mrf {
    const meta: Meta
    const idx: seq<IndexStore.Record>
    const source: DataSource
    const opts: Options
    var tileCache: map<string, Bytes>

    /** `new MRF({ ... })` with the description and the index already parsed;
        a shared cache may be passed in, otherwise the cache starts empty. */
    constructor(meta: Meta, idx: seq<IndexStore.Record>, source: DataSource, opts: Options, sharedCache: Option<map<string, Bytes>>)
      ensures this.meta == meta && this.idx == idx && this.source == source && this.opts == opts
      ensures tileCache == if sharedCache.Some? then sharedCache.value else map[]
    {
      this.meta := meta;
      this.idx := idx;
      this.source := source;
      this.opts := opts;
      tileCache := if sharedCache.Some? then sharedCache.value else map[];
    }

    /** The `reduce` over the tiles without data, with the cache on: each
        gets its part of the response, and the cache the same bytes. */
    method FillFromMultipart(tiles: array<TileRecord>, response: Bytes, ps: seq<nat>)
      requires ValidPositions(tiles[..], ps)
      modifies this, tiles
      ensures (tiles[..], tileCache) == Fill(old(tiles[..]), old(tileCache), Parts(response, Without(old(tiles[..]), ps)), ps, |ps|)
    {
      ghost var ts := tiles[..];
      ghost var cache0 := tileCache;
      ghost var w := Without(ts, ps);
      ghost var parts := Parts(response, w);
      var offset := 0;
      for k := 0 to |ps|
        invariant (tiles[..], tileCache) == Fill(ts, cache0, parts, ps, k)
        invariant offset == OffsetOf(w, k)
      {
        var p := ps[k];
        FillKeepsFields(ts, cache0, parts, ps, k);
        OffsetNext(w, k);
        var byteLength := tiles[p].length;
        var key := CacheKey(tiles[p].coord);
        var bytes := Slice(response, offset, offset + byteLength);
        assert bytes == parts[k];
        tileCache := tileCache[key := bytes];
        tiles[p] := tiles[p].(data := Some(bytes));
        offset := offset + byteLength;
      }
    }

    /** Multipart mode: the cache lookup, one request for the tiles still
        without data, and the wait for every tile's data. */
    method FetchMultipart(tiles: array<TileRecord>) returns (r: Result<(), ReadError>)
      modifies this, tiles
      ensures (if r.Ok? then Ok(tiles[..]) else Err(r.error), tileCache) == MultipartFetched(source, opts.cacheTiles, old(tileCache), old(tiles[..]))
    {
      if !(source.DataUrl? && source.acceptsRanges) {
        return Err(RangeRequestsUnsupported);
      }
      ghost var sorted := tiles[..];
      if opts.cacheTiles {
        LookUpCache(tiles, tileCache);
      }
      ghost var cached := tiles[..];
      var ps := Missing(tiles[..]);
      if |ps| > 0 && opts.cacheTiles {
        var response := ConcatRanges(source.file, Without(tiles[..], ps));
        FillFromMultipart(tiles, response, ps);
      }
      var awaited := AwaitData(tiles[..]);
      r := if awaited.Ok? then Ok(()) else Err(awaited.error);
    }

    /** Cluster mode: `cluster(tiles)`, then one range request per run. */
    method FetchClusters(tiles: array<TileRecord>) returns (r: Result<(), ReadError>)
      requires Spans(tiles[..])
      modifies tiles
      ensures (if r.Ok? then Ok(tiles[..]) else Err(r.error)) == ClusterFetched(source, old(tiles[..]))
    {
      if source.DataBuffer? || !source.acceptsRanges {
        if tiles.Length == 0 {
          return Err(NothingToCluster);
        }
        return Err(if source.DataBuffer? then NoDataUrl else RangeRequestsUnsupported);
      }
      ghost var snap := tiles[..];
      r := FillFromClusters(tiles, source.file);
      if r.Ok? {
        assert tiles[..] == seq(|snap|, p requires 0 <= p < |snap| => WithOwnBytes(source.file, snap[p]));
      }
    }

    /** `getTiles({ coords })`: locate the tiles, sort them by where they
        start, fetch them, and decode them when the data is LERC. */
    method GetTiles(coords: seq<Coord>, decode: Bytes -> Option<Decoded>) returns (r: Result<seq<TileRecord>, ReadError>)
      modifies this
      ensures (r, tileCache) == GetTilesSpec(meta, idx, source, opts, old(tileCache), coords, decode)
    {
      var located := LocateAll(meta, idx, coords);
      if located.Err? {
        return Err(located.error);
      }
      var tiles := new TileRecord[|located.value|](i requires 0 <= i < |located.value| => located.value[i]);
      assert tiles[..] == located.value;
      Sorting.SortInPlace(tiles, TileStart);
      ghost var sorted := tiles[..];
      if opts.multipart {
        var fetched := FetchMultipart(tiles);
        if fetched.Err? {
          return Err(fetched.error);
        }
      } else {
        assert Spans(located.value);
        SortedSpans(located.value);
        var fetched := FetchClusters(tiles);
        if fetched.Err? {
          return Err(fetched.error);
        }
      }
      if meta.compression == Some("LERC") {
        var decoded := DecodeTiles(tiles, meta, decode, opts.strict);
        if decoded.Err? {
          return Err(decoded.error);
        }
      }
      r := Ok(tiles[..]);
    }

    /** `getMultiBandTiles({ coords, bands })`: an empty list of places is
        refused; otherwise one tile per place and band is requested and the
        tiles are grouped back by place. */
    method GetMultiBandTiles(places: seq<MultiBand.Place>, bands: Option<seq<nat>>, decode: Bytes -> Option<Decoded>)
      returns (r: Result<seq<MultiBand.MultiBandTile>, ReadError>)
      modifies this
      ensures (r, tileCache) == MultiBand.GetMultiBandTilesSpec(meta, idx, source, opts, old(tileCache), places, bands, decode)
    {
      if places == [] {
        return Err(EmptyCoords);
      }
      var coords := MultiBand.ExpandBands(places, MultiBand.RequestedBands(meta, bands));
      var tiles := GetTiles(coords, decode);
      if tiles.Err? {
        return Err(tiles.error);
      }
      var out := MultiBand.Assemble(meta.numBands, tiles.value);
      r := Ok(out);
    }
 
    /** `getValues({ ... })`: choose the level, fetch the multi-band tiles
        the trimmed area touches at that level, and sample them into a band
        by row by column output. */
    method GetValues(req: Sampling.ValuesRequest, decode: Bytes -> Option<Decoded>)
      returns (r: Result<array3<Sampling.Cell>, ReadError>)
      requires meta.pageWidth > 0 && meta.pageHeight > 0
      modifies this
      ensures r.Ok? ==> fresh(r.value)
      ensures Sampling.ValuesPlan(meta, req).Err? ==>
        r == Err(Sampling.ValuesPlan(meta, req).error) && tileCache == old(tileCache)
      ensures Sampling.ValuesPlan(meta, req).Ok? ==>
        var plan := Sampling.ValuesPlan(meta, req).value;
        var got := MultiBand.GetMultiBandTilesSpec(meta, idx, source, opts, old(tileCache), Sampling.PlanCoords(plan), None, decode);
        tileCache == got.1
        && (got.0.Err? ==> r == Err(got.0.error))
        && (got.0.Ok? && !Sampling.Ready(plan) ==> r == Err(NegativeSize))
        && (got.0.Ok? && Sampling.Ready(plan) ==> Sampling.Sampled(plan, Sampling.IndexOf(got.0.value), r))
    {
      if meta.overviews.None? {
        return Err(NoOverviews);
      }
      var rows := Sampling.RequestedHeight(meta, req);
      var cols := Sampling.RequestedWidth(meta, req);
      var sh := Numbers.Div(Sampling.RealHeight(meta, req) as real, rows as real);
      var sw := Numbers.Div(Sampling.RealWidth(meta, req) as real, cols as real);
      var sel := Sampling.SelectLevel(meta, meta.overviews.value, sh, sw);
      var planned := Sampling.PlanAt(meta, req, sel);
      if planned.Err? {
        return Err(planned.error);
      }
      var plan := planned.value;
      var coords := Sampling.WindowCoords(plan.level, plan.minX, plan.maxX, plan.minY, plan.maxY);
      var tiles := GetMultiBandTiles(coords, None, decode);
      if tiles.Err? {
        return Err(tiles.error);
      }
      var index := Sampling.BuildIndex(tiles.value);
      if plan.rows < 0 || plan.cols < 0 {
        return Err(NegativeSize);
      }
      r := Sampling.Sample(plan, index);
    }
  }
}
