/** `getMultiBandTiles` of src/MRF.js: one request per band for every
    band-unaware coordinate, then the single-band tiles grouped back by
    `{ l, x, y }` and their pixels gathered into one array per group. */
module MultiBand {
  import opened Common
  import opened Text
  import opened Tiles
  import opened Fetch
  import IndexStore

  /** A band-unaware tile coordinate `{ l, x, y }`. */
  datatype Place = Place(l: nat, x: nat, y: nat)

  /** A multi-band tile: its place, `pixels[b]` for every band that was
      decoded (a hole is `None`), and the size of the group's first tile,
      which is `undefined` when that tile was not decoded. */
  datatype MultiBandTile = MultiBandTile(
    l: nat, x: nat, y: nat, pixels: seq<Option<seq<real>>>, height: Option<nat>, width: Option<nat>)

  function PlaceOfTile(m: MultiBandTile): Place { Place(m.l, m.x, m.y) }

  // ---- The requested coordinates -------------------------------------------------

  /** `range(n)`: 0, 1, ..., n - 1. */
  function Range(n: nat): (r: seq<nat>)
    ensures |r| == n && forall i :: 0 <= i < n ==> r[i] == i
  {
    seq(n, i => i)
  }

  /** `if (!bands) bands = range(meta.numBands)`: an absent list means every
      band; an empty list is kept, as an array is truthy. */
  function RequestedBands(meta: Meta, bands: Option<seq<nat>>): seq<nat> {
    if bands.Some? then bands.value else Range(meta.numBands)
  }

  /** `{ ...coord, b: band }`. */
  function WithBand(p: Place, b: nat): Coord { Coord(b, p.l, p.x, p.y) }

  function Row(p: Place, bands: seq<nat>): (r: seq<Coord>)
    ensures |r| == |bands| && forall j :: 0 <= j < |bands| ==> r[j] == WithBand(p, bands[j])
  {
    seq(|bands|, j requires 0 <= j < |bands| => WithBand(p, bands[j]))
  }

  /** The list the nested `forEach` builds: for each place in order, one
      coordinate per band in the order of `bands`. */
  function Expand(places: seq<Place>, bands: seq<nat>): seq<Coord> {
    if places == [] then [] else Expand(places[..|places| - 1], bands) + Row(places[|places| - 1], bands)
  }

  /** The expansion asks for exactly the requested bands of the requested places. */
  lemma {:induction false} ExpandHas(places: seq<Place>, bands: seq<nat>, c: Coord)
    ensures c in Expand(places, bands) <==> Place(c.l, c.x, c.y) in places && c.b in bands
  {
    if places != [] {
      var init := places[..|places| - 1];
      ExpandHas(init, bands, c);
      assert places == init + [places[|places| - 1]];
      if Place(c.l, c.x, c.y) == places[|places| - 1] && c.b in bands {
        var j :| 0 <= j < |bands| && bands[j] == c.b;
        assert Row(places[|places| - 1], bands)[j] == c;
      }
    }
  }

  lemma {:induction false} ExpandLength(places: seq<Place>, bands: seq<nat>)
    ensures |Expand(places, bands)| == |places| * |bands|
  {
    if places != [] {
      ExpandLength(places[..|places| - 1], bands);
      assert (|places| - 1) * |bands| + |bands| == |places| * |bands|;
    }
  }

  lemma MulBelow(k: nat, n: nat, m: nat, j: nat)
    requires k < n && j < m
    ensures k * m + j < n * m
  {
    if k < n - 1 {
      MulBelow(k, n - 1, m, j);
    }
    assert n * m == (n - 1) * m + m;
  }

  /** Coordinate `k * |bands| + j` is place `k` with band `j`. */
  lemma {:induction false} ExpandAt(places: seq<Place>, bands: seq<nat>, k: nat, j: nat)
    requires k < |places| && j < |bands|
    ensures k * |bands| + j < |Expand(places, bands)|
    ensures Expand(places, bands)[k * |bands| + j] == WithBand(places[k], bands[j])
  {
    var n := |places|;
    var init := places[..n - 1];
    ExpandLength(init, bands);
    assert places[k] == if k < n - 1 then init[k] else places[n - 1];
    if k < n - 1 {
      ExpandAt(init, bands, k, j);
      MulBelow(k, n - 1, |bands|, j);
    }
  }

  /** The two `forEach` loops pushing onto `coordsXYB`. */
  method ExpandBands(places: seq<Place>, bands: seq<nat>) returns (r: seq<Coord>)
    ensures r == Expand(places, bands)
  {
    r := [];
    for k := 0 to |places|
      invariant r == Expand(places[..k], bands)
    {
      assert places[..k + 1][..k] == places[..k];
      ghost var before := r;
      for j := 0 to |bands|
        invariant r == before + Row(places[k], bands[..j])
      {
        assert Row(places[k], bands[..j + 1]) == Row(places[k], bands[..j]) + [WithBand(places[k], bands[j])];
        r := r + [WithBand(places[k], bands[j])];
      }
      assert bands[..|bands|] == bands;
    }
    assert places[..|places|] == places;
  }

  // ---- The group keys ----------------------------------------------------------

  function PlaceOf(t: TileRecord): Place { Place(t.coord.l, t.coord.x, t.coord.y) }

  /** The key `groupBy` files a tile under, `String([t.l, t.x, t.y])`: the
      three numbers joined by commas. */
  function GroupKey(p: Place): string {
    NatToString(p.l) + "," + NatToString(p.x) + "," + NatToString(p.y)
  }

  function KeyOf(t: TileRecord): string { GroupKey(PlaceOf(t)) }

  /** `lxy.split(",").map(n => Number.parseInt(n))`, for keys made of three
      non-empty runs of digits (the only keys the grouping produces). */
  function ParseGroupKey(s: string): Option<Place> {
    var parts := Split(s, ',');
    if |parts| == 3 && parts[0] != [] && parts[1] != [] && parts[2] != []
       && AllDigits(parts[0]) && AllDigits(parts[1]) && AllDigits(parts[2])
    then Some(Place(DigitsValue(parts[0]), DigitsValue(parts[1]), DigitsValue(parts[2])))
    else None
  }

  lemma NoCommaInDigits(s: string)
    requires AllDigits(s)
    ensures ',' !in s
  {
    assert forall i :: 0 <= i < |s| ==> s[i] != ',';
  }

  /** Parsing a group key gives back its place. */
  lemma ParseGroupKeyInverse(p: Place)
    ensures ParseGroupKey(GroupKey(p)) == Some(p)
  {
    var pieces := [NatToString(p.l), NatToString(p.x), NatToString(p.y)];
    assert Join(pieces[2..], ',') == pieces[2];
    assert Join(pieces[1..], ',') == pieces[1] + [','] + pieces[2];
    assert GroupKey(p) == Join(pieces, ',');
    NoCommaInDigits(pieces[0]);
    NoCommaInDigits(pieces[1]);
    NoCommaInDigits(pieces[2]);
    SplitJoin(pieces, ',');
    DigitsValueOfNatToString(p.l);
    DigitsValueOfNatToString(p.x);
    DigitsValueOfNatToString(p.y);
  }

  /** Different places are filed under different keys. */
  lemma GroupKeyInjective(p: Place, q: Place)
    requires GroupKey(p) == GroupKey(q)
    ensures p == q
  {
    ParseGroupKeyInverse(p);
    ParseGroupKeyInverse(q);
  }

  // ---- groupBy -------------------------------------------------------------------

  /** The keys of `groupBy(tiles, ...)` in the order `Object.entries` lists
      them, which is the order in which they first appear (none of them is
      an array index, as each holds a comma). */
  function GroupKeys(ts: seq<TileRecord>): (keys: seq<string>)
    ensures forall i, j :: 0 <= i < j < |keys| ==> keys[i] != keys[j]
    ensures forall k :: 0 <= k < |ts| ==> KeyOf(ts[k]) in keys
  {
    if ts == [] then []
    else
      var init := ts[..|ts| - 1];
      var keys := GroupKeys(init);
      assert forall k :: 0 <= k < |init| ==> init[k] == ts[k];
      var key := KeyOf(ts[|ts| - 1]);
      if key in keys then keys else keys + [key]
  }

  /** Every key is the key of some tile. */
  lemma {:induction false} GroupKeyFrom(ts: seq<TileRecord>, key: string) returns (k: nat)
    requires key in GroupKeys(ts)
    ensures k < |ts| && KeyOf(ts[k]) == key
  {
    var init := ts[..|ts| - 1];
    if key in GroupKeys(init) {
      k := GroupKeyFrom(init, key);
    } else {
      k := |ts| - 1;
    }
  }

  /** `groups[key]`: the tiles filed under `key`, in the order they came. */
  function Group(ts: seq<TileRecord>, key: string): (g: seq<TileRecord>)
    ensures forall t :: t in g <==> t in ts && KeyOf(t) == key
  {
    if ts == [] then []
    else
      var init := ts[..|ts| - 1];
      assert ts == init + [ts[|ts| - 1]];
      Group(init, key) + if KeyOf(ts[|ts| - 1]) == key then [ts[|ts| - 1]] else []
  }

  /** A group's first tile is the first tile of the request with that key. */
  lemma {:induction false} GroupFirst(ts: seq<TileRecord>, key: string, k: nat)
    requires k < |ts| && KeyOf(ts[k]) == key
    requires forall i :: 0 <= i < k ==> KeyOf(ts[i]) != key
    ensures Group(ts, key) != [] && Group(ts, key)[0] == ts[k]
  {
    var init := ts[..|ts| - 1];
    if k < |ts| - 1 {
      GroupFirst(init, key, k);
    } else {
      GroupEmpty(init, key);
    }
  }

  lemma {:induction false} GroupEmpty(ts: seq<TileRecord>, key: string)
    requires forall i :: 0 <= i < |ts| ==> KeyOf(ts[i]) != key
    ensures Group(ts, key) == []
  {
    if ts != [] {
      GroupEmpty(ts[..|ts| - 1], key);
    }
  }

  // ---- The pixels of a group -----------------------------------------------------

  /** `pixels[b] = v` on a JavaScript array: past the end the array grows,
      leaving holes. */
  function Store(a: seq<Option<seq<real>>>, b: nat, v: seq<real>): (r: seq<Option<seq<real>>>)
    ensures |r| == if b < |a| then |a| else b + 1
    ensures r[b] == Some(v)
    ensures forall j :: 0 <= j < |r| && j != b ==> r[j] == if j < |a| then a[j] else None
  {
    if b < |a| then a[b := Some(v)] else a + seq(b - |a|, _ => None) + [Some(v)]
  }

  /** A tile that sets `pixels[b]`: one of band `b` that was decoded. */
  predicate Writes(t: TileRecord, b: nat) {
    t.image.Some? && t.coord.b == b
  }

  /** `new Array(meta.numBands)` after `group.forEach(...)`. */
  function Pixels(numBands: nat, group: seq<TileRecord>): (p: seq<Option<seq<real>>>)
    ensures |p| >= numBands
  {
    if group == [] then seq(numBands, _ => None)
    else
      var p := Pixels(numBands, group[..|group| - 1]);
      var g := group[|group| - 1];
      if g.image.Some? then Store(p, g.coord.b, g.image.value.pixels) else p
  }

  /** Band `b` has pixels exactly when some tile of the group writes it, and
      then they are those of the last tile that does. */
  lemma {:induction false} PixelsLastWriter(numBands: nat, group: seq<TileRecord>, b: nat)
    ensures var p := Pixels(numBands, group);
      (b < |p| && p[b].Some?) <==> exists k :: 0 <= k < |group| && Writes(group[k], b)
    ensures var p := Pixels(numBands, group);
      b < |p| && p[b].Some? ==> exists k :: (0 <= k < |group| && Writes(group[k], b)
        && p[b].value == group[k].image.value.pixels
        && forall i :: k < i < |group| ==> !Writes(group[i], b))
  {
    if group != [] {
      var init := group[..|group| - 1];
      var last := |group| - 1;
      PixelsLastWriter(numBands, init, b);
      assert forall k :: 0 <= k < |init| ==> init[k] == group[k];
      if Writes(group[last], b) {
        assert Pixels(numBands, group)[b].value == group[last].image.value.pixels;
      }
    }
  }

  // ---- The multi-band tiles ------------------------------------------------------

  /** The tile pushed for one entry of the groups. */
  function MultiBandOf(numBands: nat, ts: seq<TileRecord>, key: string): (m: MultiBandTile)
    requires key in GroupKeys(ts)
    ensures GroupKey(PlaceOfTile(m)) == key
    ensures Group(ts, key) != [] && PlaceOfTile(m) == PlaceOf(Group(ts, key)[0])
  {
    var g := Group(ts, key);
    assert g != [] by {
      var k := GroupKeyFrom(ts, key);
      assert ts[k] in g;
    }
    assert g[0] in g;
    ParseGroupKeyInverse(PlaceOf(g[0]));
    var p := ParseGroupKey(key).value;
    var first := g[0].image;
    MultiBandTile(p.l, p.x, p.y, Pixels(numBands, g),
                  if first.Some? then Some(first.value.height) else None,
                  if first.Some? then Some(first.value.width) else None)
  }

  /** The array `tilesXY`: one multi-band tile per group, in key order. */
  function MultiBandTiles(numBands: nat, ts: seq<TileRecord>): (r: seq<MultiBandTile>)
    ensures |r| == |GroupKeys(ts)|
  {
    var keys := GroupKeys(ts);
    seq(|keys|, i requires 0 <= i < |keys| => MultiBandOf(numBands, ts, keys[i]))
  }

  /** The multi-band tiles are at distinct places, and those places are
      exactly the places of the single-band tiles. */
  lemma MultiBandPlaces(numBands: nat, ts: seq<TileRecord>)
    ensures var r := MultiBandTiles(numBands, ts);
      forall i, j :: 0 <= i < j < |r| ==> PlaceOfTile(r[i]) != PlaceOfTile(r[j])
    ensures var r := MultiBandTiles(numBands, ts);
      forall k :: 0 <= k < |ts| ==> exists i :: 0 <= i < |r| && PlaceOfTile(r[i]) == PlaceOf(ts[k])
    ensures var r := MultiBandTiles(numBands, ts);
      forall i :: 0 <= i < |r| ==> exists k :: 0 <= k < |ts| && PlaceOfTile(r[i]) == PlaceOf(ts[k])
  {
    MultiBandDistinct(numBands, ts);
    var r := MultiBandTiles(numBands, ts);
    forall k | 0 <= k < |ts| ensures exists i :: 0 <= i < |r| && PlaceOfTile(r[i]) == PlaceOf(ts[k]) {
      var i := TilePlaced(numBands, ts, k);
    }
    forall i | 0 <= i < |r| ensures exists k :: 0 <= k < |ts| && PlaceOfTile(r[i]) == PlaceOf(ts[k]) {
      var k := PlaceFromTile(numBands, ts, i);
    }
  }

  lemma MultiBandDistinct(numBands: nat, ts: seq<TileRecord>)
    ensures var r := MultiBandTiles(numBands, ts);
      forall i, j :: 0 <= i < j < |r| ==> PlaceOfTile(r[i]) != PlaceOfTile(r[j])
  {
  }

  lemma TilePlaced(numBands: nat, ts: seq<TileRecord>, k: nat) returns (i: nat)
    requires k < |ts|
    ensures i < |MultiBandTiles(numBands, ts)| && PlaceOfTile(MultiBandTiles(numBands, ts)[i]) == PlaceOf(ts[k])
  {
    var keys := GroupKeys(ts);
    i :| 0 <= i < |keys| && keys[i] == KeyOf(ts[k]);
    GroupKeyInjective(PlaceOfTile(MultiBandTiles(numBands, ts)[i]), PlaceOf(ts[k]));
  }

  lemma PlaceFromTile(numBands: nat, ts: seq<TileRecord>, i: nat) returns (k: nat)
    requires i < |MultiBandTiles(numBands, ts)|
    ensures k < |ts| && PlaceOfTile(MultiBandTiles(numBands, ts)[i]) == PlaceOf(ts[k])
  {
    k := GroupKeyFrom(ts, GroupKeys(ts)[i]);
    GroupKeyInjective(PlaceOfTile(MultiBandTiles(numBands, ts)[i]), PlaceOf(ts[k]));
  }

  /** Each multi-band tile holds, for each band, the pixels of the last
      decoded tile of that band at its place, and nothing for a band no
      decoded tile at that place has. */
  lemma MultiBandPixels(numBands: nat, ts: seq<TileRecord>, i: nat, b: nat)
    requires i < |MultiBandTiles(numBands, ts)|
    ensures var m := MultiBandTiles(numBands, ts)[i];
      (b < |m.pixels| && m.pixels[b].Some?)
        <==> exists k :: 0 <= k < |ts| && PlaceOf(ts[k]) == PlaceOfTile(m) && Writes(ts[k], b)
  {
    var m := MultiBandTiles(numBands, ts)[i];
    var key := GroupKeys(ts)[i];
    var g := Group(ts, key);
    PixelsLastWriter(numBands, g, b);
    if exists k :: 0 <= k < |ts| && PlaceOf(ts[k]) == PlaceOfTile(m) && Writes(ts[k], b) {
      var k :| 0 <= k < |ts| && PlaceOf(ts[k]) == PlaceOfTile(m) && Writes(ts[k], b);
      assert ts[k] in g;
      var j :| 0 <= j < |g| && g[j] == ts[k];
    }
    if b < |m.pixels| && m.pixels[b].Some? {
      var j :| 0 <= j < |g| && Writes(g[j], b);
      assert g[j] in ts;
      var k :| 0 <= k < |ts| && ts[k] == g[j];
      GroupKeyInjective(PlaceOf(ts[k]), PlaceOfTile(m));
    }
  }

  /** Each multi-band tile takes its size from the first single-band tile
      at its place. */
  lemma MultiBandSize(numBands: nat, ts: seq<TileRecord>, i: nat, k: nat)
    requires i < |MultiBandTiles(numBands, ts)| && k < |ts|
    requires PlaceOf(ts[k]) == PlaceOfTile(MultiBandTiles(numBands, ts)[i])
    requires forall j :: 0 <= j < k ==> PlaceOf(ts[j]) != PlaceOf(ts[k])
    ensures var m := MultiBandTiles(numBands, ts)[i];
      m.height == (if ts[k].image.Some? then Some(ts[k].image.value.height) else None)
      && m.width == (if ts[k].image.Some? then Some(ts[k].image.value.width) else None)
  {
    var m := MultiBandTiles(numBands, ts)[i];
    var key := GroupKeys(ts)[i];
    assert KeyOf(ts[k]) == key;
    forall j | 0 <= j < k ensures KeyOf(ts[j]) != key {
      if KeyOf(ts[j]) == key {
        GroupKeyInjective(PlaceOf(ts[j]), PlaceOf(ts[k]));
      }
    }
    GroupFirst(ts, key, k);
  }

  // ---- The loops of getMultiBandTiles ---------------------------------------------

  /** `group.forEach(g => { if (g.pixels) pixels[g.b] = g.pixels })`. */
  method MergePixels(numBands: nat, group: seq<TileRecord>) returns (pixels: seq<Option<seq<real>>>)
    ensures pixels == Pixels(numBands, group)
  {
    pixels := seq(numBands, _ => None);
    for i := 0 to |group|
      invariant pixels == Pixels(numBands, group[..i])
    {
      assert group[..i + 1][..i] == group[..i];
      if group[i].image.Some? {
        pixels := Store(pixels, group[i].coord.b, group[i].image.value.pixels);
      }
    }
    assert group[..|group|] == group;
  }

  /** `for (const [lxy, group] of Object.entries(groups)) { ... tilesXY.push(...) }`. */
  method Assemble(numBands: nat, ts: seq<TileRecord>) returns (out: seq<MultiBandTile>)
    ensures out == MultiBandTiles(numBands, ts)
  {
    var keys := GroupKeys(ts);
    out := [];
    for i := 0 to |keys|
      invariant out == MultiBandTiles(numBands, ts)[..i]
    {
      var group := Group(ts, keys[i]);
      var pixels := MergePixels(numBands, group);
      var m := MultiBandOf(numBands, ts, keys[i]);
      out := out + [m.(pixels := pixels)];
    }
  }

  // ---- The whole of getMultiBandTiles ---------------------------------------------

  /** `getMultiBandTiles({ coords, bands })`, and the tile cache afterwards. */
  function GetMultiBandTilesSpec(meta: Meta, idx: seq<IndexStore.Record>, source: DataSource, opts: Options,
                                 cache: map<string, Bytes>, places: seq<Place>, bands: Option<seq<nat>>,
                                 decode: Bytes -> Option<Decoded>)
    : (Result<seq<MultiBandTile>, ReadError>, map<string, Bytes>)
  {
    if places == [] then (Err(EmptyCoords), cache)
    else
      var got := GetTilesSpec(meta, idx, source, opts, cache, Expand(places, RequestedBands(meta, bands)), decode);
      if got.0.Err? then (Err(got.0.error), got.1)
      else (Ok(MultiBandTiles(meta.numBands, got.0.value)), got.1)
  }

  /** The single-band tiles answer exactly the requested coordinates. */
  predicate Answers(ts: seq<TileRecord>, coords: seq<Coord>) {
    (forall k :: 0 <= k < |ts| ==> ts[k].coord in coords)
    && (forall c :: c in coords ==> exists k :: 0 <= k < |ts| && ts[k].coord == c)
  }

  /** Every multi-band tile of tiles answering an expansion is at a requested place. */
  lemma PlacesRequested(numBands: nat, ts: seq<TileRecord>, places: seq<Place>, bs: seq<nat>)
    requires Answers(ts, Expand(places, bs))
    ensures var r := MultiBandTiles(numBands, ts);
      forall i :: 0 <= i < |r| ==> PlaceOfTile(r[i]) in places
  {
    var r := MultiBandTiles(numBands, ts);
    forall i | 0 <= i < |r| ensures PlaceOfTile(r[i]) in places {
      var k := PlaceFromTile(numBands, ts, i);
      ExpandHas(places, bs, ts[k].coord);
    }
  }

  /** With at least one band requested, every requested place has a multi-band tile. */
  lemma PlacesReached(numBands: nat, ts: seq<TileRecord>, places: seq<Place>, bs: seq<nat>)
    requires bs != [] && Answers(ts, Expand(places, bs))
    ensures var r := MultiBandTiles(numBands, ts);
      forall p :: p in places ==> exists i :: 0 <= i < |r| && PlaceOfTile(r[i]) == p
  {
    var r := MultiBandTiles(numBands, ts);
    forall p | p in places ensures exists i :: 0 <= i < |r| && PlaceOfTile(r[i]) == p {
      ExpandHas(places, bs, WithBand(p, bs[0]));
      var k :| 0 <= k < |ts| && ts[k].coord == WithBand(p, bs[0]);
      var i := TilePlaced(numBands, ts, k);
    }
  }

  /** With at least one band requested, the multi-band tiles are at distinct
      places, and those are exactly the requested places. */
  lemma MultiBandCovers(meta: Meta, idx: seq<IndexStore.Record>, source: DataSource, opts: Options,
                        cache: map<string, Bytes>, places: seq<Place>, bands: Option<seq<nat>>,
                        decode: Bytes -> Option<Decoded>)
    requires RequestedBands(meta, bands) != []
    ensures var r := GetMultiBandTilesSpec(meta, idx, source, opts, cache, places, bands, decode).0;
      r.Ok? ==> ((forall i, j :: 0 <= i < j < |r.value| ==> PlaceOfTile(r.value[i]) != PlaceOfTile(r.value[j]))
        && (forall i :: 0 <= i < |r.value| ==> PlaceOfTile(r.value[i]) in places)
        && (forall p :: p in places ==> exists i :: 0 <= i < |r.value| && PlaceOfTile(r.value[i]) == p))
  {
    var bs := RequestedBands(meta, bands);
    var coords := Expand(places, bs);
    var got := GetTilesSpec(meta, idx, source, opts, cache, coords, decode).0;
    if places != [] && got.Ok? {
      GetTilesCoords(meta, idx, source, opts, cache, coords, decode);
      MultiBandPlaces(meta.numBands, got.value);
      PlacesRequested(meta.numBands, got.value, places, bs);
      PlacesReached(meta.numBands, got.value, places, bs);
    }
  }

  /** With no band requested there is nothing to fetch: the result is empty
      when the tiles come by multipart request, and the request fails when
      they come by clustered ranges, which have nothing to cluster. */
  lemma MultiBandNoBands(meta: Meta, idx: seq<IndexStore.Record>, source: DataSource, opts: Options,
                         cache: map<string, Bytes>, places: seq<Place>, bands: Option<seq<nat>>,
                         decode: Bytes -> Option<Decoded>)
    requires places != [] && RequestedBands(meta, bands) == []
    ensures var r := GetMultiBandTilesSpec(meta, idx, source, opts, cache, places, bands, decode).0;
      (r.Ok? ==> r.value == []) && (!opts.multipart ==> r == Err(NothingToCluster))
  {
    var bs := RequestedBands(meta, bands);
    assert Expand(places, bs) == [] by {
      if Expand(places, bs) != [] {
        ExpandHas(places, bs, Expand(places, bs)[0]);
      }
    }
    GetTilesNone(meta, idx, source, opts, cache, decode);
    assert MultiBandTiles(meta.numBands, []) == [];
  }

  /** When every single-band tile was decoded, every multi-band tile has
      the pixels of every requested band. */
  lemma BandsComplete(numBands: nat, ts: seq<TileRecord>, places: seq<Place>, bs: seq<nat>)
    requires Answers(ts, Expand(places, bs))
    requires forall k :: 0 <= k < |ts| ==> ts[k].image.Some?
    ensures var r := MultiBandTiles(numBands, ts);
      forall i, j :: 0 <= i < |r| && 0 <= j < |bs| ==> bs[j] < |r[i].pixels| && r[i].pixels[bs[j]].Some?
  {
    var r := MultiBandTiles(numBands, ts);
    forall i, j | 0 <= i < |r| && 0 <= j < |bs|
      ensures bs[j] < |r[i].pixels| && r[i].pixels[bs[j]].Some?
    {
      BandPresent(numBands, ts, places, bs, i, j);
    }
  }

  lemma BandPresent(numBands: nat, ts: seq<TileRecord>, places: seq<Place>, bs: seq<nat>, i: nat, j: nat)
    requires Answers(ts, Expand(places, bs))
    requires forall k :: 0 <= k < |ts| ==> ts[k].image.Some?
    requires i < |MultiBandTiles(numBands, ts)| && j < |bs|
    ensures var m := MultiBandTiles(numBands, ts)[i];
      bs[j] < |m.pixels| && m.pixels[bs[j]].Some?
  {
    PlacesRequested(numBands, ts, places, bs);
    var p := PlaceOfTile(MultiBandTiles(numBands, ts)[i]);
    ExpandHas(places, bs, WithBand(p, bs[j]));
    var k :| 0 <= k < |ts| && ts[k].coord == WithBand(p, bs[j]);
    assert PlaceOf(ts[k]) == p && Writes(ts[k], bs[j]);
    MultiBandPixels(numBands, ts, i, bs[j]);
  }

  /** In strict mode, a LERC request that succeeds gives every multi-band
      tile the pixels of every requested band. */
  lemma MultiBandStrictComplete(meta: Meta, idx: seq<IndexStore.Record>, source: DataSource, opts: Options,
                                cache: map<string, Bytes>, places: seq<Place>, bands: Option<seq<nat>>,
                                decode: Bytes -> Option<Decoded>)
    requires opts.strict && meta.compression == Some("LERC")
    ensures var r := GetMultiBandTilesSpec(meta, idx, source, opts, cache, places, bands, decode).0;
      var bs := RequestedBands(meta, bands);
      r.Ok? ==> forall i, j :: 0 <= i < |r.value| && 0 <= j < |bs| ==>
        bs[j] < |r.value[i].pixels| && r.value[i].pixels[bs[j]].Some?
  {
    var bs := RequestedBands(meta, bands);
    var coords := Expand(places, bs);
    var got := GetTilesSpec(meta, idx, source, opts, cache, coords, decode).0;
    if places != [] && got.Ok? {
      GetTilesCoords(meta, idx, source, opts, cache, coords, decode);
      GetTilesStrictImages(meta, idx, source, opts, cache, coords, decode);
      BandsComplete(meta.numBands, got.value, places, bs);
    }
  }
}
