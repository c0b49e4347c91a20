/** The phases of `getTiles` in src/MRF.js (lines 388-574) after the tiles
    are located: the cache lookup and the multipart fill (lines 429-488),
    the cluster-mode fill (lines 489-516), and LERC decoding with its band
    checks (lines 531-570). Each phase that updates the tiles array in place
    is a method proved against a function; GetTilesSpec composes them. */
module Fetch {
  import opened Common
  import opened Tiles
  import Sorting
  import Clustering

  // ---- Cache lookup ------------------------------------------------------------

  /** A tile whose key is in the cache takes the cached bytes. This is the
      lookup of src/MRF.js:437-447 with `this.getCacheKeyForTile`; as written
      the call has no `this.` and throws (FetchedAsWritten). */
  function CachedTile(t: TileRecord, cache: map<string, Bytes>): TileRecord {
    if CacheKey(t.coord) in cache then t.(data := Some(cache[CacheKey(t.coord)])) else t
  }

  function WithCached(ts: seq<TileRecord>, cache: map<string, Bytes>): (r: seq<TileRecord>)
    ensures |r| == |ts|
  {
    seq(|ts|, i requires 0 <= i < |ts| => CachedTile(ts[i], cache))
  }

  /** `tiles.forEach(...)` looking every tile up in `tile_cache`. */
  method LookUpCache(tiles: array<TileRecord>, cache: map<string, Bytes>)
    modifies tiles
    ensures tiles[..] == WithCached(old(tiles[..]), cache)
  {
    var i := 0;
    while i < tiles.Length
      invariant 0 <= i <= tiles.Length
      invariant forall k :: 0 <= k < i ==> tiles[k] == CachedTile(old(tiles[k]), cache)
      invariant forall k :: i <= k < tiles.Length ==> tiles[k] == old(tiles[k])
    {
      tiles[i] := CachedTile(tiles[i], cache);
      i := i + 1;
    }
  }

  // ---- Multipart fill ------------------------------------------------------------

  /** `tiles.filter(tile => !tile.data)`, as the positions of those tiles. */
  function Missing(ts: seq<TileRecord>): (ps: seq<nat>)
    ensures forall k :: 0 <= k < |ps| ==> ps[k] < |ts| && ts[ps[k]].data.None?
    ensures forall p :: 0 <= p < |ts| && ts[p].data.None? ==> p in ps
    ensures forall j, k :: 0 <= j < k < |ps| ==> ps[j] < ps[k]
  {
    if ts == [] then []
    else
      var p := Missing(ts[..|ts| - 1]);
      assert forall k :: 0 <= k < |p| ==> ts[..|ts| - 1][p[k]] == ts[p[k]];
      p + (if ts[|ts| - 1].data.None? then [|ts| - 1] else [])
  }

  predicate ValidPositions(ts: seq<TileRecord>, ps: seq<nat>) {
    forall k :: 0 <= k < |ps| ==> ps[k] < |ts|
  }

  /** The tiles at the given positions, in that order. */
  function Without(ts: seq<TileRecord>, ps: seq<nat>): (w: seq<TileRecord>)
    requires ValidPositions(ts, ps)
    ensures |w| == |ps| && forall k :: 0 <= k < |ps| ==> w[k] == ts[ps[k]]
  {
    seq(|ps|, k requires 0 <= k < |ps| => ts[ps[k]])
  }

  /** The response cut into the byte ranges of `ts`, back to back: part `j`
      is `response.slice(offset, offset + tile.length)` when the offset has
      passed the tiles before `j`. */
  function Parts(response: Bytes, ts: seq<TileRecord>): (r: seq<Bytes>)
    ensures |r| == |ts| && forall j :: 0 <= j < |ts| ==> r[j] == MemberSlice(response, ts, j)
  {
    seq(|ts|, j requires 0 <= j < |ts| => MemberSlice(response, ts, j))
  }

  /** Tiles and cache after the first `k` steps of the `reduce` over the
      tiles without data (with `cache_tiles` on): the tile at `ps[j]` gets
      part `j` of the response, and the cache gets the same bytes under
      its key. */
  function Fill(ts: seq<TileRecord>, cache: map<string, Bytes>, parts: seq<Bytes>, ps: seq<nat>, k: nat): (r: (seq<TileRecord>, map<string, Bytes>))
    requires ValidPositions(ts, ps) && |parts| == |ps| && k <= |ps|
    ensures |r.0| == |ts|
  {
    if k == 0 then (ts, cache)
    else
      var prev := Fill(ts, cache, parts, ps, k - 1);
      var p := ps[k - 1];
      var bytes := parts[k - 1];
      (prev.0[p := prev.0[p].(data := Some(bytes))], prev.1[CacheKey(ts[p].coord) := bytes])
  }

  /** One step of the fill, on the tiles. */
  lemma FillStepTiles(ts: seq<TileRecord>, cache: map<string, Bytes>, parts: seq<Bytes>, ps: seq<nat>, k: nat, q: nat)
    requires ValidPositions(ts, ps) && |parts| == |ps| && 0 < k <= |ps| && q < |ts|
    ensures q != ps[k - 1] ==> Fill(ts, cache, parts, ps, k).0[q] == Fill(ts, cache, parts, ps, k - 1).0[q]
    ensures q == ps[k - 1] ==> Fill(ts, cache, parts, ps, k).0[q] == Fill(ts, cache, parts, ps, k - 1).0[q].(data := Some(parts[k - 1]))
  {
  }

  /** One step of the fill, on the cache. */
  lemma FillStepCache(ts: seq<TileRecord>, cache: map<string, Bytes>, parts: seq<Bytes>, ps: seq<nat>, k: nat)
    requires ValidPositions(ts, ps) && |parts| == |ps| && 0 < k <= |ps|
    ensures Fill(ts, cache, parts, ps, k).1
         == Fill(ts, cache, parts, ps, k - 1).1[CacheKey(ts[ps[k - 1]].coord) := parts[k - 1]]
  {
  }

  /** The fill changes only `data`. */
  lemma {:induction false} FillKeepsFields(ts: seq<TileRecord>, cache: map<string, Bytes>, parts: seq<Bytes>, ps: seq<nat>, k: nat)
    requires ValidPositions(ts, ps) && |parts| == |ps| && k <= |ps|
    ensures forall p :: 0 <= p < |ts| ==> Fill(ts, cache, parts, ps, k).0[p] == ts[p].(data := Fill(ts, cache, parts, ps, k).0[p].data)
  {
    if k > 0 {
      FillKeepsFields(ts, cache, parts, ps, k - 1);
    }
  }

  predicate Ascending(ps: seq<nat>) {
    forall j, k :: 0 <= j < k < |ps| ==> ps[j] < ps[k]
  }

  /** What the fill does: each tile without data gets its part of the
      response, ... */
  lemma {:induction false} FillTile(ts: seq<TileRecord>, cache: map<string, Bytes>, parts: seq<Bytes>, ps: seq<nat>, k: nat, j: nat)
    requires ValidPositions(ts, ps) && |parts| == |ps| && Ascending(ps) && j < k <= |ps|
    ensures Fill(ts, cache, parts, ps, k).0[ps[j]] == ts[ps[j]].(data := Some(parts[j]))
  {
    if j < k - 1 {
      FillTile(ts, cache, parts, ps, k - 1, j);
      assert ps[j] < ps[k - 1];
    } else {
      FillUntouched(ts, cache, parts, ps, k - 1, ps[j]);
    }
    FillStepTiles(ts, cache, parts, ps, k, ps[j]);
  }

  /** ... and every other tile is left alone. */
  lemma {:induction false} FillUntouched(ts: seq<TileRecord>, cache: map<string, Bytes>, parts: seq<Bytes>, ps: seq<nat>, k: nat, q: nat)
    requires ValidPositions(ts, ps) && |parts| == |ps| && k <= |ps| && q < |ts|
    requires forall j :: 0 <= j < k ==> ps[j] != q
    ensures Fill(ts, cache, parts, ps, k).0[q] == ts[q]
  {
    if k > 0 {
      FillUntouched(ts, cache, parts, ps, k - 1, q);
      FillStepTiles(ts, cache, parts, ps, k, q);
    }
  }

  /** The cache keys of the first `k` tiles without data. */
  function AddedKeys(ts: seq<TileRecord>, ps: seq<nat>, k: nat): (keys: set<string>)
    requires ValidPositions(ts, ps) && k <= |ps|
    ensures forall j :: 0 <= j < k ==> CacheKey(ts[ps[j]].coord) in keys
  {
    if k == 0 then {} else AddedKeys(ts, ps, k - 1) + {CacheKey(ts[ps[k - 1]].coord)}
  }

  /** What the fill does to the cache: the keys of the filled tiles are
      added and no others. */
  lemma {:induction false} FillCacheKeys(ts: seq<TileRecord>, cache: map<string, Bytes>, parts: seq<Bytes>, ps: seq<nat>, k: nat)
    requires ValidPositions(ts, ps) && |parts| == |ps| && k <= |ps|
    ensures Fill(ts, cache, parts, ps, k).1.Keys == cache.Keys + AddedKeys(ts, ps, k)
  {
    if k > 0 {
      FillCacheKeys(ts, cache, parts, ps, k - 1);
    }
  }

  /** Every entry the fill does not write stays as it was. */
  lemma {:induction false} FillCacheKeeps(ts: seq<TileRecord>, cache: map<string, Bytes>, parts: seq<Bytes>, ps: seq<nat>, k: nat, key: string)
    requires ValidPositions(ts, ps) && |parts| == |ps| && k <= |ps|
    requires key in cache && key !in AddedKeys(ts, ps, k)
    ensures key in Fill(ts, cache, parts, ps, k).1 && Fill(ts, cache, parts, ps, k).1[key] == cache[key]
  {
    if k > 0 {
      FillCacheKeeps(ts, cache, parts, ps, k - 1, key);
    }
  }

  /** A filled tile's key holds the bytes that tile got, unless a later
      tile with the same coordinate overwrote it. */
  lemma {:induction false} FillCacheHolds(ts: seq<TileRecord>, cache: map<string, Bytes>, parts: seq<Bytes>, ps: seq<nat>, k: nat, j: nat)
    requires ValidPositions(ts, ps) && |parts| == |ps| && j < k <= |ps|
    requires forall i :: j < i < k ==> ts[ps[i]].coord != ts[ps[j]].coord
    ensures CacheKey(ts[ps[j]].coord) in Fill(ts, cache, parts, ps, k).1
    ensures Fill(ts, cache, parts, ps, k).1[CacheKey(ts[ps[j]].coord)] == parts[j]
  {
    FillStepCache(ts, cache, parts, ps, k);
    if j < k - 1 {
      FillCacheHolds(ts, cache, parts, ps, k - 1, j);
      assert ts[ps[k - 1]].coord != ts[ps[j]].coord;
      if CacheKey(ts[ps[j]].coord) == CacheKey(ts[ps[k - 1]].coord) {
        CacheKeyInjective(ts[ps[j]].coord, ts[ps[k - 1]].coord);
      }
    }
  }

  /** When the response holds the missing ranges of the data file back to
      back, every tile that had no data gets exactly its own bytes. */
  lemma MultipartFillsOwnBytes(file: Bytes, ts: seq<TileRecord>, cache: map<string, Bytes>)
    requires InFile(file, Without(ts, Missing(ts)))
    ensures var ps := Missing(ts);
      var filled := Fill(ts, cache, Parts(ConcatRanges(file, Without(ts, ps)), Without(ts, ps)), ps, |ps|).0;
      forall p :: 0 <= p < |ts| ==>
        filled[p] == if ts[p].data.None? then ts[p].(data := Some(TileBytes(file, ts[p]))) else ts[p]
  {
    var ps := Missing(ts);
    var w := Without(ts, ps);
    var parts := Parts(ConcatRanges(file, w), w);
    forall p | 0 <= p < |ts|
      ensures Fill(ts, cache, parts, ps, |ps|).0[p] == if ts[p].data.None? then ts[p].(data := Some(TileBytes(file, ts[p]))) else ts[p]
    {
      if ts[p].data.None? {
        var j :| 0 <= j < |ps| && ps[j] == p;
        FillTile(ts, cache, parts, ps, |ps|, j);
        MultipartMemberBytes(file, w, j);
      } else {
        FillUntouched(ts, cache, parts, ps, |ps|, p);
      }
    }
  }

  // ---- Cluster-mode fill ---------------------------------------------------------

  /** Every tile spans its length: `end = start + length - 1`. */
  predicate Spans(ts: seq<TileRecord>) {
    forall k :: 0 <= k < |ts| ==> ts[k].end == ts[k].start + ts[k].length - 1
  }

  /** Sorting keeps every tile, so it keeps them all spanning their lengths. */
  lemma SortedSpans(ts: seq<TileRecord>)
    requires Spans(ts)
    ensures Spans(Sorting.SortBy(ts, TileStart))
  {
    var s := Sorting.SortBy(ts, TileStart);
    Sorting.SortByPermutation(ts, TileStart);
    forall k | 0 <= k < |s| ensures s[k].end == s[k].start + s[k].length - 1 {
      assert s[k] in multiset(ts);
    }
  }

  /** A tile with its own bytes of the data file. */
  function WithOwnBytes(file: Bytes, t: TileRecord): TileRecord {
    t.(data := Some(TileBytes(file, t)))
  }

  /** The tiles of a run of positions. */
  function Members(snap: seq<TileRecord>, objs: seq<nat>): (m: seq<TileRecord>)
    requires forall k :: 0 <= k < |objs| ==> objs[k] < |snap|
    ensures |m| == |objs| && forall k :: 0 <= k < |objs| ==> m[k] == snap[objs[k]]
  {
    seq(|objs|, k requires 0 <= k < |objs| => snap[objs[k]])
  }

  function StartAt(snap: seq<TileRecord>): nat -> int {
    (p: nat) => if p < |snap| then snap[p].start else 0
  }

  function EndAt(snap: seq<TileRecord>): nat -> int {
    (p: nat) => if p < |snap| then snap[p].end else 0
  }

  /** A run of positions is a run of the tiles at those positions. */
  lemma RunOfMembers(snap: seq<TileRecord>, run: Clustering.Run<nat>)
    requires Spans(snap)
    requires forall k :: 0 <= k < |run.objs| ==> run.objs[k] < |snap|
    requires Clustering.RunOk(run, StartAt(snap), EndAt(snap))
    ensures Clustering.RunOk(Clustering.Run(run.start, run.end, Members(snap, run.objs)), TileStart, TileEnd)
    ensures Contiguous(Members(snap, run.objs))
    ensures run.start >= 0
  {
    var m := Members(snap, run.objs);
    assert TileStart(m[0]) == StartAt(snap)(run.objs[0]);
    assert TileEnd(m[|m| - 1]) == EndAt(snap)(run.objs[|m| - 1]);
    forall i | 0 < i < |m| ensures TileStart(m[i]) == TileEnd(m[i - 1]) + 1 {
      assert StartAt(snap)(run.objs[i]) == EndAt(snap)(run.objs[i - 1]) + 1;
    }
    forall k | 0 <= k < |m| ensures m[k].end == m[k].start + m[k].length - 1 {
      assert m[k] == snap[run.objs[k]];
    }
  }

  lemma {:induction false} InFlatten<T>(runs: seq<Clustering.Run<T>>, r: nat, k: nat)
    requires r < |runs| && k < |runs[r].objs|
    ensures runs[r].objs[k] in Clustering.Flatten(runs)
  {
    var p := runs[..|runs| - 1];
    Clustering.FlattenSnoc(p, runs[|runs| - 1]);
    assert p + [runs[|runs| - 1]] == runs;
    if r < |runs| - 1 {
      InFlatten(p, r, k);
    }
  }

  /** The runs hold the positions `0 .. n-1`, each somewhere. */
  lemma RunsCoverPositions(positions: seq<nat>, runs: seq<Clustering.Run<nat>>, f: nat -> int)
    requires |positions| > 0 && forall p :: 0 <= p < |positions| ==> positions[p] == p
    requires Clustering.Flatten(runs) == Sorting.SortBy(positions, f)
    ensures forall r, k :: 0 <= r < |runs| && 0 <= k < |runs[r].objs| ==> runs[r].objs[k] < |positions|
    ensures forall p :: 0 <= p < |positions| ==> p in Clustering.Flatten(runs)
  {
    Sorting.SortByPermutation(positions, f);
    forall r, k | 0 <= r < |runs| && 0 <= k < |runs[r].objs| ensures runs[r].objs[k] < |positions| {
      InFlatten(runs, r, k);
      assert runs[r].objs[k] in multiset(positions);
    }
    forall p | 0 <= p < |positions| ensures p in Clustering.Flatten(runs) {
      assert positions[p] == p;
      assert p in multiset(positions);
    }
  }

  /** Part way through the cluster fill: every tile is either as it was or
      as it is wanted, and those in `done` are as wanted. */
  ghost predicate FilledSoFar(cur: seq<TileRecord>, snap: seq<TileRecord>, want: seq<TileRecord>, done: set<nat>) {
    && |cur| == |snap| == |want|
    && (forall p :: 0 <= p < |cur| ==> cur[p] == snap[p] || cur[p] == want[p])
    && (forall p :: p in done ==> p < |cur| && cur[p] == want[p])
  }

  function Elems(s: seq<nat>): set<nat> {
    set q | q in s
  }

  /** Every tile with its own bytes. */
  ghost predicate AllOwnBytes(file: Bytes, snap: seq<TileRecord>, want: seq<TileRecord>) {
    |want| == |snap| && forall p :: 0 <= p < |snap| ==> want[p] == WithOwnBytes(file, snap[p])
  }

  /** `clustersWithData.forEach(range => range.objs.forEach(...))`: every
      run is fetched as one range, and each member gets the part of it at
      its cumulative offset. */
  method FillFromClusters(tiles: array<TileRecord>, file: Bytes) returns (r: Result<(), ReadError>)
    requires Spans(tiles[..])
    modifies tiles
    ensures r.Err? <==> tiles.Length == 0
    ensures r.Err? ==> r.error == NothingToCluster
    ensures r.Ok? ==> forall p :: 0 <= p < tiles.Length ==> tiles[p] == WithOwnBytes(file, old(tiles[p]))
  {
    var snap := tiles[..];
    var positions: seq<nat> := seq(tiles.Length, p requires 0 <= p < tiles.Length => p);
    var clusters := Clustering.Cluster<nat>(positions, StartAt(snap), EndAt(snap));
    if clusters.Err? {
      return Err(NothingToCluster);
    }
    var runs := clusters.value;
    ghost var want := seq(|snap|, p requires 0 <= p < |snap| => WithOwnBytes(file, snap[p]));
    RunsCoverPositions(positions, runs, EndAt(snap));
    assert Elems(Clustering.Flatten(runs[..0])) == {};
    FillRuns(tiles, file, snap, want, runs);
    r := Ok(());
  }

  /** The runs one after another. */
  method FillRuns(tiles: array<TileRecord>, file: Bytes, snap: seq<TileRecord>, ghost want: seq<TileRecord>, runs: seq<Clustering.Run<nat>>)
    requires Spans(snap) && AllOwnBytes(file, snap, want)
    requires forall r, k :: 0 <= r < |runs| && 0 <= k < |runs[r].objs| ==> runs[r].objs[k] < |snap|
    requires forall r :: 0 <= r < |runs| ==> Clustering.RunOk(runs[r], StartAt(snap), EndAt(snap))
    requires FilledSoFar(tiles[..], snap, want, {})
    modifies tiles
    ensures FilledSoFar(tiles[..], snap, want, Elems(Clustering.Flatten(runs)))
  {
    assert Elems(Clustering.Flatten(runs[..0])) == {};
    for i := 0 to |runs|
      invariant FilledSoFar(tiles[..], snap, want, Elems(Clustering.Flatten(runs[..i])))
    {
      FlattenPrefixElems(runs, i);
      RunSplitsOk(file, snap, want, runs[i]);
      FillRun(tiles, file, snap, want, runs[i], Elems(Clustering.Flatten(runs[..i])));
    }
    assert runs[..|runs|] == runs;
  }

  lemma FlattenPrefixElems(runs: seq<Clustering.Run<nat>>, i: nat)
    requires i < |runs|
    ensures Elems(Clustering.Flatten(runs[..i + 1])) == Elems(Clustering.Flatten(runs[..i])) + Elems(runs[i].objs)
  {
    assert runs[..i + 1] == runs[..i] + [runs[i]];
    Clustering.FlattenSnoc(runs[..i], runs[i]);
  }

  lemma ElemsSnoc(s: seq<nat>, k: nat)
    requires k < |s|
    ensures Elems(s[..k + 1]) == Elems(s[..k]) + {s[k]}
  {
    assert s[..k + 1] == s[..k] + [s[k]];
  }

  lemma FilledStep(cur: seq<TileRecord>, snap: seq<TileRecord>, want: seq<TileRecord>, done: set<nat>, p: nat, done': set<nat>)
    requires FilledSoFar(cur, snap, want, done) && p < |cur| && done' == done + {p}
    ensures FilledSoFar(cur[p := want[p]], snap, want, done')
  {
  }

  /** Member `k` of a run, given the part of the run's range at its
      cumulative offset, is as wanted. */
  ghost predicate MemberSplits(file: Bytes, snap: seq<TileRecord>, want: seq<TileRecord>, run: Clustering.Run<nat>, k: nat)
    requires run.start >= 0 && run.end >= -1
    requires forall j :: 0 <= j < |run.objs| ==> run.objs[j] < |snap| && run.objs[j] < |want|
    requires k < |run.objs|
  {
    var offset := SumLengths(Members(snap, run.objs)[..k]);
    var t := snap[run.objs[k]];
    t.(data := Some(Slice(FetchRange(file, run.start as nat, run.end), offset, offset + t.length))) == want[run.objs[k]]
  }

  /** Cutting a run's range at the members' offsets gives each member the
      bytes it is wanted with. */
  ghost predicate RunSplits(file: Bytes, snap: seq<TileRecord>, want: seq<TileRecord>, run: Clustering.Run<nat>) {
    && run.start >= 0 && run.end >= -1
    && (forall k :: 0 <= k < |run.objs| ==> run.objs[k] < |snap| && run.objs[k] < |want|)
    && forall k :: 0 <= k < |run.objs| ==> MemberSplits(file, snap, want, run, k)
  }

  lemma RunSplitsOk(file: Bytes, snap: seq<TileRecord>, want: seq<TileRecord>, run: Clustering.Run<nat>)
    requires Spans(snap) && AllOwnBytes(file, snap, want)
    requires forall j :: 0 <= j < |run.objs| ==> run.objs[j] < |snap|
    requires Clustering.RunOk(run, StartAt(snap), EndAt(snap))
    ensures RunSplits(file, snap, want, run)
  {
    RunMemberOwn(file, snap, want, run, 0);
    forall k | 0 <= k < |run.objs| ensures MemberSplits(file, snap, want, run, k) {
      RunMemberOwn(file, snap, want, run, k);
    }
  }

  lemma RunMemberOwn(file: Bytes, snap: seq<TileRecord>, want: seq<TileRecord>, run: Clustering.Run<nat>, k: nat)
    requires Spans(snap) && AllOwnBytes(file, snap, want)
    requires forall j :: 0 <= j < |run.objs| ==> run.objs[j] < |snap|
    requires Clustering.RunOk(run, StartAt(snap), EndAt(snap))
    requires k < |run.objs|
    ensures run.start >= 0 && run.end >= -1
    ensures MemberSplits(file, snap, want, run, k)
  {
    var members := Members(snap, run.objs);
    RunOfMembers(snap, run);
    ClusterMemberBytes(file, Clustering.Run(run.start, run.end, members), k);
    var p := run.objs[k];
    assert want[p] == WithOwnBytes(file, snap[p]);
    MemberSplitsFrom(file, snap, want, run, k, members, p);
  }

  lemma MemberSplitsFrom(file: Bytes, snap: seq<TileRecord>, want: seq<TileRecord>, run: Clustering.Run<nat>, k: nat,
                         members: seq<TileRecord>, p: nat)
    requires run.start >= 0 && run.end >= -1
    requires forall j :: 0 <= j < |run.objs| ==> run.objs[j] < |snap| && run.objs[j] < |want|
    requires k < |run.objs| && p == run.objs[k] && members == Members(snap, run.objs)
    requires MemberSlice(FetchRange(file, run.start as nat, run.end), members, k) == TileBytes(file, members[k])
    requires want[p] == WithOwnBytes(file, snap[p])
    ensures MemberSplits(file, snap, want, run, k)
  {
    assert members[k] == snap[p];
  }

  /** One run: its range is fetched and split among its members. */
  method FillRun(tiles: array<TileRecord>, file: Bytes, snap: seq<TileRecord>, ghost want: seq<TileRecord>,
                 run: Clustering.Run<nat>, ghost done: set<nat>)
    requires RunSplits(file, snap, want, run)
    requires FilledSoFar(tiles[..], snap, want, done)
    modifies tiles
    ensures FilledSoFar(tiles[..], snap, want, done + Elems(run.objs))
  {
    var members := Members(snap, run.objs);
    var data := FetchRange(file, run.start as nat, run.end);
    for k := 0 to |run.objs|
      invariant FilledSoFar(tiles[..], snap, want, done + Elems(run.objs[..k]))
    {
      var p := run.objs[k];
      var offset := SumLengths(members[..k]);
      ghost var cur := tiles[..];
      ghost var sofar := done + Elems(run.objs[..k]);
      assert MemberSplits(file, snap, want, run, k);
      assert tiles[p].(data := Some(Slice(data, offset, offset + tiles[p].length))) == want[p];
      tiles[p] := tiles[p].(data := Some(Slice(data, offset, offset + tiles[p].length)));
      ElemsSnoc(run.objs, k);
      FilledStep(cur, snap, want, sofar, p, done + Elems(run.objs[..k + 1]));
      assert tiles[..] == cur[p := want[p]];
    }
    assert run.objs[..|run.objs|] == run.objs;
  }

  /** Where an element of a flattened list of runs sits. */
  lemma {:induction false} FindInFlatten<T>(runs: seq<Clustering.Run<T>>, x: T) returns (r: nat, k: nat)
    requires x in Clustering.Flatten(runs)
    ensures r < |runs| && k < |runs[r].objs| && runs[r].objs[k] == x
  {
    var p := runs[..|runs| - 1];
    var last := runs[|runs| - 1];
    Clustering.FlattenSnoc(p, last);
    assert p + [last] == runs;
    if x in last.objs {
      r := |runs| - 1;
      k :| 0 <= k < |last.objs| && last.objs[k] == x;
    } else {
      r, k := FindInFlatten(p, x);
    }
  }

  // ---- LERC decoding -------------------------------------------------------------

  /** What the codec returns: its bands of pixels and the tile size. */
  datatype Decoded = Decoded(bands: seq<seq<real>>, height: nat, width: nat)

  /** The decode of one tile: it must have data, the codec must succeed,
      and it must return `pageBands` bands, which must be one. */
  function DecodeTile(meta: Meta, t: TileRecord, decode: Bytes -> Option<Decoded>): (r: Result<TileRecord, DecodeError>)
    ensures r.Ok? <==> (t.data.Some? && decode(t.data.value).Some?
                        && |decode(t.data.value).value.bands| == meta.pageBands == 1)
    ensures r.Ok? ==> var d := decode(t.data.value).value;
      r.value == t.(image := Some(Image(d.bands[0], d.height, d.width)))
  {
    if t.data.None? then Err(NoData)
    else
      var d := decode(t.data.value);
      if d.None? then Err(LercFailed)
      else if |d.value.bands| != meta.pageBands then Err(BandCountMismatch(|d.value.bands|, meta.pageBands))
      else if |d.value.bands| != 1 then Err(NotSingleBand(|d.value.bands|))
      else Ok(t.(image := Some(Image(d.value.bands[0], d.value.height, d.value.width))))
  }

  /** `tiles.forEach` with a `try`/`catch` per tile: in strict mode the
      first failure ends the request; otherwise a failed tile keeps no image. */
  function DecodeAll(meta: Meta, ts: seq<TileRecord>, decode: Bytes -> Option<Decoded>, strict: bool): (r: Result<seq<TileRecord>, ReadError>)
    ensures r.Ok? ==> |r.value| == |ts|
  {
    if ts == [] then Ok([])
    else
      var init := DecodeAll(meta, ts[..|ts| - 1], decode, strict);
      var last := DecodeTile(meta, ts[|ts| - 1], decode);
      if init.Err? then init
      else if last.Ok? then Ok(init.value + [last.value])
      else if strict then Err(DecodeFailed(last.error))
      else Ok(init.value + [ts[|ts| - 1]])
  }

  /** Without `strict`, decoding never fails the request: each tile either
      decodes or is returned as it was. */
  lemma {:induction false} DecodeLenient(meta: Meta, ts: seq<TileRecord>, decode: Bytes -> Option<Decoded>)
    ensures DecodeAll(meta, ts, decode, false).Ok?
    ensures forall k :: 0 <= k < |ts| ==> (DecodeAll(meta, ts, decode, false).value[k] ==
      if DecodeTile(meta, ts[k], decode).Ok? then DecodeTile(meta, ts[k], decode).value else ts[k])
  {
    if ts != [] {
      var p := ts[..|ts| - 1];
      DecodeLenient(meta, p, decode);
      assert forall k :: 0 <= k < |p| ==> p[k] == ts[k];
    }
  }

  /** With `strict`, the request succeeds exactly when every tile decodes,
      and then every tile has its image. */
  lemma {:induction false} DecodeStrict(meta: Meta, ts: seq<TileRecord>, decode: Bytes -> Option<Decoded>)
    ensures DecodeAll(meta, ts, decode, true).Ok? <==> forall k :: 0 <= k < |ts| ==> DecodeTile(meta, ts[k], decode).Ok?
    ensures DecodeAll(meta, ts, decode, true).Ok? ==>
      forall k :: 0 <= k < |ts| ==> DecodeAll(meta, ts, decode, true).value[k] == DecodeTile(meta, ts[k], decode).value
  {
    if ts != [] {
      var p := ts[..|ts| - 1];
      DecodeStrict(meta, p, decode);
      assert forall k :: 0 <= k < |p| ==> p[k] == ts[k];
    }
  }

  /** Once a prefix has failed, the whole fails the same way. */
  lemma {:induction false} DecodeErrorStays(meta: Meta, ts: seq<TileRecord>, i: nat, decode: Bytes -> Option<Decoded>, strict: bool)
    requires i <= |ts| && DecodeAll(meta, ts[..i], decode, strict).Err?
    ensures DecodeAll(meta, ts, decode, strict) == DecodeAll(meta, ts[..i], decode, strict)
  {
    if i < |ts| {
      var p := ts[..|ts| - 1];
      assert p[..i] == ts[..i];
      DecodeErrorStays(meta, p, i, decode, strict);
    } else {
      assert ts[..i] == ts;
    }
  }

  /** The decoding loop, updating each tile object in place. */
  method DecodeTiles(tiles: array<TileRecord>, meta: Meta, decode: Bytes -> Option<Decoded>, strict: bool) returns (r: Result<(), ReadError>)
    modifies tiles
    ensures (if r.Ok? then Ok(tiles[..]) else Err(r.error)) == DecodeAll(meta, old(tiles[..]), decode, strict)
  {
    ghost var orig := tiles[..];
    var i := 0;
    while i < tiles.Length
      invariant 0 <= i <= tiles.Length
      invariant DecodeAll(meta, orig[..i], decode, strict) == Ok(tiles[..i])
      invariant tiles[i..] == orig[i..]
    {
      ghost var before := tiles[..i];
      assert orig[..i + 1][..i] == orig[..i];
      assert tiles[i] == orig[i] by { assert tiles[i..][0] == orig[i..][0]; }
      var decoded := DecodeTile(meta, tiles[i], decode);
      if decoded.Ok? {
        tiles[i] := decoded.value;
      } else if strict {
        assert DecodeAll(meta, orig[..i + 1], decode, strict) == Err(DecodeFailed(decoded.error));
        DecodeErrorStays(meta, orig, i + 1, decode, strict);
        return Err(DecodeFailed(decoded.error));
      }
      assert tiles[..i] == before;
      assert tiles[..i + 1] == before + [tiles[i]];
      assert tiles[i + 1..] == orig[i + 1..] by {
        assert forall j :: i + 1 <= j < tiles.Length ==> tiles[j] == old(tiles[j]);
      }
      i := i + 1;
    }
    assert orig[..i] == orig;
    assert tiles[..i] == tiles[..];
    r := Ok(());
  }

  // ---- The whole of getTiles -------------------------------------------------------

  /** Where the tile bytes come from: a data file behind a URL, which may or
      may not answer range requests, or a buffer given to the constructor. */
  datatype DataSource = DataUrl(file: Bytes, acceptsRanges: bool) | DataBuffer(buffer: Bytes)

  /** The reader's options that `getTiles` consults. */
  datatype Options = Options(strict: bool, multipart: bool, cacheTiles: bool)

  /** The tiles after sorting and fetching, before decoding, and the cache
      afterwards; multipart mode goes through the cache, cluster mode does not. */
  function Fetched(source: DataSource, opts: Options, cache: map<string, Bytes>, sorted: seq<TileRecord>): (Result<seq<TileRecord>, ReadError>, map<string, Bytes>)
  {
    if opts.multipart then MultipartFetched(source, opts.cacheTiles, cache, sorted)
    else (ClusterFetched(source, sorted), cache)
  }

  /** Multipart mode: one request for all the tiles that are not cached.
      With the cache on this follows the corrected code: the lookup and the
      write call `this.getCacheKeyForTile` (src/MRF.js:439, 473) and
      `fetchBytes` returns `ab` (line 308). The code as written is
      FetchedAsWritten and FetchBytesAsWritten. */
  function MultipartFetched(source: DataSource, cacheTiles: bool, cache: map<string, Bytes>, sorted: seq<TileRecord>): (Result<seq<TileRecord>, ReadError>, map<string, Bytes>)
  {
    if !(source.DataUrl? && source.acceptsRanges) then (Err(RangeRequestsUnsupported), cache)
    else
      var cached := if cacheTiles then WithCached(sorted, cache) else sorted;
      var ps := Missing(cached);
      var filled := if cacheTiles then Fill(cached, cache, Parts(ConcatRanges(source.file, Without(cached, ps)), Without(cached, ps)), ps, |ps|)
                    else (cached, cache);
      (AwaitData(filled.0), filled.1)
  }

  /** `Promise.all(tiles.map(tile => tile.data.then(...)))`: fails when a
      tile has no data to wait for. */
  function AwaitData(ts: seq<TileRecord>): (r: Result<seq<TileRecord>, ReadError>)
    ensures r.Ok? <==> forall k :: 0 <= k < |ts| ==> ts[k].data.Some?
  {
    if exists k :: 0 <= k < |ts| && ts[k].data.None? then Err(TileWithoutData) else Ok(ts)
  }

  /** Cluster mode: one request per run of adjacent tiles. */
  function ClusterFetched(source: DataSource, sorted: seq<TileRecord>): Result<seq<TileRecord>, ReadError> {
    if sorted == [] then Err(NothingToCluster)
    else if source.DataBuffer? then Err(NoDataUrl)
    else if !source.acceptsRanges then Err(RangeRequestsUnsupported)
    else Ok(seq(|sorted|, p requires 0 <= p < |sorted| => WithOwnBytes(source.file, sorted[p])))
  }

  /** Multipart mode as written: the cache lookup calls `getCacheKeyForTile`
      without `this.`, which is not defined in that scope; without the cache
      no tile is given data, so waiting on `tile.data` fails. */
  function FetchedAsWritten(source: DataSource, opts: Options, cache: map<string, Bytes>, sorted: seq<TileRecord>): (Result<seq<TileRecord>, ReadError>, map<string, Bytes>)
    requires opts.multipart
  {
    if !(source.DataUrl? && source.acceptsRanges) then (Err(RangeRequestsUnsupported), cache)
    else if opts.cacheTiles && sorted != [] then (Err(UndefinedName("getCacheKeyForTile")), cache)
    else if exists k :: 0 <= k < |sorted| && sorted[k].data.None? then (Err(TileWithoutData), cache)
    else (Ok(sorted), cache)
  }

  /** As written, multipart mode only succeeds for an empty request. */
  lemma MultipartAsWrittenFails(source: DataSource, opts: Options, cache: map<string, Bytes>, sorted: seq<TileRecord>)
    requires opts.multipart
    requires forall k :: 0 <= k < |sorted| ==> sorted[k].data.None?
    ensures FetchedAsWritten(source, opts, cache, sorted).0.Ok? <==> (source.DataUrl? && source.acceptsRanges && sorted == [])
  {
    if sorted != [] && !opts.cacheTiles {
      assert sorted[0].data.None?;
    }
  }

  /** Multipart mode with the cache lookup corrected but `fetchBytes` as
      written (src/MRF.js:306-308): it reads the response body into `ab`
      and returns `arrayBuffer`, a name it never declares, so the promise
      every uncached tile waits on rejects with a ReferenceError. Without the
      cache no tile is given data, as in MultipartFetched. The cache, which
      as written keeps the rejected promises, is not followed here. */
  function FetchBytesAsWritten(source: DataSource, cacheTiles: bool, cache: map<string, Bytes>, sorted: seq<TileRecord>): Result<seq<TileRecord>, ReadError>
  {
    if !(source.DataUrl? && source.acceptsRanges) then Err(RangeRequestsUnsupported)
    else
      var cached := if cacheTiles then WithCached(sorted, cache) else sorted;
      if Missing(cached) == [] then Ok(cached)
      else if cacheTiles then Err(UndefinedName("arrayBuffer"))
      else Err(TileWithoutData)
  }

  /** Even with the lookup corrected, `fetchBytes` as written fails every
      multipart request with the cache that has a tile to fetch: it succeeds
      exactly when the cache already holds every tile. */
  lemma FetchBytesAsWrittenFails(file: Bytes, cache: map<string, Bytes>, sorted: seq<TileRecord>)
    requires forall k :: 0 <= k < |sorted| ==> sorted[k].data.None?
    ensures var r := FetchBytesAsWritten(DataUrl(file, true), true, cache, sorted);
      (r.Ok? <==> forall k :: 0 <= k < |sorted| ==> CacheKey(sorted[k].coord) in cache)
      && (r.Err? ==> r.error == UndefinedName("arrayBuffer"))
  {
    var cached := WithCached(sorted, cache);
    var ps := Missing(cached);
    if ps == [] {
      forall k | 0 <= k < |sorted| ensures CacheKey(sorted[k].coord) in cache {
        assert k !in ps;
        assert cached[k] == CachedTile(sorted[k], cache);
      }
    } else {
      var k := ps[0];
      assert cached[k] == CachedTile(sorted[k], cache);
      assert CacheKey(sorted[k].coord) !in cache;
    }
  }

  /** A tile after a corrected multipart fetch with the cache. */
  function Delivered(file: Bytes, cache: map<string, Bytes>, t: TileRecord): TileRecord {
    if CacheKey(t.coord) in cache then CachedTile(t, cache) else WithOwnBytes(file, t)
  }

  lemma MultipartFilled(file: Bytes, cache: map<string, Bytes>, sorted: seq<TileRecord>)
    requires InFile(file, sorted)
    requires forall k :: 0 <= k < |sorted| ==> sorted[k].data.None?
    ensures var cached := WithCached(sorted, cache);
      var ps := Missing(cached);
      var filled := Fill(cached, cache, Parts(ConcatRanges(file, Without(cached, ps)), Without(cached, ps)), ps, |ps|).0;
      forall p :: 0 <= p < |sorted| ==> filled[p] == Delivered(file, cache, sorted[p]) && filled[p].data.Some?
  {
    var cached := WithCached(sorted, cache);
    var ps := Missing(cached);
    CachedInFile(file, sorted, cache, cached);
    WithoutInFile(file, cached, ps);
    MultipartFillsOwnBytes(file, cached, cache);
    var filled := Fill(cached, cache, Parts(ConcatRanges(file, Without(cached, ps)), Without(cached, ps)), ps, |ps|).0;
    forall p | 0 <= p < |sorted| ensures filled[p] == Delivered(file, cache, sorted[p]) && filled[p].data.Some? {
      DeliveredAt(file, cache, sorted[p], cached[p], filled[p]);
    }
  }

  lemma CachedInFile(file: Bytes, sorted: seq<TileRecord>, cache: map<string, Bytes>, cached: seq<TileRecord>)
    requires InFile(file, sorted) && cached == WithCached(sorted, cache)
    ensures InFile(file, cached)
  {
    forall k | 0 <= k < |cached| ensures cached[k].start + cached[k].length <= |file| {
      assert cached[k] == CachedTile(sorted[k], cache);
    }
  }

  lemma WithoutInFile(file: Bytes, ts: seq<TileRecord>, ps: seq<nat>)
    requires InFile(file, ts) && ValidPositions(ts, ps)
    ensures InFile(file, Without(ts, ps))
  {
    var w := Without(ts, ps);
    forall k | 0 <= k < |w| ensures w[k].start + w[k].length <= |file| {
      assert w[k] == ts[ps[k]];
    }
  }

  /** One tile of a multipart fetch with the cache. */
  lemma DeliveredAt(file: Bytes, cache: map<string, Bytes>, t: TileRecord, cached: TileRecord, filled: TileRecord)
    requires t.data.None? && cached == CachedTile(t, cache)
    requires filled == if cached.data.None? then cached.(data := Some(TileBytes(file, cached))) else cached
    ensures filled == Delivered(file, cache, t) && filled.data.Some?
  {
  }

  /** With the lookup and the response corrected, multipart mode with the
      cache delivers every tile: a cached tile with its cached bytes, any
      other with its own bytes of the data file. */
  lemma MultipartDelivers(file: Bytes, cache: map<string, Bytes>, sorted: seq<TileRecord>)
    requires InFile(file, sorted)
    requires forall k :: 0 <= k < |sorted| ==> sorted[k].data.None?
    ensures MultipartFetched(DataUrl(file, true), true, cache, sorted).0.Ok?
    ensures var r := MultipartFetched(DataUrl(file, true), true, cache, sorted).0.value;
      |r| == |sorted| && forall p :: 0 <= p < |sorted| ==> r[p] == Delivered(file, cache, sorted[p])
  {
    MultipartFilled(file, cache, sorted);
  }

  /** `getTiles({ coords })`: the tiles, sorted by `start`, with their bytes
      and (for LERC) their images, and the tile cache afterwards. */
  function GetTilesSpec(meta: Meta, idx: seq<IndexStore.Record>, source: DataSource, opts: Options,
                        cache: map<string, Bytes>, coords: seq<Coord>, decode: Bytes -> Option<Decoded>)
    : (Result<seq<TileRecord>, ReadError>, map<string, Bytes>)
  {
    var located := LocateAll(meta, idx, coords);
    if located.Err? then (Err(located.error), cache)
    else FetchAndDecode(meta, source, opts, cache, Sorting.SortBy(located.value, TileStart), decode)
  }

  /** The sorted tiles fetched, then decoded when the data is LERC. */
  function FetchAndDecode(meta: Meta, source: DataSource, opts: Options, cache: map<string, Bytes>,
                          sorted: seq<TileRecord>, decode: Bytes -> Option<Decoded>)
    : (Result<seq<TileRecord>, ReadError>, map<string, Bytes>)
  {
    var fetched := Fetched(source, opts, cache, sorted);
    if fetched.0.Err? || meta.compression != Some("LERC") then fetched
    else (DecodeAll(meta, fetched.0.value, decode, opts.strict), fetched.1)
  }

  // ---- What getTiles returns ---------------------------------------------------------

  /** A tile without the bytes and the image that fetching and decoding add. */
  function Bare(t: TileRecord): TileRecord {
    t.(data := None, image := None)
  }

  /** Fetching only gives tiles data. */
  lemma FetchedKeeps(source: DataSource, opts: Options, cache: map<string, Bytes>, sorted: seq<TileRecord>)
    ensures var f := Fetched(source, opts, cache, sorted).0;
      f.Ok? ==> |f.value| == |sorted| && forall k :: 0 <= k < |sorted| ==> Bare(f.value[k]) == Bare(sorted[k])
  {
    if opts.multipart && source.DataUrl? && source.acceptsRanges && opts.cacheTiles {
      MultipartKeeps(source.file, cache, sorted);
    }
  }

  lemma MultipartKeeps(file: Bytes, cache: map<string, Bytes>, sorted: seq<TileRecord>)
    ensures var cached := WithCached(sorted, cache);
      var ps := Missing(cached);
      var filled := Fill(cached, cache, Parts(ConcatRanges(file, Without(cached, ps)), Without(cached, ps)), ps, |ps|).0;
      forall k :: 0 <= k < |sorted| ==> Bare(filled[k]) == Bare(sorted[k])
  {
    var cached := WithCached(sorted, cache);
    var ps := Missing(cached);
    var parts := Parts(ConcatRanges(file, Without(cached, ps)), Without(cached, ps));
    FillKeepsFields(cached, cache, parts, ps, |ps|);
    forall k | 0 <= k < |sorted| ensures Bare(Fill(cached, cache, parts, ps, |ps|).0[k]) == Bare(sorted[k]) {
      assert cached[k] == CachedTile(sorted[k], cache);
    }
  }

  /** Decoding only gives tiles images. */
  lemma {:induction false} DecodeKeeps(meta: Meta, ts: seq<TileRecord>, decode: Bytes -> Option<Decoded>, strict: bool)
    ensures var d := DecodeAll(meta, ts, decode, strict);
      d.Ok? ==> forall k :: 0 <= k < |ts| ==> d.value[k] == ts[k] || d.value[k] == ts[k].(image := d.value[k].image)
  {
    if ts != [] {
      var p := ts[..|ts| - 1];
      DecodeKeeps(meta, p, decode, strict);
      assert forall k :: 0 <= k < |p| ==> p[k] == ts[k];
    }
  }

  /** `getTiles` returns one tile per coordinate: the located tiles, stably
      sorted by `start`, with nothing changed but their data and image. */
  lemma GetTilesShape(meta: Meta, idx: seq<IndexStore.Record>, source: DataSource, opts: Options,
                      cache: map<string, Bytes>, coords: seq<Coord>, decode: Bytes -> Option<Decoded>)
    ensures var r := GetTilesSpec(meta, idx, source, opts, cache, coords, decode).0;
      r.Ok? ==> (LocateAll(meta, idx, coords).Ok? && |r.value| == |coords|
        && forall k :: 0 <= k < |coords| ==> Bare(r.value[k]) == Sorting.SortBy(LocateAll(meta, idx, coords).value, TileStart)[k])
  {
    var located := LocateAll(meta, idx, coords);
    if located.Ok? {
      var sorted := Sorting.SortBy(located.value, TileStart);
      FetchAndDecodeKeeps(meta, source, opts, cache, sorted, decode);
      SortedBare(meta, idx, coords);
    }
  }

  lemma FetchAndDecodeKeeps(meta: Meta, source: DataSource, opts: Options, cache: map<string, Bytes>,
                            sorted: seq<TileRecord>, decode: Bytes -> Option<Decoded>)
    ensures var r := FetchAndDecode(meta, source, opts, cache, sorted, decode).0;
      r.Ok? ==> (|r.value| == |sorted| && forall k :: 0 <= k < |sorted| ==> Bare(r.value[k]) == Bare(sorted[k]))
  {
    FetchedKeeps(source, opts, cache, sorted);
    var f := Fetched(source, opts, cache, sorted).0;
    if f.Ok? && meta.compression == Some("LERC") {
      DecodeKeeps(meta, f.value, decode, opts.strict);
      var d := DecodeAll(meta, f.value, decode, opts.strict);
      if d.Ok? {
        forall k | 0 <= k < |sorted| ensures Bare(d.value[k]) == Bare(sorted[k]) {
          assert Bare(d.value[k]) == Bare(f.value[k]);
        }
      }
    }
  }

  /** The located tiles carry no data or image yet, and sorting keeps it so. */
  lemma SortedBare(meta: Meta, idx: seq<IndexStore.Record>, coords: seq<Coord>)
    requires LocateAll(meta, idx, coords).Ok?
    ensures var sorted := Sorting.SortBy(LocateAll(meta, idx, coords).value, TileStart);
      forall k :: 0 <= k < |sorted| ==> Bare(sorted[k]) == sorted[k]
  {
    var located := LocateAll(meta, idx, coords).value;
    var sorted := Sorting.SortBy(located, TileStart);
    Sorting.SortByPermutation(located, TileStart);
    forall k | 0 <= k < |sorted| ensures Bare(sorted[k]) == sorted[k] {
      assert sorted[k] in multiset(located);
    }
  }

  /** The tiles `getTiles` returns are in order of `start`, and they are
      the located tiles rearranged: every one of them, each once. */
  lemma GetTilesSorted(meta: Meta, idx: seq<IndexStore.Record>, source: DataSource, opts: Options,
                       cache: map<string, Bytes>, coords: seq<Coord>, decode: Bytes -> Option<Decoded>)
    ensures var r := GetTilesSpec(meta, idx, source, opts, cache, coords, decode).0;
      r.Ok? ==> (Sorting.SortedBy(r.value, TileStart)
        && multiset(BareAll(r.value)) == multiset(LocateAll(meta, idx, coords).value))
  {
    var r := GetTilesSpec(meta, idx, source, opts, cache, coords, decode).0;
    GetTilesShape(meta, idx, source, opts, cache, coords, decode);
    if r.Ok? {
      var located := LocateAll(meta, idx, coords).value;
      var sorted := Sorting.SortBy(located, TileStart);
      Sorting.SortBySorted(located, TileStart);
      Sorting.SortByPermutation(located, TileStart);
      SortedBare(meta, idx, coords);
      assert forall k :: 0 <= k < |r.value| ==> r.value[k].start == sorted[k].start;
      assert BareAll(r.value) == sorted;
    }
  }

  function BareAll(ts: seq<TileRecord>): (r: seq<TileRecord>)
    ensures |r| == |ts| && forall k :: 0 <= k < |ts| ==> r[k] == Bare(ts[k])
  {
    seq(|ts|, k requires 0 <= k < |ts| => Bare(ts[k]))
  }

  /** The tiles `getTiles` returns are exactly the tiles asked for: each
      returned tile has a requested coordinate and each requested
      coordinate has a returned tile. */
  lemma GetTilesCoords(meta: Meta, idx: seq<IndexStore.Record>, source: DataSource, opts: Options,
                       cache: map<string, Bytes>, coords: seq<Coord>, decode: Bytes -> Option<Decoded>)
    ensures var r := GetTilesSpec(meta, idx, source, opts, cache, coords, decode).0;
      r.Ok? ==> ((forall k :: 0 <= k < |r.value| ==> r.value[k].coord in coords)
        && (forall c :: c in coords ==> exists k :: 0 <= k < |r.value| && r.value[k].coord == c))
  {
    var r := GetTilesSpec(meta, idx, source, opts, cache, coords, decode).0;
    GetTilesSorted(meta, idx, source, opts, cache, coords, decode);
    if r.Ok? {
      var located := LocateAll(meta, idx, coords).value;
      assert forall m :: 0 <= m < |located| ==> located[m].coord == coords[m];
      SameCoords(r.value, located, coords);
    }
  }

  /** Tiles that are a rearrangement of tiles located one per coordinate
      have exactly those coordinates. */
  lemma SameCoords(ts: seq<TileRecord>, located: seq<TileRecord>, coords: seq<Coord>)
    requires multiset(BareAll(ts)) == multiset(located)
    requires |located| == |coords| && forall m :: 0 <= m < |located| ==> located[m].coord == coords[m]
    ensures forall k :: 0 <= k < |ts| ==> ts[k].coord in coords
    ensures forall c :: c in coords ==> exists k :: 0 <= k < |ts| && ts[k].coord == c
  {
    var bare := BareAll(ts);
    forall k | 0 <= k < |ts| ensures ts[k].coord in coords {
      assert bare[k] in multiset(located);
      var m :| 0 <= m < |located| && located[m] == bare[k];
      assert located[m].coord == coords[m];
    }
    forall c | c in coords ensures exists k :: 0 <= k < |ts| && ts[k].coord == c {
      var m :| 0 <= m < |coords| && coords[m] == c;
      assert located[m] in multiset(bare);
      var k :| 0 <= k < |bare| && bare[k] == located[m];
      assert ts[k].coord == c;
    }
  }

  /** In strict mode a LERC request that succeeds has decoded every tile. */
  lemma GetTilesStrictImages(meta: Meta, idx: seq<IndexStore.Record>, source: DataSource, opts: Options,
                             cache: map<string, Bytes>, coords: seq<Coord>, decode: Bytes -> Option<Decoded>)
    requires opts.strict && meta.compression == Some("LERC")
    ensures var r := GetTilesSpec(meta, idx, source, opts, cache, coords, decode).0;
      r.Ok? ==> forall k :: 0 <= k < |r.value| ==> r.value[k].image.Some?
  {
    var located := LocateAll(meta, idx, coords);
    if located.Ok? {
      var sorted := Sorting.SortBy(located.value, TileStart);
      var f := Fetched(source, opts, cache, sorted).0;
      if f.Ok? {
        DecodeStrict(meta, f.value, decode);
      }
    }
  }

  /** No coordinates: nothing comes back, and clustered ranges have nothing to cluster. */
  lemma GetTilesNone(meta: Meta, idx: seq<IndexStore.Record>, source: DataSource, opts: Options,
                     cache: map<string, Bytes>, decode: Bytes -> Option<Decoded>)
    ensures var r := GetTilesSpec(meta, idx, source, opts, cache, [], decode).0;
      (r.Ok? ==> r.value == []) && (!opts.multipart ==> r == Err(NothingToCluster))
  {
    GetTilesShape(meta, idx, source, opts, cache, [], decode);
    assert LocateAll(meta, idx, []).Ok?;
    assert Sorting.SortBy(LocateAll(meta, idx, []).value, TileStart) == [];
  }
}
