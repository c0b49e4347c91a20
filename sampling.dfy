/** `getValues` of src/MRF.js: pick the coarsest level that is not coarser
    than the request, list the tiles of that level that the trimmed area
    touches, fetch them as multi-band tiles, and fill a band by row by
    column output by reading, for each output sample, one pixel of the tile
    under it. */
module Sampling {
  import opened Common
  import opened Numbers
  import opened Pyramid
  import opened Tiles
  import opened MultiBand
  import opened Fetch
  import IndexStore

  // ---- The request ---------------------------------------------------------------

  /** The options of `getValues`: how much to trim from each side (in pixels
      of the full-resolution level) and the output size; each may be absent. */
  datatype ValuesRequest = ValuesRequest(
    top: Option<nat>, left: Option<nat>, bottom: Option<nat>, right: Option<nat>,
    width: Option<nat>, height: Option<nat>)

  /** `if (!isdef(v)) v = 0`. */
  function OrZero(v: Option<nat>): nat {
    if v.Some? then v.value else 0
  }

  /** `meta.height - bottom - top`: may be negative when the trims overlap. */
  function RealHeight(meta: Meta, req: ValuesRequest): int {
    meta.height - OrZero(req.bottom) - OrZero(req.top)
  }

  function RealWidth(meta: Meta, req: ValuesRequest): int {
    meta.width - OrZero(req.right) - OrZero(req.left)
  }

  /** `isdef(height) ? height : realHeight`. */
  function RequestedHeight(meta: Meta, req: ValuesRequest): int {
    if req.height.Some? then req.height.value else RealHeight(meta, req)
  }

  function RequestedWidth(meta: Meta, req: ValuesRequest): int {
    if req.width.Some? then req.width.value else RealWidth(meta, req)
  }

  // ---- Level selection -----------------------------------------------------------

  /** The level chosen: its number (0 for full resolution, `i + 1` for
      `overviews[i]`), its size and its scale against full resolution. */
  datatype Selection = Selection(index: nat, height: nat, width: nat, scaleHeight: JsNum, scaleWidth: JsNum)

  /** `ovr.scale.height <= requestedScaleHeight && ovr.scale.width <= requestedScaleWidth`. */
  predicate Fits(o: Overview, sh: JsNum, sw: JsNum) {
    LessEq(o.scaleHeight, sh) && LessEq(o.scaleWidth, sw)
  }

  /** How many overviews, from the first, fit the requested scale before the
      first that does not. */
  function FitCount(ovs: seq<Overview>, sh: JsNum, sw: JsNum): (n: nat)
    ensures n <= |ovs|
    ensures forall i :: 0 <= i < n ==> Fits(ovs[i], sh, sw)
    ensures n < |ovs| ==> !Fits(ovs[n], sh, sw)
  {
    if ovs == [] || !Fits(ovs[0], sh, sw) then 0 else 1 + FitCount(ovs[1..], sh, sw)
  }

  /** Level `n`: the full-resolution level, or `overviews[n - 1]`. */
  function SelectionAt(meta: Meta, ovs: seq<Overview>, n: nat): Selection
    requires n <= |ovs|
  {
    if n == 0 then Selection(0, meta.height, meta.width, Finite(1.0), Finite(1.0))
    else Selection(n, ovs[n - 1].height, ovs[n - 1].width, ovs[n - 1].scaleHeight, ovs[n - 1].scaleWidth)
  }

  /** The loop over `meta.overviews` that moves `selection` on while the
      next overview still fits, and stops at the first that does not. */
  method SelectLevel(meta: Meta, ovs: seq<Overview>, sh: JsNum, sw: JsNum) returns (sel: Selection)
    ensures sel == SelectionAt(meta, ovs, FitCount(ovs, sh, sw))
  {
    sel := Selection(0, meta.height, meta.width, Finite(1.0), Finite(1.0));
    var i := 0;
    while i < |ovs|
      invariant i <= FitCount(ovs, sh, sw)
      invariant sel == SelectionAt(meta, ovs, i)
    {
      if Fits(ovs[i], sh, sw) {
        sel := Selection(i + 1, ovs[i].height, ovs[i].width, ovs[i].scaleHeight, ovs[i].scaleWidth);
      } else {
        break;
      }
      i := i + 1;
    }
  }

  /** The selected level is never coarser than the request, and the next
      overview, when there is one, is. */
  lemma SelectionNotCoarser(meta: Meta, ovs: seq<Overview>, sh: JsNum, sw: JsNum)
    ensures var n := FitCount(ovs, sh, sw);
      var sel := SelectionAt(meta, ovs, n);
      (n > 0 ==> LessEq(sel.scaleHeight, sh) && LessEq(sel.scaleWidth, sw))
      && (n < |ovs| ==> !(LessEq(ovs[n].scaleHeight, sh) && LessEq(ovs[n].scaleWidth, sw)))
  {
  }

  // ---- The tile window -----------------------------------------------------------

  /** The places of one column of the window, `y` from `minY` to `maxY`. */
  function Column(l: nat, x: nat, minY: nat, maxY: int): (c: seq<Place>)
    ensures |c| == if maxY < minY then 0 else maxY - minY + 1
    ensures forall i :: 0 <= i < |c| ==> c[i] == Place(l, x, minY + i)
  {
    if maxY < minY then [] else seq(maxY - minY + 1, i requires 0 <= i <= maxY - minY => Place(l, x, minY + i))
  }

  /** The list the two loops push: `x` from `minX` to `maxX` outside, `y`
      from `minY` to `maxY` inside, all at level `l`. */
  function Window(l: nat, minX: nat, maxX: int, minY: nat, maxY: int): seq<Place>
    decreases maxX - minX
  {
    if maxX < minX then [] else Window(l, minX, maxX - 1, minY, maxY) + Column(l, maxX, minY, maxY)
  }

  /** Every place of the rectangle is listed, and nothing else. */
  lemma {:induction false} WindowHas(l: nat, minX: nat, maxX: int, minY: nat, maxY: int, p: Place)
    ensures p in Window(l, minX, maxX, minY, maxY)
      <==> p.l == l && minX <= p.x <= maxX && minY <= p.y <= maxY
    decreases maxX - minX
  {
    if maxX >= minX {
      WindowHas(l, minX, maxX - 1, minY, maxY, p);
      var c := Column(l, maxX, minY, maxY);
      if p.l == l && p.x == maxX && minY <= p.y <= maxY {
        assert c[p.y - minY] == p;
      }
    }
  }

  /** No place is listed twice. */
  predicate Distinct(w: seq<Place>) {
    forall i, j :: 0 <= i < j < |w| ==> w[i] != w[j]
  }

  lemma {:induction false} WindowDistinct(l: nat, minX: nat, maxX: int, minY: nat, maxY: int)
    ensures Distinct(Window(l, minX, maxX, minY, maxY))
    decreases maxX - minX
  {
    if maxX >= minX {
      var init := Window(l, minX, maxX - 1, minY, maxY);
      var c := Column(l, maxX, minY, maxY);
      var w := init + c;
      WindowDistinct(l, minX, maxX - 1, minY, maxY);
      assert Distinct(init);
      forall i, j | 0 <= i < j < |w| ensures w[i] != w[j] {
        if i < |init| && j >= |init| {
          assert w[i] == init[i];
          WindowHas(l, minX, maxX - 1, minY, maxY, init[i]);
          assert init[i].x < maxX;
          assert w[j] == c[j - |init|];
          assert w[j].x == maxX;
        } else if i >= |init| {
          assert w[i] == c[i - |init|] && w[j] == c[j - |init|];
          assert w[i].y < w[j].y;
        } else {
          assert w[i] == init[i] && w[j] == init[j];
          assert init[i] != init[j];
        }
      }
    }
  }

  /** The nested `for` loops over `x` and `y` pushing onto `coords`. */
  method WindowCoords(l: nat, minX: nat, maxX: int, minY: nat, maxY: int) returns (coords: seq<Place>)
    ensures coords == Window(l, minX, maxX, minY, maxY)
  {
    coords := [];
    var x := minX;
    while x <= maxX
      invariant minX <= x <= if maxX < minX then minX else maxX + 1
      invariant coords == Window(l, minX, x - 1, minY, maxY)
      decreases maxX - x
    {
      ghost var before := coords;
      var y := minY;
      while y <= maxY
        invariant minY <= y <= if maxY < minY then minY else maxY + 1
        invariant coords == before + Column(l, x, minY, y - 1)
        decreases maxY - y
      {
        assert Column(l, x, minY, y) == Column(l, x, minY, y - 1) + [Place(l, x, y)];
        coords := coords + [Place(l, x, y)];
        y := y + 1;
      }
      assert Column(l, x, minY, y - 1) == Column(l, x, minY, maxY);
      x := x + 1;
    }
    assert Window(l, minX, x - 1, minY, maxY) == Window(l, minX, maxX, minY, maxY);
  }

  // ---- The plan of the sampling --------------------------------------------------

  /** What the sampling loops need: the output size, the level and its tile
      window, the trimmed edges in level pixels, the step between samples
      and the fill value. */
  datatype Plan = Plan(
    level: nat, rows: int, cols: int, numBands: nat,
    top: real, left: real, bottomEdge: real, rightEdge: real,
    minX: nat, maxX: int, minY: nat, maxY: int,
    rowStep: real, colStep: real,
    pageWidth: nat, pageHeight: nat, fill: Cell)

  /** One output value: a pixel, `null`, or `undefined` for an index off the tile. */
  datatype Cell = Null | Value(v: real) | Undefined

  /** The arithmetic of getValues between the selection and the fetch: the
      trims scaled to the level, the window of tiles they leave, and, for
      each axis with at least one sample, the distance between samples. */
  function PlanAt(meta: Meta, req: ValuesRequest, sel: Selection): (r: Result<Plan, ReadError>)
    requires meta.pageWidth > 0 && meta.pageHeight > 0
    ensures r.Err? <==> !(sel.scaleHeight.Finite? && sel.scaleHeight.value > 0.0
                         && sel.scaleWidth.Finite? && sel.scaleWidth.value > 0.0)
    ensures r.Ok? ==> r.value.level == sel.index && r.value.numBands == meta.numBands
    ensures r.Ok? ==> r.value.rows == RequestedHeight(meta, req) && r.value.cols == RequestedWidth(meta, req)
    ensures r.Ok? ==> r.value.fill == if meta.noDataValue.Some? then Value(meta.noDataValue.value) else Null
    ensures r.Ok? ==> WellFormed(r.value)
  {
    if !(sel.scaleHeight.Finite? && sel.scaleHeight.value > 0.0 && sel.scaleWidth.Finite? && sel.scaleWidth.value > 0.0)
    then Err(DegenerateScale)
    else
      var sh, sw := sel.scaleHeight.value, sel.scaleWidth.value;
      var top, bottom := Scaled(OrZero(req.top), sh), Scaled(OrZero(req.bottom), sh);
      var left, right := Scaled(OrZero(req.left), sw), Scaled(OrZero(req.right), sw);
      var pw, ph := meta.pageWidth as real, meta.pageHeight as real;
      var rows, cols := RequestedHeight(meta, req), RequestedWidth(meta, req);
      var bottomEdge := sel.height as real - bottom;
      var rightEdge := sel.width as real - right;
      Ok(Plan(sel.index, rows, cols, meta.numBands,
              top, left, bottomEdge, rightEdge,
              TileOf(left, meta.pageWidth), Floor(rightEdge / pw), TileOf(top, meta.pageHeight), Floor(bottomEdge / ph),
              Spread(sel.height as real - (top + bottom), rows),
              Spread(sel.width as real - (left + right), cols),
              meta.pageWidth, meta.pageHeight,
              if meta.noDataValue.Some? then Value(meta.noDataValue.value) else Null))
  }

  /** `v / scale`, a trim in pixels of the selected level. */
  function Scaled(v: nat, scale: real): (r: real)
    requires scale > 0.0
    ensures r >= 0.0 && r * scale == v as real
  {
    v as real / scale
  }

  /** `Math.floor(v / page)` for a non-negative position: the tile it is in. */
  function TileOf(v: real, page: nat): (t: nat)
    requires v >= 0.0 && page > 0
    ensures t == Floor(v / page as real)
  {
    Floor(v / page as real)
  }

  /** `span / n`, the distance between `n` samples over `span`; unused (and
      `Infinity` or `NaN` in the source) when there are no samples. */
  function Spread(span: real, n: int): (r: real)
    ensures n > 0 ==> r * n as real == span
  {
    if n > 0 then span / n as real else 0.0
  }

  /** What the plan's fields mean: the window is the tiles between the
      trimmed edges, and the samples are spread evenly between them. */
  predicate WellFormed(p: Plan) {
    p.pageWidth > 0 && p.pageHeight > 0
    && p.top >= 0.0 && p.left >= 0.0
    && p.minX == Floor(p.left / p.pageWidth as real) && p.maxX == Floor(p.rightEdge / p.pageWidth as real)
    && p.minY == Floor(p.top / p.pageHeight as real) && p.maxY == Floor(p.bottomEdge / p.pageHeight as real)
    && (p.rows > 0 ==> p.rowStep * p.rows as real == p.bottomEdge - p.top)
    && (p.cols > 0 ==> p.colStep * p.cols as real == p.rightEdge - p.left)
  }

  /** Everything `getValues` works out before it fetches: the level (the
      loop fails when there is no `overviews` list) and the plan. */
  function ValuesPlan(meta: Meta, req: ValuesRequest): Result<Plan, ReadError>
    requires meta.pageWidth > 0 && meta.pageHeight > 0
  {
    if meta.overviews.None? then Err(NoOverviews)
    else
      var rows, cols := RequestedHeight(meta, req), RequestedWidth(meta, req);
      var sh := Div(RealHeight(meta, req) as real, rows as real);
      var sw := Div(RealWidth(meta, req) as real, cols as real);
      PlanAt(meta, req, SelectionAt(meta, meta.overviews.value, FitCount(meta.overviews.value, sh, sw)))
  }

  /** The places whose tiles `getValues` fetches. */
  function PlanCoords(p: Plan): seq<Place> {
    Window(p.level, p.minX, p.maxX, p.minY, p.maxY)
  }

  // ---- Where a sample falls ------------------------------------------------------

  /** `x % m` for `m > 0`: the remainder takes the sign of `x`. */
  function Rem(x: real, m: real): (r: real)
    requires m > 0.0
    ensures x >= 0.0 ==> 0.0 <= r < m
  {
    if x >= 0.0 then Mod(x, m) else -Mod(-x, m)
  }

  /** `yInLevelPixels` of output row `r`. */
  function RowPos(p: Plan, r: nat): real { p.top + r as real * p.rowStep }

  /** `xInLevelPixels` of output column `c`. */
  function ColPos(p: Plan, c: nat): real { p.left + c as real * p.colStep }

  /** Between the trimmed edges, every sample falls in a tile of the window. */
  lemma SamplesInWindow(p: Plan, r: nat, c: nat)
    requires WellFormed(p) && r < p.rows && c < p.cols
    requires p.bottomEdge >= p.top && p.rightEdge >= p.left
    ensures p.minY <= Floor(RowPos(p, r) / p.pageHeight as real) <= p.maxY
    ensures p.minX <= Floor(ColPos(p, c) / p.pageWidth as real) <= p.maxX
  {
    PosBetween(p.top, p.bottomEdge, p.rowStep, r, p.rows);
    PosBetween(p.left, p.rightEdge, p.colStep, c, p.cols);
    FloorBetween(p.top, RowPos(p, r), p.bottomEdge, p.pageHeight as real);
    FloorBetween(p.left, ColPos(p, c), p.rightEdge, p.pageWidth as real);
  }

  lemma PosBetween(lo: real, hi: real, step: real, i: nat, n: nat)
    requires i < n && step * n as real == hi - lo && hi >= lo
    ensures lo <= lo + i as real * step <= hi
  {
    assert step >= 0.0 by {
      if step < 0.0 {
        MulLtReal(step, 0.0, n as real);
      }
    }
    MulLeReal(i as real, n as real, step + 1.0);
    assert i as real * step <= n as real * step by {
      if step > 0.0 {
        MulLeReal(i as real, n as real, step);
      }
    }
  }

  lemma FloorBetween(lo: real, x: real, hi: real, m: real)
    requires lo <= x <= hi && m > 0.0
    ensures Floor(lo / m) <= Floor(x / m) <= Floor(hi / m)
  {
    DivMono(lo, x, m);
    DivMono(x, hi, m);
  }

  lemma DivMono(a: real, b: real, m: real)
    requires a <= b && m > 0.0
    ensures a / m <= b / m
  {
  }

  /** Rounding the in-tile offset can give the page size itself: a sample
      half a pixel before the next tile reads one past the last column, that
      is, the first pixel of the following row of the same tile. */
  lemma RoundingReachesPageEdge()
    ensures Round(Rem(511.5, 512.0)) == 512
  {
    assert Floor(511.5 / 512.0) == 0;
  }

  // ---- The tile index --------------------------------------------------------------

  type TileIndex = map<int, map<int, MultiBandTile>>

  /** `tileIndex[y][x] = tile`, creating the row object when it is missing. */
  function Insert(index: TileIndex, t: MultiBandTile): TileIndex {
    var row := if t.y in index then index[t.y] else map[];
    index[t.y := row[t.x := t]]
  }

  /** `tiles.forEach(...)` filling `tileIndex`. */
  function IndexOf(tiles: seq<MultiBandTile>): TileIndex {
    if tiles == [] then map[] else Insert(IndexOf(tiles[..|tiles| - 1]), tiles[|tiles| - 1])
  }

  /** `tileIndex[tileY][tileX]`; both a missing row and a missing entry end
      `getValues` with an error. */
  function Lookup(index: TileIndex, y: int, x: int): Option<MultiBandTile> {
    if y in index && x in index[y] then Some(index[y][x]) else None
  }

  /** A lookup finds a tile exactly when one is at that position, and then
      it is the last one there. */
  lemma {:induction false} LookupIndex(tiles: seq<MultiBandTile>, y: int, x: int)
    ensures Lookup(IndexOf(tiles), y, x).Some? <==> exists i :: 0 <= i < |tiles| && tiles[i].y == y && tiles[i].x == x
    ensures Lookup(IndexOf(tiles), y, x).Some? ==> exists i :: (0 <= i < |tiles| && tiles[i].y == y && tiles[i].x == x
      && Lookup(IndexOf(tiles), y, x).value == tiles[i]
      && forall j :: i < j < |tiles| ==> !(tiles[j].y == y && tiles[j].x == x))
  {
    if tiles != [] {
      var init := tiles[..|tiles| - 1];
      LookupIndex(init, y, x);
      assert forall i :: 0 <= i < |init| ==> init[i] == tiles[i];
    }
  }

  /** With no two tiles at the same position, each tile is found at its own. */
  lemma LookupDistinct(tiles: seq<MultiBandTile>, k: nat)
    requires k < |tiles|
    requires forall i, j :: 0 <= i < j < |tiles| ==> (tiles[i].x, tiles[i].y) != (tiles[j].x, tiles[j].y)
    ensures Lookup(IndexOf(tiles), tiles[k].y, tiles[k].x) == Some(tiles[k])
  {
    LookupIndex(tiles, tiles[k].y, tiles[k].x);
    var i :| (0 <= i < |tiles| && tiles[i].y == tiles[k].y && tiles[i].x == tiles[k].x
      && Lookup(IndexOf(tiles), tiles[k].y, tiles[k].x).value == tiles[i]
      && forall j :: i < j < |tiles| ==> !(tiles[j].y == tiles[k].y && tiles[j].x == tiles[k].x));
    assert i == k;
  }

  /** The `forEach` loop building `tileIndex`. */
  method BuildIndex(tiles: seq<MultiBandTile>) returns (index: TileIndex)
    ensures index == IndexOf(tiles)
  {
    index := map[];
    for i := 0 to |tiles|
      invariant index == IndexOf(tiles[..i])
    {
      assert tiles[..i + 1][..i] == tiles[..i];
      var t := tiles[i];
      if t.y !in index {
        index := index[t.y := map[]];
      }
      index := index[t.y := index[t.y][t.x := t]];
    }
    assert tiles[..|tiles|] == tiles;
  }

  // ---- One output sample ---------------------------------------------------------

  /** `tile.pixels[b]` exists: the band was decoded. */
  predicate HasBand(t: MultiBandTile, b: nat) {
    b < |t.pixels| && t.pixels[b].Some?
  }

  /** The first band below `n` the tile lacks; reading it is a TypeError. */
  function FirstMissingBand(t: MultiBandTile, n: nat): (r: Option<nat>)
    ensures r.None? <==> forall b :: 0 <= b < n ==> HasBand(t, b)
    ensures r.Some? ==> r.value < n && !HasBand(t, r.value) && forall b :: 0 <= b < r.value ==> HasBand(t, b)
  {
    if n == 0 then None
    else
      var r := FirstMissingBand(t, n - 1);
      if r.Some? then r else if !HasBand(t, n - 1) then Some(n - 1) else None
  }

  /** The first band the loop finds missing is the first missing band. */
  lemma FirstMissingBandIs(t: MultiBandTile, n: nat, band: nat)
    requires band < n && !HasBand(t, band)
    requires forall b :: 0 <= b < band ==> HasBand(t, b)
    ensures FirstMissingBand(t, n) == Some(band)
  {
  }

  /** `pixelOffset + xInTilePixels`; `NaN` (here `None`) when the tile has no width. */
  function PixelIndex(p: Plan, t: MultiBandTile, y: real, x: real): Option<int>
    requires p.pageWidth > 0 && p.pageHeight > 0
  {
    if t.width.None? then None
    else Some(Round(Rem(y, p.pageHeight as real)) * t.width.value + Round(Rem(x, p.pageWidth as real)))
  }

  /** `pixels[pixelIndex]`: `undefined` off the array. */
  function ValueAt(pixels: seq<real>, i: Option<int>): Cell {
    if i.Some? && 0 <= i.value < |pixels| then Value(pixels[i.value]) else Undefined
  }

  /** `tile.pixels[b][pixelIndex]` for each band `b` below `n`. */
  function BandValues(t: MultiBandTile, n: nat, i: Option<int>): (r: seq<Cell>)
    requires forall b :: 0 <= b < n ==> HasBand(t, b)
    ensures |r| == n && forall b :: 0 <= b < n ==> HasBand(t, b) && r[b] == ValueAt(t.pixels[b].value, i)
  {
    seq(n, b requires 0 <= b < n => assert HasBand(t, b); ValueAt(t.pixels[b].value, i))
  }

  /** The values of every band at output row `r` and column `c`, or the
      error the sample raises: no tile under it, or a band it lacks. */
  function CellValues(p: Plan, index: TileIndex, r: nat, c: nat): (res: Result<seq<Cell>, ReadError>)
    requires p.pageWidth > 0 && p.pageHeight > 0
    ensures res.Ok? ==> |res.value| == p.numBands
  {
    var y, x := RowPos(p, r), ColPos(p, c);
    var tileY, tileX := Floor(y / p.pageHeight as real), Floor(x / p.pageWidth as real);
    var tile := Lookup(index, tileY, tileX);
    if tile.None? then Err(MissingTile(tileX, tileY))
    else
      var t := tile.value;
      var missing := FirstMissingBand(t, p.numBands);
      if missing.Some? then Err(MissingBand(missing.value))
      else
        var i := PixelIndex(p, t, y, x);
        Ok(BandValues(t, p.numBands, i))
  }

  // ---- The sampling loops --------------------------------------------------------

  /** The plan can be sampled: pages have a size and the output has one. */
  predicate Ready(p: Plan) {
    p.pageWidth > 0 && p.pageHeight > 0 && p.rows >= 0 && p.cols >= 0
  }

  /** Output sample `(r1, c1)` is visited before `(r2, c2)`: rows outside, columns inside. */
  predicate Before(r1: nat, c1: nat, r2: nat, c2: nat) {
    r1 < r2 || (r1 == r2 && c1 < c2)
  }

  /** Sample `(r, c)` fails and every sample visited before it succeeds. */
  predicate FirstFailure(p: Plan, index: TileIndex, r: nat, c: nat)
    requires Ready(p)
  {
    CellValues(p, index, r, c).Err?
    && forall r': nat, c': nat :: r' < p.rows && c' < p.cols && Before(r', c', r, c) ==> CellValues(p, index, r', c').Ok?
  }

  /** `out_data[band][row][column]` holds the value of that band at that sample. */
  ghost predicate OutputIs(p: Plan, index: TileIndex, out: array3<Cell>)
    requires Ready(p)
    reads out
  {
    out.Length0 == p.numBands && out.Length1 == p.rows && out.Length2 == p.cols
    && forall b, r, c :: 0 <= b < p.numBands && 0 <= r < p.rows && 0 <= c < p.cols ==>
      CellValues(p, index, r, c).Ok? && out[b, r, c] == CellValues(p, index, r, c).value[b]
  }

  /** What the sampling loops produce: the filled output when every sample
      succeeds, and otherwise the error of the first sample that fails. */
  ghost predicate Sampled(p: Plan, index: TileIndex, res: Result<array3<Cell>, ReadError>)
    requires Ready(p)
    reads if res.Ok? then {res.value} else {}
  {
    (res.Ok? <==> forall r: nat, c: nat :: r < p.rows && c < p.cols ==> CellValues(p, index, r, c).Ok?)
    && (res.Ok? ==> OutputIs(p, index, res.value))
    && (res.Err? ==> exists r: nat, c: nat :: r < p.rows && c < p.cols && FirstFailure(p, index, r, c)
                                          && CellValues(p, index, r, c) == Err(res.error))
  }

  /** The band loop of one sample: reads the tile under sample `(row, col)`
      and writes each band's value into `out[band][row][col]`, or reports
      the missing tile or band. Only that sample's cells change. */
  method SampleCell(p: Plan, index: TileIndex, out: array3<Cell>, row: nat, col: nat) returns (err: Option<ReadError>)
    requires Ready(p) && row < p.rows && col < p.cols
    requires out.Length0 == p.numBands && out.Length1 == p.rows && out.Length2 == p.cols
    modifies out
    ensures err.Some? <==> CellValues(p, index, row, col).Err?
    ensures err.Some? ==> CellValues(p, index, row, col) == Err(err.value)
    ensures err.None? ==> forall b :: 0 <= b < p.numBands ==> out[b, row, col] == CellValues(p, index, row, col).value[b]
    ensures forall b, r, c :: 0 <= b < out.Length0 && 0 <= r < out.Length1 && 0 <= c < out.Length2 && (r != row || c != col) ==>
      out[b, r, c] == old(out[b, r, c])
  {
    var y := RowPos(p, row);
    var tileY := Floor(y / p.pageHeight as real);
    var yInTile := Round(Rem(y, p.pageHeight as real));
    var x := ColPos(p, col);
    var tileX := Floor(x / p.pageWidth as real);
    var tile := Lookup(index, tileY, tileX);
    if tile.None? {
      return Some(MissingTile(tileX, tileY));
    }
    var t := tile.value;
    var pixelIndex := if t.width.Some? then Some(yInTile * t.width.value + Round(Rem(x, p.pageWidth as real))) else None;
    assert pixelIndex == PixelIndex(p, t, y, x);
    for band := 0 to p.numBands
      invariant forall b :: 0 <= b < band ==> HasBand(t, b) && out[b, row, col] == ValueAt(t.pixels[b].value, pixelIndex)
      invariant forall b, r, c :: 0 <= b < out.Length0 && 0 <= r < out.Length1 && 0 <= c < out.Length2 && (r != row || c != col) ==>
        out[b, r, c] == old(out[b, r, c])
    {
      if band >= |t.pixels| || t.pixels[band].None? {
        FirstMissingBandIs(t, p.numBands, band);
        return Some(MissingBand(band));
      }
      out[band, row, col] := ValueAt(t.pixels[band].value, pixelIndex);
    }
    assert CellValues(p, index, row, col) == Ok(BandValues(t, p.numBands, pixelIndex));
    err := None;
  }

  /** The loops over rows and columns of `getValues`, on an output first
      filled with `noDataValue ?? null`; the first failing sample ends them. */
  method Sample(p: Plan, index: TileIndex) returns (res: Result<array3<Cell>, ReadError>)
    requires Ready(p)
    ensures res.Ok? ==> fresh(res.value)
    ensures Sampled(p, index, res)
  {
    var out := new Cell[p.numBands, p.rows, p.cols]((b, r, c) => p.fill);
    for row := 0 to p.rows
      invariant forall r, c :: 0 <= r < row && 0 <= c < p.cols ==> CellValues(p, index, r, c).Ok?
      invariant forall b, r, c :: 0 <= b < p.numBands && 0 <= r < row && 0 <= c < p.cols ==>
        CellValues(p, index, r, c).Ok? && out[b, r, c] == CellValues(p, index, r, c).value[b]
    {
      for col := 0 to p.cols
        invariant forall r, c :: 0 <= r < p.rows && 0 <= c < p.cols && Before(r, c, row, col) ==> CellValues(p, index, r, c).Ok?
        invariant forall b, r, c :: 0 <= b < p.numBands && 0 <= r < p.rows && 0 <= c < p.cols && Before(r, c, row, col) ==>
          CellValues(p, index, r, c).Ok? && out[b, r, c] == CellValues(p, index, r, c).value[b]
      {
        var err := SampleCell(p, index, out, row, col);
        if err.Some? {
          assert FirstFailure(p, index, row, col);
          return Err(err.value);
        }
      }
    }
    res := Ok(out);
  }

  // ---- When sampling succeeds ----------------------------------------------------

  /** The fetched tiles of the window sit at distinct tile columns and rows. */
  lemma WindowTilesDistinct(p: Plan, ts: seq<MultiBandTile>)
    requires forall i, j :: 0 <= i < j < |ts| ==> PlaceOfTile(ts[i]) != PlaceOfTile(ts[j])
    requires forall i :: 0 <= i < |ts| ==> PlaceOfTile(ts[i]) in PlanCoords(p)
    ensures forall i, j :: 0 <= i < j < |ts| ==> (ts[i].x, ts[i].y) != (ts[j].x, ts[j].y)
  {
    forall i | 0 <= i < |ts|
      ensures ts[i].l == p.level
    {
      WindowHas(p.level, p.minX, p.maxX, p.minY, p.maxY, PlaceOfTile(ts[i]));
    }
  }

  /** The tiles of the window, one per place and each with every band. */
  predicate CompleteWindow(p: Plan, ts: seq<MultiBandTile>) {
    (forall i, j :: 0 <= i < j < |ts| ==> PlaceOfTile(ts[i]) != PlaceOfTile(ts[j]))
    && (forall i :: 0 <= i < |ts| ==> PlaceOfTile(ts[i]) in PlanCoords(p))
    && (forall q :: q in PlanCoords(p) ==> exists i :: 0 <= i < |ts| && PlaceOfTile(ts[i]) == q)
    && (forall i, b :: 0 <= i < |ts| && 0 <= b < p.numBands ==> HasBand(ts[i], b))
  }

  /** Over a complete window, a sample finds its tile and all of its bands. */
  lemma SampleFound(p: Plan, ts: seq<MultiBandTile>, r: nat, c: nat)
    requires WellFormed(p) && CompleteWindow(p, ts)
    requires p.bottomEdge >= p.top && p.rightEdge >= p.left && r < p.rows && c < p.cols
    ensures CellValues(p, IndexOf(ts), r, c).Ok?
  {
    SamplesInWindow(p, r, c);
    var tileY := Floor(RowPos(p, r) / p.pageHeight as real);
    var tileX := Floor(ColPos(p, c) / p.pageWidth as real);
    var place := Place(p.level, tileX, tileY);
    WindowHas(p.level, p.minX, p.maxX, p.minY, p.maxY, place);
    assert place in PlanCoords(p);
    var i :| 0 <= i < |ts| && PlaceOfTile(ts[i]) == place;
    WindowTilesDistinct(p, ts);
    LookupDistinct(ts, i);
  }

  /** A strict LERC fetch of the window's tiles, when it succeeds, is complete. */
  lemma StrictWindowComplete(meta: Meta, idx: seq<IndexStore.Record>, source: DataSource, opts: Options,
                             cache: map<string, Bytes>, decode: Bytes -> Option<Decoded>, p: Plan)
    requires p.numBands == meta.numBands && meta.numBands > 0
    requires opts.strict && meta.compression == Some("LERC")
    ensures var got := GetMultiBandTilesSpec(meta, idx, source, opts, cache, PlanCoords(p), None, decode).0;
      got.Ok? ==> CompleteWindow(p, got.value)
  {
    var got := GetMultiBandTilesSpec(meta, idx, source, opts, cache, PlanCoords(p), None, decode).0;
    MultiBandCovers(meta, idx, source, opts, cache, PlanCoords(p), None, decode);
    MultiBandStrictComplete(meta, idx, source, opts, cache, PlanCoords(p), None, decode);
    if got.Ok? {
      forall i, b | 0 <= i < |got.value| && 0 <= b < p.numBands
        ensures HasBand(got.value[i], b)
      {
        assert Range(meta.numBands)[b] == b;
      }
    }
  }

  /** A strict LERC read over a non-empty trimmed area cannot fail in the
      sampling loops: every sample finds its tile and all of its bands. */
  lemma StrictSamplingSucceeds(meta: Meta, idx: seq<IndexStore.Record>, source: DataSource, opts: Options,
                               cache: map<string, Bytes>, decode: Bytes -> Option<Decoded>, p: Plan)
    requires WellFormed(p) && p.numBands == meta.numBands && meta.numBands > 0
    requires opts.strict && meta.compression == Some("LERC")
    requires p.bottomEdge >= p.top && p.rightEdge >= p.left
    ensures var got := GetMultiBandTilesSpec(meta, idx, source, opts, cache, PlanCoords(p), None, decode).0;
      got.Ok? ==> forall r: nat, c: nat :: r < p.rows && c < p.cols ==> CellValues(p, IndexOf(got.value), r, c).Ok?
  {
    var got := GetMultiBandTilesSpec(meta, idx, source, opts, cache, PlanCoords(p), None, decode).0;
    StrictWindowComplete(meta, idx, source, opts, cache, decode, p);
    if got.Ok? {
      forall r: nat, c: nat | r < p.rows && c < p.cols
        ensures CellValues(p, IndexOf(got.value), r, c).Ok?
      {
        SampleFound(p, got.value, r, c);
      }
    }
  }
}
