/** Pyramid geometry of an MRF raster, as computed after the attributes have
    been read (src/core/parse-mrf.js:157-205 and src/parseMRF.js:154-190):
    pages across, down and deep, the total page count of the full-resolution
    level, the pixel/band order, and the overview levels, each shrunk from
    the one before by the pyramid scale and stacked after it in the index. */
module Pyramid {
  import opened Common
  import opened Numbers

  /** The extracted `<Raster>` attributes: `Size` x/y/z/c and `PageSize` x/y/z/c. */
  datatype Raster = Raster(
    width: nat, height: nat, depth: nat, numBands: nat,
    pageWidth: nat, pageHeight: nat, pageDepth: nat, pageBands: nat)

  /** Page dimensions are positive and the bands split into whole pages. */
  predicate Valid(r: Raster) {
    r.pageWidth > 0 && r.pageHeight > 0 && r.pageDepth > 0 && r.pageBands > 0
    && r.numBands % r.pageBands == 0
  }

  /** `numBands / pageBands`: how many pages one tile position takes. */
  function BandPages(r: Raster): nat
    requires Valid(r)
  {
    r.numBands / r.pageBands
  }

  function PagesDeep(r: Raster): nat
    requires Valid(r)
  {
    CeilDiv(r.depth, r.pageDepth)
  }

  /** `getAttributeAsFloat(size, "z") ?? 1`: a missing attribute (`None`)
      means one; any value that is present, even `0` or `NaN`, is kept. */
  function DepthOrDefault(attr: Option<JsNum>): (n: JsNum)
    ensures attr.None? ==> n == Finite(1.0)
    ensures attr.Some? ==> n == attr.value
  {
    if attr.Some? then attr.value else Finite(1.0)
  }

  /** `Number.parseFloat(getAttribute(size, 'z')) || 1` of src/parseMRF.js: a
      missing attribute parses to `NaN`, and every falsy number becomes one. */
  function DepthOrDefaultLegacy(attr: Option<JsNum>): (n: JsNum)
    ensures Truthy(n)
    ensures attr.Some? && Truthy(attr.value) ==> n == attr.value
    ensures attr.None? || !Truthy(attr.value) ==> n == Finite(1.0)
  {
    if attr.Some? && Truthy(attr.value) then attr.value else Finite(1.0)
  }

  /** The two versions read the same depth exactly when the attribute is
      missing or truthy; they differ on an explicit `0` or a non-number. */
  lemma DepthDefaultsAgree(attr: Option<JsNum>)
    ensures DepthOrDefault(attr) == DepthOrDefaultLegacy(attr) <==> attr.None? || Truthy(attr.value)
  {
  }

  /** Overviews are computed only `if (rsets && scale)`: the `Rsets` element
      exists and its `scale` attribute is a truthy number. The attribute is
      taken to be a non-negative finite number or `NaN`. */
  function OverviewScale(rsets: bool, scale: Option<JsNum>): (s: Option<real>)
    requires scale.Some? ==> scale.value == NaN || (scale.value.Finite? && scale.value.value >= 0.0)
    ensures s.Some? <==> rsets && scale.Some? && Truthy(scale.value)
    ensures s.Some? ==> s.value > 0.0 && scale.value == Finite(s.value)
  {
    if rsets && scale.Some? && scale.value.Finite? && scale.value.value != 0.0 then Some(scale.value.value) else None
  }

  datatype Order = Pixel | Band

  /** The full-resolution layout: `widthInTiles`, `heightInTiles`, the pages
      deep, `numberTotalPages` and `order`. */
  datatype Layout = Layout(widthInTiles: nat, heightInTiles: nat, pagesDeep: nat, totalPages: nat, order: Order)

  function LayoutOf(r: Raster): (g: Layout)
    requires Valid(r)
    ensures r.pageWidth * g.widthInTiles >= r.width
    ensures g.widthInTiles > 0 ==> r.pageWidth * (g.widthInTiles - 1) < r.width
    ensures r.pageHeight * g.heightInTiles >= r.height
    ensures g.heightInTiles > 0 ==> r.pageHeight * (g.heightInTiles - 1) < r.height
    ensures g.pagesDeep == PagesDeep(r)
    ensures g.totalPages == PageCount(g.widthInTiles, g.heightInTiles, g.pagesDeep, BandPages(r))
    ensures g.order == Pixel <==> r.numBands == r.pageBands
  {
    CeilDivCovers(r.width, r.pageWidth);
    CeilDivCovers(r.height, r.pageHeight);
    var across := CeilDiv(r.width, r.pageWidth);
    var down := CeilDiv(r.height, r.pageHeight);
    Layout(across, down, PagesDeep(r), PageCount(across, down, PagesDeep(r), BandPages(r)),
           if r.numBands == r.pageBands then Pixel else Band)
  }

  /** Pages across times pages down times pages deep times band pages. */
  function PageCount(across: nat, down: nat, deep: nat, bands: nat): nat {
    across * down * deep * bands
  }

  /** One entry of `overviews`; the two scales are `height / h` and `width / w`. */
  datatype Overview = Overview(
    height: nat, heightInPages: nat, pages: nat, offset: nat,
    width: nat, widthInPages: nat, scaleHeight: JsNum, scaleWidth: JsNum)

  /** The overview of `w` by `h` pixels that starts at slot `offset`. */
  function LevelAt(r: Raster, w: nat, h: nat, offset: nat): (o: Overview)
    requires Valid(r)
    ensures o.width == w && o.height == h && o.offset == offset
    ensures o.widthInPages == CeilDiv(w, r.pageWidth) && o.heightInPages == CeilDiv(h, r.pageHeight)
    ensures o.pages == PageCount(o.widthInPages, o.heightInPages, PagesDeep(r), BandPages(r))
    ensures o.scaleHeight == Div(r.height as real, h as real)
    ensures o.scaleWidth == Div(r.width as real, w as real)
  {
    var across := CeilDiv(w, r.pageWidth);
    var down := CeilDiv(h, r.pageHeight);
    Overview(h, down, PageCount(across, down, PagesDeep(r), BandPages(r)), offset, w, across,
             Div(r.height as real, h as real), Div(r.width as real, w as real))
  }

  /** `Math.round(x / scale)`. */
  function Shrink(x: nat, scale: real): nat
    requires scale > 0.0
  {
    assert x as real / scale >= 0.0;
    Round(x as real / scale)
  }

  /** The loop guard: the level still exceeds one page in some direction. */
  predicate Exceeds(r: Raster, w: nat, h: nat) {
    w > r.pageWidth || h > r.pageHeight
  }

  /** The loop of the source runs forever from here on. */
  datatype PyramidError = Diverges

  /** The overviews the loop pushes, starting from a `w` by `h` level whose
      successor begins at slot `offset`. The loop of the source ends only when
      a level fits; where the next level is no smaller, it never ends, and the
      result is `Diverges` (see StuckForever). */
  function OverviewsFrom(r: Raster, scale: real, w: nat, h: nat, offset: nat): Result<seq<Overview>, PyramidError>
    requires Valid(r) && scale > 0.0
    decreases w + h
  {
    if !Exceeds(r, w, h) then Ok([])
    else
      var w', h' := Shrink(w, scale), Shrink(h, scale);
      if w' + h' >= w + h then Err(Diverges)
      else
        var o := LevelAt(r, w', h', offset);
        Prepend(o, OverviewsFrom(r, scale, w', h', offset + o.pages))
  }

  function Prepend(o: Overview, rest: Result<seq<Overview>, PyramidError>): Result<seq<Overview>, PyramidError> {
    if rest.Ok? then Ok([o] + rest.value) else rest
  }

  /** All overviews of a raster: the first one starts right after the
      `totalPages` slots of the full-resolution level. */
  function Overviews(r: Raster, scale: real): Result<seq<Overview>, PyramidError>
    requires Valid(r) && scale > 0.0
  {
    OverviewsFrom(r, scale, r.width, r.height, LayoutOf(r).totalPages)
  }

  /** `overviews.reduce((total, { pages }) => total + pages, numberTotalPages)`. */
  function SumPages(ovs: seq<Overview>, init: nat): nat {
    if ovs == [] then init else SumPages(ovs[..|ovs| - 1], init) + ovs[|ovs| - 1].pages
  }

  function Append(ovs: seq<Overview>, rest: Result<seq<Overview>, PyramidError>): Result<seq<Overview>, PyramidError> {
    if rest.Ok? then Ok(ovs + rest.value) else rest
  }

  lemma AppendNothing(rest: Result<seq<Overview>, PyramidError>)
    ensures Append([], rest) == rest
  {
    if rest.Ok? {
      assert [] + rest.value == rest.value;
    }
  }

  lemma AppendPrepend(ovs: seq<Overview>, o: Overview, rest: Result<seq<Overview>, PyramidError>)
    ensures Append(ovs, Prepend(o, rest)) == Append(ovs + [o], rest)
  {
    if rest.Ok? {
      assert ovs + ([o] + rest.value) == ovs + [o] + rest.value;
    }
  }

  /** The overview loop: `w` and `h` shrink by `scale` until the level fits in
      one page, and each level is pushed with its slot offset. */
  method ComputeOverviews(r: Raster, scale: real) returns (res: Result<seq<Overview>, PyramidError>)
    requires Valid(r) && scale > 0.0
    ensures res == Overviews(r, scale)
  {
    var total := LayoutOf(r).totalPages;
    var overviews: seq<Overview> := [];
    var w: nat, h: nat := r.width, r.height;
    AppendNothing(Overviews(r, scale));
    while w > r.pageWidth || h > r.pageHeight
      invariant Overviews(r, scale) == Append(overviews, OverviewsFrom(r, scale, w, h, SumPages(overviews, total)))
      decreases w + h
    {
      var w' := Shrink(w, scale);
      var h' := Shrink(h, scale);
      if w' + h' >= w + h {
        return Err(Diverges);
      }
      var offset := SumPages(overviews, total);
      var o := LevelAt(r, w', h', offset);
      ghost var rest := OverviewsFrom(r, scale, w', h', offset + o.pages);
      assert OverviewsFrom(r, scale, w, h, offset) == Prepend(o, rest);
      AppendPrepend(overviews, o, rest);
      assert SumPages(overviews + [o], total) == offset + o.pages by {
        assert (overviews + [o])[..|overviews|] == overviews;
      }
      w, h := w', h';
      overviews := overviews + [o];
    }
    assert overviews + [] == overviews;
    return Ok(overviews);
  }

  // ---- Properties of the overview levels -------------------------------------

  /** The first overview starts at `offset`, and each later one right after
      the pages of the one before it. */
  lemma {:induction false} OffsetsAccumulate(r: Raster, scale: real, w: nat, h: nat, offset: nat)
    requires Valid(r) && scale > 0.0
    requires OverviewsFrom(r, scale, w, h, offset).Ok?
    ensures var ovs := OverviewsFrom(r, scale, w, h, offset).value;
      (|ovs| > 0 ==> ovs[0].offset == offset)
      && forall k :: 0 < k < |ovs| ==> ovs[k].offset == ovs[k - 1].offset + ovs[k - 1].pages
    decreases w + h
  {
    if Exceeds(r, w, h) {
      var w', h' := Shrink(w, scale), Shrink(h, scale);
      var o := LevelAt(r, w', h', offset);
      OffsetsAccumulate(r, scale, w', h', offset + o.pages);
      var rest := OverviewsFrom(r, scale, w', h', offset + o.pages).value;
      var ovs := [o] + rest;
      assert forall k :: 0 < k < |ovs| ==> ovs[k] == rest[k - 1];
    }
  }

  /** Every overview is the previous level divided by `scale` and rounded, and
      its page counts follow from its size. */
  lemma {:induction false} LevelsShrink(r: Raster, scale: real, w: nat, h: nat, offset: nat)
    requires Valid(r) && scale > 0.0
    requires OverviewsFrom(r, scale, w, h, offset).Ok?
    ensures var ovs := OverviewsFrom(r, scale, w, h, offset).value;
      (|ovs| > 0 ==> ovs[0].width == Shrink(w, scale) && ovs[0].height == Shrink(h, scale))
      && (forall k :: 0 < k < |ovs| ==>
            ovs[k].width == Shrink(ovs[k - 1].width, scale) && ovs[k].height == Shrink(ovs[k - 1].height, scale))
      && (forall k :: 0 <= k < |ovs| ==>
            ovs[k].widthInPages == CeilDiv(ovs[k].width, r.pageWidth)
            && ovs[k].heightInPages == CeilDiv(ovs[k].height, r.pageHeight)
            && ovs[k].pages == PageCount(ovs[k].widthInPages, ovs[k].heightInPages, PagesDeep(r), BandPages(r)))
    decreases w + h
  {
    if Exceeds(r, w, h) {
      var w', h' := Shrink(w, scale), Shrink(h, scale);
      var o := LevelAt(r, w', h', offset);
      LevelsShrink(r, scale, w', h', offset + o.pages);
      var rest := OverviewsFrom(r, scale, w', h', offset + o.pages).value;
      var ovs := [o] + rest;
      assert forall k :: 0 < k < |ovs| ==> ovs[k] == rest[k - 1];
    }
  }

  /** The loop stops at the first level that fits in one page: the last
      overview fits and every earlier one does not. No overview is made when
      the full-resolution level already fits. */
  lemma {:induction false} StopsAtFirstFit(r: Raster, scale: real, w: nat, h: nat, offset: nat)
    requires Valid(r) && scale > 0.0
    requires OverviewsFrom(r, scale, w, h, offset).Ok?
    ensures var ovs := OverviewsFrom(r, scale, w, h, offset).value;
      (|ovs| == 0 <==> !Exceeds(r, w, h))
      && (|ovs| > 0 ==> !Exceeds(r, ovs[|ovs| - 1].width, ovs[|ovs| - 1].height))
      && (forall k :: 0 <= k < |ovs| - 1 ==> Exceeds(r, ovs[k].width, ovs[k].height))
    decreases w + h
  {
    if Exceeds(r, w, h) {
      var w', h' := Shrink(w, scale), Shrink(h, scale);
      var o := LevelAt(r, w', h', offset);
      StopsAtFirstFit(r, scale, w', h', offset + o.pages);
      var rest := OverviewsFrom(r, scale, w', h', offset + o.pages).value;
      var ovs := [o] + rest;
      assert forall k :: 0 < k < |ovs| ==> ovs[k] == rest[k - 1];
      if rest != [] {
        assert ovs[|ovs| - 1] == rest[|rest| - 1];
      }
    }
  }

  /** The full-resolution pages and all overview pages together: the number
      of slots the index must hold, which is also where a further level would start. */
  lemma {:induction false} TotalSlots(r: Raster, scale: real, w: nat, h: nat, offset: nat)
    requires Valid(r) && scale > 0.0
    requires OverviewsFrom(r, scale, w, h, offset).Ok?
    ensures var ovs := OverviewsFrom(r, scale, w, h, offset).value;
      |ovs| > 0 ==> SumPages(ovs, offset) == ovs[|ovs| - 1].offset + ovs[|ovs| - 1].pages
    decreases w + h
  {
    if Exceeds(r, w, h) {
      var w', h' := Shrink(w, scale), Shrink(h, scale);
      var o := LevelAt(r, w', h', offset);
      var rest := OverviewsFrom(r, scale, w', h', offset + o.pages).value;
      TotalSlots(r, scale, w', h', offset + o.pages);
      SumPagesCons(o, rest, offset);
      if rest == [] {
        assert SumPages(rest, offset + o.pages) == offset + o.pages;
      } else {
        assert ([o] + rest)[|rest|] == rest[|rest| - 1];
      }
    }
  }

  /** The fold taken from the front: the first level's pages go in first. */
  lemma {:induction false} SumPagesCons(o: Overview, rest: seq<Overview>, init: nat)
    ensures SumPages([o] + rest, init) == SumPages(rest, init + o.pages)
    decreases |rest|
  {
    if rest == [] {
      assert ([o] + rest)[..0] == [];
    } else {
      var p := rest[..|rest| - 1];
      assert ([o] + rest)[..|rest|] == [o] + p;
      SumPagesCons(o, p, init);
    }
  }

  // ---- Termination -----------------------------------------------------------

  lemma ShrinkNoLarger(x: nat, scale: real)
    requires scale >= 1.0
    ensures Shrink(x, scale) <= x
  {
    var y := x as real / scale;
    DivMul(x as real, scale);
    assert y * scale == x as real;
    if x > 0 {
      MulLeReal(1.0, scale, y);
    }
  }

  lemma ShrinkNoSmaller(x: nat, scale: real)
    requires 0.0 < scale <= 1.0
    ensures Shrink(x, scale) >= x
  {
    var y := x as real / scale;
    if x > 0 {
      DivAtMostOne(x as real, scale);
      assert x as real <= y;
      var r := Round(y);
      assert r as real > x as real - 0.5;
      assert r > x - 1;
    }
  }

  /** Where the model reports `Diverges`, the source really loops forever:
      the guard still holds at the next level, and the level after that is
      no smaller either. */
  lemma StuckForever(r: Raster, scale: real, w: nat, h: nat)
    requires Valid(r) && scale > 0.0
    requires Exceeds(r, w, h) && Shrink(w, scale) + Shrink(h, scale) >= w + h
    ensures Exceeds(r, Shrink(w, scale), Shrink(h, scale))
    ensures Shrink(Shrink(w, scale), scale) + Shrink(Shrink(h, scale), scale) >= Shrink(w, scale) + Shrink(h, scale)
  {
    var w', h' := Shrink(w, scale), Shrink(h, scale);
    if scale >= 1.0 {
      ShrinkNoLarger(w, scale);
      ShrinkNoLarger(h, scale);
      assert w' == w && h' == h;
    } else {
      ShrinkNoSmaller(w, scale);
      ShrinkNoSmaller(h, scale);
      ShrinkNoSmaller(w', scale);
      ShrinkNoSmaller(h', scale);
    }
  }

  /** Above one page, a scale of at least 2 makes a side strictly smaller. */
  lemma ShrinkHalves(x: nat, scale: real)
    requires scale >= 2.0 && x >= 2
    ensures Shrink(x, scale) < x
  {
    var y := x as real / scale;
    DivMul(x as real, scale);
    assert y * scale == x as real;
    MulLeReal(2.0, scale, y);
    assert 2.0 * y <= x as real;
  }

  /** With a scale of 2 or more the loop always ends. */
  lemma {:induction false} ScaleAtLeastTwoTerminates(r: Raster, scale: real, w: nat, h: nat, offset: nat)
    requires Valid(r) && scale >= 2.0
    ensures OverviewsFrom(r, scale, w, h, offset).Ok?
    decreases w + h
  {
    if Exceeds(r, w, h) {
      var w', h' := Shrink(w, scale), Shrink(h, scale);
      ShrinkNoLarger(w, scale);
      ShrinkNoLarger(h, scale);
      if w > r.pageWidth {
        ShrinkHalves(w, scale);
      } else {
        ShrinkHalves(h, scale);
      }
      var o := LevelAt(r, w', h', offset);
      ScaleAtLeastTwoTerminates(r, scale, w', h', offset + o.pages);
    }
  }

  /** A scale of 1.3 with one-pixel pages sticks at a width of 2: `round(2 / 1.3)` is 2. */
  lemma FixpointExample()
    ensures Overviews(Raster(2, 1, 1, 1, 1, 1, 1, 1), 1.3) == Err(Diverges)
  {
    ShrinkIs(2, 1.3, 2);
    ShrinkIs(1, 1.3, 1);
  }

  /** `Math.round(x / scale)` is `y` when `x` lies within half a `scale` of `y * scale`. */
  lemma ShrinkIs(x: nat, scale: real, y: int)
    requires scale > 0.0
    requires (y as real - 0.5) * scale <= x as real < (y as real + 0.5) * scale
    ensures Shrink(x, scale) == y
  {
    var q := x as real / scale;
    DivMul(x as real, scale);
    if q < y as real - 0.5 {
      MulLtReal(q, y as real - 0.5, scale);
    }
    if q >= y as real + 0.5 {
      MulLeReal(y as real + 0.5, q, scale);
    }
    assert y as real - 0.5 <= q < y as real + 0.5;
    assert Shrink(x, scale) == Round(q);
  }

  // ---- The sample file of the test suite -------------------------------------

  /** test data m_3008501_ne_16_1_20171018.mrf: 6638 x 7587 pixels, 4 bands in
      single-band 512 x 512 pages, scale 2. */
  function SampleRaster(): Raster { Raster(6638, 7587, 1, 4, 512, 512, 1, 1) }

  lemma SampleLayout()
    ensures LayoutOf(SampleRaster()) == Layout(13, 15, 1, 780, Band)
  {
    var r := SampleRaster();
    CeilDivExact(6638, 512, 13);
    CeilDivExact(7587, 512, 15);
    CeilDivExact(1, 1, 1);
    assert BandPages(r) == 4;
  }

  lemma SampleOverviews()
    ensures Overviews(SampleRaster(), 2.0) == Ok([
      LevelAt(SampleRaster(), 3319, 3794, 780),
      LevelAt(SampleRaster(), 1660, 1897, 1004),
      LevelAt(SampleRaster(), 830, 949, 1068),
      LevelAt(SampleRaster(), 415, 475, 1084)])
    ensures LevelAt(SampleRaster(), 3319, 3794, 780).pages == 224
    ensures LevelAt(SampleRaster(), 1660, 1897, 1004).pages == 64
    ensures LevelAt(SampleRaster(), 830, 949, 1068).pages == 16
    ensures LevelAt(SampleRaster(), 415, 475, 1084).pages == 4
    ensures 780 + 224 + 64 + 16 + 4 == 1088
  {
    var r := SampleRaster();
    SampleLayout();
    ShrinkIs(6638, 2.0, 3319);
    ShrinkIs(7587, 2.0, 3794);
    ShrinkIs(3319, 2.0, 1660);
    ShrinkIs(3794, 2.0, 1897);
    ShrinkIs(1660, 2.0, 830);
    ShrinkIs(1897, 2.0, 949);
    ShrinkIs(830, 2.0, 415);
    ShrinkIs(949, 2.0, 475);
    CeilDivExact(3319, 512, 7);
    CeilDivExact(3794, 512, 8);
    CeilDivExact(1660, 512, 4);
    CeilDivExact(1897, 512, 4);
    CeilDivExact(830, 512, 2);
    CeilDivExact(949, 512, 2);
    CeilDivExact(415, 512, 1);
    CeilDivExact(475, 512, 1);
    CeilDivExact(1, 1, 1);
    var o1 := LevelAt(r, 3319, 3794, 780);
    var o2 := LevelAt(r, 1660, 1897, 1004);
    var o3 := LevelAt(r, 830, 949, 1068);
    var o4 := LevelAt(r, 415, 475, 1084);
    assert o1.pages == 224 && o2.pages == 64 && o3.pages == 16 && o4.pages == 4;
    assert OverviewsFrom(r, 2.0, 415, 475, 1088) == Ok([]);
    assert [o4] + [] == [o4];
    assert OverviewsFrom(r, 2.0, 830, 949, 1084) == Ok([o4]);
    assert [o3] + [o4] == [o3, o4];
    assert [o2] + [o3, o4] == [o2, o3, o4];
    assert [o1] + [o2, o3, o4] == [o1, o2, o3, o4];
    assert OverviewsFrom(r, 2.0, 1660, 1897, 1068) == Ok([o3, o4]);
    assert OverviewsFrom(r, 2.0, 3319, 3794, 1004) == Ok([o2, o3, o4]);
    assert OverviewsFrom(r, 2.0, 6638, 7587, 780) == Ok([o1, o2, o3, o4]);
  }
}
