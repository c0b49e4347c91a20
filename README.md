# MRF reader core, modelled in Dafny

This project models the core of a JavaScript reader for MRF (Meta Raster
Format) tiled raster pyramids. An MRF raster is three pieces:

- a `.mrf` description: raster size, page (tile) size, bands, compression, pyramid scale, options;
- an `.idx` index: one big-endian `(offset, length)` pair of unsigned 64-bit integers per tile slot;
- a data file holding the compressed tiles.

The model covers what the reader does between "extracted attributes plus
index bytes" and "which bytes belong to which tile, and which tile feeds
which output sample":

- `common.dfy`: optional values, results with an error case, bytes, and
  `ArrayBuffer.prototype.slice`.
- `numbers.dfy`: the JavaScript number behaviour the reader relies on, over
  exact reals:
  - division that yields `Infinity` or `NaN` on a zero divisor;
  - comparisons that are false on `NaN`;
  - truthiness;
  - `Math.floor`, `Math.round` and `Math.ceil` of a ratio;
  - the remainder operator.
- `text.dfy`: decimal printing of naturals, and one-character `split`/`join`.
- `sorting.dfy`: the stable `Array.prototype.sort` with a numeric key. It is
  specified as an insertion sort on sequences, which is also run in place
  on an array.
- `clustering.dfy`: range clustering. It has two versions:
  - `src/utils/cluster.js` sorts a copy by `end`;
  - `src/cluster.js` sorts the caller's array in place by `start`.

  Both then merge byte-adjacent ranges into runs.
- `index_store.dfy`: the index decoders.
  - `src/core/parse-idx.js` warns on values of 2^53 or more.
  - `src/parseIDX.js` does not warn.

  Both go through the MSB-first bit string that `binarize` builds, and are proved against a big-endian encoder.
- `metadata.dfy`:
  - `clean` (CDATA stripping, plus `&quot;` unescaping in the newer version);
  - `Number.parseFloat`: leading white space, one sign, `Infinity`, and decimals with an optional exponent;
  - the `Options` string, split into a list (newer version) or into a key/value map (older version);
  - the TWMS `Time` split.
- `pyramid.dfy`:
  - the full-resolution layout: pages across, down and deep, the page count, and `order`;
  - the depth defaults;
  - the overview loop: round-half-up shrinking by the pyramid scale and accumulated slot offsets.

  The loop's possible divergence is an explicit error value.
- `tiles.dfy`:
  - the tile cache key;
  - the level and slot of a band-aware tile coordinate;
  - the tile record with its inclusive byte end;
  - the cumulative-length slicing of a fetched buffer, in multipart mode and in cluster mode.
- `fetch.dfy`: the phases of `getTiles`:
  - cache lookup;
  - the multipart fill of the tiles and the cache;
  - the cluster fill;
  - LERC decoding, strict and lenient.

  Each phase is a method that updates the tiles array in place, proved against a function, and the functions are composed into `GetTilesSpec`.
- `multiband.dfy`: `getMultiBandTiles`:
  - band expansion;
  - grouping of the single-band tiles by `(l, x, y)`;
  - merging of their pixels into multi-band tiles.
- `sampling.dfy`: `getValues`:
  - overview selection;
  - the tile window;
  - the tile index;
  - the nested sampling loops that fill a band × row × column output.
- `hash.dfy`: the signed 32-bit string hash of `src/utils/hash.js`.
- `reader.dfy`: the `MRF` class, whose mutable state is the tile cache. Its
  methods `GetTiles`, `GetMultiBandTiles` and `GetValues` are proved
  against the specification functions above.

The codec (`Lerc.decode`) is a function parameter returning bands of pixels
and a size. The data file is a byte sequence. The answer to one range
request is the bytes of that range. The answer to a multi-range request is
taken to be the bytes of those ranges back to back: that is how the source
slices it (src/MRF.js:469-481); see "Left out".

## Model

| member | source | states |
|---|---|---|
| Clustering.Merge | src/utils/cluster.js:9-23 | A non-empty input gives at least one run and never more runs than objects. |
| Clustering.MergeFlatten | src/utils/cluster.js:13-23 | Concatenating the runs' `objs` gives back the input exactly, in order, so every object is in exactly one run. |
| Clustering.MergeWellFormed | src/utils/cluster.js:16-21 | Each run is well formed: non-empty; it starts at its first member's `start` and ends at its last member's `end`; each member starts at the previous member's `end + 1`. The next run's first member does not start at the previous run's `end + 1`. |
| Clustering.MergeCorrect | src/cluster.js:12-22 | The older loop also keeps every object in order and produces well-formed runs. |
| Clustering.MergeUnique | src/cluster.js:12-22 | Any in-order cut of the input into well-formed runs is the merge itself, so the runs are determined by the adjacency rule. |
| Clustering.MergeCount | src/cluster.js:15-21 | A new run opens exactly where an object does not start right after the current run's end: runs = 1 + such breaks. The last run ends at the last object's `end`. |
| Clustering.MergeStartsAscending | src/cluster.js:6-22 | On input sorted by `start`, run starts are non-decreasing and none exceeds the last object's start. |
| Clustering.MergeSorted | src/utils/cluster.js:9-24 | The shared loop: an empty input is an error (the source reads `.start` of `undefined`); otherwise the result is the merge of the input. |
| Clustering.Cluster | src/utils/cluster.js:5-25 | The result is the merge of the stable sort by `end` of a copy, and the caller's sequence is a value the call cannot change. The flattened runs are that sorted copy, and they are well formed. Empty input is an error. |
| Clustering.ClusterInPlace | src/cluster.js:4-24 | The caller's array is reordered in place into the stable sort by `start` of its old contents. The runs flatten to the new array contents and are well formed. Empty input is an error. |
| Clustering.TestClustering | tests/test.clustering.js:4-15 | `[{10,15},{16,52},{3,7}]` clusters to exactly `[{3,7,[{3,7}]},{10,52,[{10,15},{16,52}]}]`. |
| Common.SliceOfSlice | src/MRF.js:476 | Slicing a slice is one slice of the original at the summed offsets. |
| Sorting.InsertInPlace | src/cluster.js:6 | One insertion step puts the array's element `i` into its sorted prefix, as `InsertBy` does, and leaves the rest of the array alone. |
| Text.NatToString | src/MRF.js:96 | The decimal spelling is non-empty, all digits, and has no leading zero. |
| Text.Split | src/core/parse-mrf.js:197 | `split` gives at least one piece, and no piece holds the separator. |
| Metadata.Unescape | src/core/parse-mrf.js:18 | Replacing `&quot;` never lengthens the text. |
| Sorting.SortByPermutation | src/MRF.js:425 | Sorting by a key is a permutation: the multiset of elements is unchanged. |
| Sorting.SortBySorted | src/MRF.js:425 | The sorted sequence is non-decreasing by the key. |
| Sorting.SortByStable | src/MRF.js:425 | For every key value, the elements with that key keep their input order. |
| Sorting.SortInPlace | src/cluster.js:6 | The array afterwards holds the stable key sort of its old contents. |
| Common.Slice | src/MRF.js:513 | `slice(from, to)` gives the sub-range when it is inside the buffer. Either bound past the end is clamped to the length. |
| Text.DigitsValueOfNatToString | src/utils/hash.js:6 | `n.toString()` spells `n` in decimal: reading the digits back gives `n`. |
| Text.NatToStringInjective | src/MRF.js:96 | Different numbers print differently. |
| Text.JoinSplit | src/core/parse-mrf.js:197 | Joining the pieces of `split(sep)` with `sep` gives back the string. |
| Text.SplitJoin | src/parseMRF.js:196 | Splitting a join of separator-free pieces gives back the pieces. |
| Numbers.Div | src/MRF.js:152-155 | The quotient is finite exactly when the divisor is non-zero, and then times the divisor it gives the dividend. It is `NaN` exactly for `0 / 0`. |
| Numbers.Floor | src/MRF.js:192-203 | `Math.floor(x)` is the integer `r` with `r <= x < r + 1`. |
| Numbers.Round | src/core/parse-mrf.js:171-172 | `Math.round(x)` lies in `(x - 1/2, x + 1/2]`, so halves round up. |
| Numbers.Mod | src/MRF.js:255 | For `x >= 0` the remainder lies in `[0, m)`, and `x` is `floor(x / m) * m` plus the remainder. |
| Numbers.CeilDivCovers | src/core/parse-mrf.js:160-161 | `Math.ceil(a / d)` is the least number of `d`-sized pages covering `a`, and it is 0 only for `a = 0`. |
| Numbers.CeilDivExact | src/core/parse-mrf.js:174-175 | Any `m` such that `m` pages cover `a` and `m - 1` do not is `Math.ceil(a / d)`. |
| IndexStore.IndexOf | src/core/parse-idx.js:6 | `indexOf("1")`: the first position holding the character, or -1 exactly when none does. |
| IndexStore.ParseIntegerSpec | src/core/parse-idx.js:5-13 | The value is `NaN` exactly for an empty field, and otherwise is the base-2 value of the bits. The warning fires exactly when a `1` lies in the first `MAX_SAFE_BITS` = 11 positions. |
| IndexStore.WarnsIffUnsafe | src/core/parse-idx.js:3-7 | For a 64-bit field, the warning fires exactly when the value is at least 2^53. |
| IndexStore.ZeroFieldNoWarning | src/core/parse-idx.js:6-7 | An all-zero field decodes to 0 with no warning. |
| IndexStore.ParseIdx | src/core/parse-idx.js:15-54 | The records are those of the bit string in buffer order. The offset and then the length warning of each record are logged in order. |
| IndexStore.ParseBits | src/core/parse-idx.js:43-49 | The stepping loop over the bit string produces those records and warnings. |
| IndexStore.ParseIdxLegacy | src/parseIDX.js:8-47 | The older decoder returns the same records as the newer one for every input, with no warning. |
| IndexStore.ParseBitsLegacy | src/parseIDX.js:36-42 | The older stepping loop produces the records of the bit string. |
| IndexStore.RecordCount | src/core/parse-idx.js:45-49 | There are `ceil(byteLength / 16)` records, which is `byteLength / 16` when the length is a multiple of 16. |
| IndexStore.BinValueBinarize | src/core/parse-idx.js:31 | The bit string of a buffer spells that buffer's big-endian value. |
| IndexStore.RecordFields | src/core/parse-idx.js:46-47 | Record `k` of a full record is the big-endian value of bytes `16k..16k+7` (offset) and of bytes `16k+8..16k+15` (length). |
| IndexStore.TruncatedRecord | src/core/parse-idx.js:45-48 | A trailing record of at most 8 bytes has an offset but a `NaN` length. |
| IndexStore.OffsetAt | src/core/parse-idx.js:46 | The offset of a full record `k` is the big-endian value of bytes `16k..16k+7`. |
| IndexStore.LengthAt | src/core/parse-idx.js:47 | The length of a full record `k` is the big-endian value of bytes `16k+8..16k+15`. |
| IndexStore.RoundTrip | src/core/parse-idx.js:43-49 | Encoding pairs of naturals below 2^64 as big-endian u64 pairs and parsing the result gives back the pairs, with the fields read as exact naturals (see "Left out" on `Number.parseInt`). |
| IndexStore.SampleCount | tests/test.parsing-idx.js:8-9 | An index of 1088 × 16 bytes yields 1088 records. |
| Metadata.CleanCdata | src/core/parse-mrf.js:14-20 | Cleaning a CDATA-wrapped body gives the body with `&quot;` replaced by `"`. |
| Metadata.UncdataWrapped | src/parseMRF.js:13-19 | The older `clean` gives back exactly the body of a CDATA section: `clean("<![CDATA[" + b + "]]>") == b`. |
| Metadata.CleanPlain | src/core/parse-mrf.js:14-20 | Text without a CDATA wrapper and without `&` is left unchanged. |
| Metadata.CleanEscaped | src/core/parse-mrf.js:14-20 | Cleaning a wrapped, quote-escaped body gives back the body. |
| Metadata.UnescapeEscape | src/core/parse-mrf.js:18 | Unescaping inverts quote escaping on `&`-free text. |
| Metadata.UnescapeNoEntity | src/core/parse-mrf.js:18 | Text without `&` has nothing to unescape. |
| Metadata.ParseFloat | src/parseMRF.js:199 | After white space and at most one sign, the result is `NaN` exactly when the text starts with neither `Infinity`, a digit, nor `.` followed by a digit. It is infinite exactly for `Infinity`, and negative only after a minus sign. |
| Metadata.ParseFloatNat | src/parseMRF.js:32-36 | A printed natural, followed by text that cannot continue a number, parses to that natural. |
| Metadata.ParseFloatHalf | tests/test.parsing-mrf.js:19 | `parseFloat("0.5")` is 0.5. |
| Metadata.ParseFloatSpace | src/parseMRF.js:199 | Leading white space (the ECMAScript white space and line terminators) does not change the number. |
| Metadata.ParseFloatSign | src/parseMRF.js:199 | A leading `-` negates the number that follows, and a leading `+` leaves it as is. |
| Metadata.ParseFloatExponent | src/parseMRF.js:199 | `String(n) + "e" + String(k)` reads as `n` scaled up by `k` decimal places, which `ScaleUp` shows is `n × 10^k`. |
| Metadata.ParseFloatNegativeExponent | src/parseMRF.js:199 | `String(n) + "e-" + String(k)` reads as `n / 10^k`. |
| Metadata.ScaleUp | src/parseMRF.js:199 | Shifting by `k` decimal places, one factor of ten at a time, multiplies by `10^k`. |
| Metadata.ScaleDown | src/parseMRF.js:199 | Shifting by `-k` decimal places divides by `10^k`. |
| Metadata.ParseFloatMinusHalf | src/parseMRF.js:199 | `parseFloat("-0.5")` is -0.5. |
| Metadata.ParseFloatSpacedHalf | src/parseMRF.js:199 | `parseFloat(" 0.5")` is 0.5. |
| Metadata.ParseFloatPlus | src/parseMRF.js:199 | `parseFloat("+1")` is 1. |
| Metadata.ParseFloatMilli | src/parseMRF.js:199 | `parseFloat("1e-3")` is 0.001. |
| Metadata.ParseFloatHundreds | src/parseMRF.js:199 | `parseFloat("5e2")` is 500. |
| Metadata.ParseFloatNegInfinity | src/parseMRF.js:199 | `parseFloat("-Infinity")` is `-Infinity`. |
| Metadata.ParseFloatNoMantissa | src/parseMRF.js:199 | `parseFloat("e5")` is `NaN`: an exponent needs a mantissa. |
| Metadata.ParseOptions | src/parseMRF.js:192-205 | The `forEach` that fills `options_` builds the map `Options(inner)`. |
| Metadata.OptionList | src/core/parse-mrf.js:195-198 | `inner.split(" ")`: at least one piece, no piece holds a space, and joining with spaces gives back the text. |
| Metadata.OptionsKeys | src/parseMRF.js:196-203 | A key is in the map exactly when some option has it as its key. |
| Metadata.OptionsLastWins | src/parseMRF.js:202 | A key maps to the value of the last option with that key: later duplicates overwrite. |
| Metadata.SecondEqualsDropsRest | src/parseMRF.js:197 | With two `=`, the value is the piece between them; what follows the second is dropped. |
| Metadata.SamplePrecision | src/parseMRF.js:198-200 | Only `LERC_PREC` is converted to a number: `LERC_PREC=0.5` gives 0.5. |
| Metadata.SampleVersion | src/parseMRF.js:202 | Any other key keeps its text: `V2=ON` gives `"ON"`. |
| Metadata.OptionsSample | src/parseMRF.js:208 | `LERC_PREC=0.5 V2=ON` gives `{LERC_PREC: 0.5, V2: "ON"}`. |
| Metadata.OptionsFromTwo | src/parseMRF.js:196-203 | Two options give the map of the first updated by the second. |
| Metadata.SampleEntries | src/parseMRF.js:196 | The sample option text splits into its two options. |
| Metadata.ParseTimeSound | src/core/parse-mrf.js:147-153 | A match gives `{start, end, periodicity}`: start and end are non-empty and contain no `/`, and the periodicity is `P`, a digit and an upper-case letter. Joining them with `/` gives back the text. |
| Metadata.ParseTimeComplete | src/core/parse-mrf.js:149-152 | Every text of that form matches, and yields exactly its three parts. |
| Pyramid.DepthOrDefaultLegacy | src/parseMRF.js:35 | `\|\| 1`: a missing attribute, and also a parsed 0 or `NaN`, defaults to 1. The result is always truthy. |
| Pyramid.DepthDefaultsAgree | src/parseMRF.js:35-40 | The two versions read the same depth exactly when the attribute is missing or truthy. |
| Pyramid.OverviewScale | src/core/parse-mrf.js:91-92 | Overviews are computed exactly when `Rsets` is present and its `scale` is truthy; the scale is then positive. |
| Pyramid.LayoutOf | src/core/parse-mrf.js:158-163 | `widthInTiles` and `heightInTiles` are the least page counts covering width and height. The total is across × down × deep × `numBands / pageBands`. The order is `pixel` exactly when `numBands == pageBands`. |
| Pyramid.ComputeOverviews | src/core/parse-mrf.js:166-193 | For a scale that passed the newer guard, the `while` loop produces `Overviews(r, scale)`, or the divergence error where the loop never ends. The older loop at src/parseMRF.js:163-190 has the same body; its different guard is under "Left out". |
| Pyramid.OffsetsAccumulate | src/core/parse-mrf.js:182 | The first overview starts at `numberTotalPages`, and each later one at the previous offset plus the previous pages. |
| Pyramid.LevelsShrink | src/core/parse-mrf.js:171-176 | Each level is the previous one divided by `scale` and rounded half up, with pages computed from its size. |
| Pyramid.StopsAtFirstFit | src/core/parse-mrf.js:170 | There are no overviews exactly when the raster fits one page. The last overview fits one page, and every earlier one exceeds a page in some direction. |
| Pyramid.TotalSlots | src/parseMRF.js:160-179 | The full-resolution pages plus all overview pages equal the end of the last overview's slots. |
| Pyramid.StuckForever | src/core/parse-mrf.js:170-172 | Once a step does not shrink a level that still exceeds a page, no later step does, so the source loop runs forever. |
| Pyramid.ShrinkIs | src/core/parse-mrf.js:171-172 | `round(x / scale)` is the `y` with `(y - 1/2) · scale <= x < (y + 1/2) · scale`. |
| Pyramid.ShrinkHalves | src/core/parse-mrf.js:171-172 | With a scale of 2 or more, each step makes a size of 2 or more strictly smaller. |
| Pyramid.ScaleAtLeastTwoTerminates | src/core/parse-mrf.js:170-172 | With a scale of 2 or more the loop always ends. |
| Pyramid.FixpointExample | src/core/parse-mrf.js:170-172 | A scale of 1.3 with one-pixel pages sticks at width 2 (`round(2 / 1.3) = 2`), so that loop diverges. |
| Pyramid.SampleLayout | tests/test.parsing-mrf.js:8-31 | 6638 × 7587 pixels, 4 band pages of 512 × 512: 13 × 15 tiles, 780 pages, order `band`. |
| Pyramid.SampleOverviews | tests/test.parsing-mrf.js:33-73 | With scale 2 the overviews are 3319×3794, 1660×1897, 830×949 and 415×475. Their offsets are 780, 1004, 1068 and 1084 and their pages 224, 64, 16 and 4, which total 1088 slots. |
| Tiles.CacheKeyInjective | src/MRF.js:95-97 | `getCacheKeyForTile`: different coordinates never share a cache key. |
| Tiles.SlotDecompose | src/MRF.js:395-397 | The slot minus the level offset determines `b`, `x` and `y`, by remainder and quotient. |
| Tiles.SlotInjective | src/MRF.js:395-397 | Within a level, distinct in-range coordinates have distinct slots. |
| Tiles.SlotWithinLevel | src/MRF.js:393-397 | In-range coordinates of a level fall among that level's slots. |
| Tiles.SampleSlot | src/MRF.js:395-397 | Band 2 of tile (3, 1), full-resolution level, 4 bands over 13 tiles across: slot 66. |
| Tiles.Locate | src/MRF.js:388-416 | The tile made for a coordinate holds that coordinate, its slot, and the index record at that slot. Its inclusive `end` satisfies `end - start + 1 == length`. It carries no data yet. Three cases fail: a missing overview, a slot past the index, and a record without both fields. |
| Tiles.LocateAll | src/MRF.js:388 | `coords.map`: succeeds exactly when every coordinate locates, and then gives one tile per coordinate in order. |
| Tiles.SlicesTile | src/MRF.js:509 | The cumulative offsets, summed over the lengths only of earlier members, put the members' parts back to back from 0 with no gap or overlap. |
| Tiles.MultipartMemberBytes | src/MRF.js:469-481 | In a response holding the requested ranges back to back, member `i`'s slice is exactly that tile's bytes of the data file. |
| Tiles.RunOffsets | src/MRF.js:504-513 | In a run of byte-adjacent tiles, member `i` begins `offset(i)` bytes into the run and ends inside it. |
| Tiles.ClusterMemberBytes | src/MRF.js:500-515 | Slicing a run's range (the RFC 7233 section 2.1 inclusive `bytes=start-end`) at the cumulative offsets gives each member exactly its own bytes of the data file. |
| Fetch.LookUpCache | src/MRF.js:437-447 | Every tile whose key is cached takes the cached bytes; every other tile is unchanged (with the lookup corrected). |
| Fetch.Missing | src/MRF.js:449 | `filter(tile => !tile.data)`: exactly the positions of the tiles without data, in ascending order. |
| Fetch.FillTile | src/MRF.js:469-481 | The `k`-th tile without data gets the `k`-th part of the response. |
| Fetch.FillUntouched | src/MRF.js:469-481 | Every other tile is left as it was. |
| Fetch.FillKeepsFields | src/MRF.js:474 | The fill changes only `data`. |
| Fetch.FillCacheKeys | src/MRF.js:472-474 | The cache's keys afterwards are the old keys plus the keys of the filled tiles (with the lookup corrected). |
| Fetch.FillCacheKeeps | src/MRF.js:472-474 | Every entry the fill does not write keeps its value (with the lookup corrected). |
| Fetch.FillCacheHolds | src/MRF.js:473-477 | A filled tile's key holds the bytes of that tile, unless a later tile has the same coordinate (with the lookup corrected). |
| Fetch.MultipartFillsOwnBytes | src/MRF.js:466-481 | After the fill, each tile that had no data holds its own bytes of the data file, and the others are unchanged. |
| Fetch.SortedSpans | src/MRF.js:425 | Sorting keeps every tile spanning its length. |
| Fetch.FillFromClusters | src/MRF.js:496-515 | Cluster mode updates the tiles in place so that each holds exactly its own bytes of the data file. An empty request fails. |
| Fetch.FillRuns | src/MRF.js:504-515 | Going over the runs, every tile in some run gets its bytes and the others are as they were. |
| Fetch.FillRun | src/MRF.js:505-514 | One run: each member gets its slice of the run's buffer. |
| Fetch.DecodeTile | src/MRF.js:534-562 | A tile decodes exactly when it has data, the codec succeeds, and the codec returns exactly one band with `pageBands == 1`. It then takes that band's pixels and the tile's size. |
| Fetch.DecodeLenient | src/MRF.js:564-567 | Without `strict`, decoding never fails the request: each tile is decoded when it can be and is otherwise left as it was. |
| Fetch.DecodeStrict | src/MRF.js:567 | With `strict`, the request succeeds exactly when every tile decodes, and then every tile is decoded. |
| Fetch.DecodeErrorStays | src/MRF.js:532-569 | The first failing tile decides the error of a strict request. |
| Fetch.DecodeTiles | src/MRF.js:531-570 | The decoding loop updates the tiles in place to `DecodeAll` of the old tiles, or stops with its error. |
| Fetch.MultipartAsWrittenFails | src/MRF.js:437-487 | As written, for tiles not yet fetched, multipart mode succeeds only for an empty request at a range-capable URL. |
| Fetch.FetchBytesAsWrittenFails | src/MRF.js:306-308 | With the cache-key call corrected but `fetchBytes` as written, a multipart request with the cache succeeds exactly when every tile is already cached; otherwise it fails with the `ReferenceError` for `arrayBuffer`. |
| Fetch.MultipartFilled | src/MRF.js:437-481 | With the lookup corrected, each tile ends up with its cached bytes if its key was cached, and with its own bytes of the data file otherwise. |
| Fetch.MultipartDelivers | src/MRF.js:429-488 | With both multipart findings corrected (the cache-key call and the value `fetchBytes` returns), multipart mode with the cache succeeds. It returns one tile per input tile, each with its cached bytes or its own bytes of the file. |
| Fetch.FetchedKeeps | src/MRF.js:429-516 | Fetching changes nothing about the tiles but their data, and keeps their number and order. |
| Fetch.DecodeKeeps | src/MRF.js:556-562 | Decoding changes nothing about a tile but its image. |
| Fetch.FetchAndDecodeKeeps | src/MRF.js:429-570 | Fetching and decoding together keep every tile's coordinate, slot and range. |
| Fetch.SortedBare | src/MRF.js:415-425 | The located tiles carry no data or image, and sorting keeps that so. |
| Fetch.MultipartKeeps | src/MRF.js:437-481 | The multipart lookup and fill change nothing about a tile but its data. |
| Fetch.SameCoords | src/MRF.js:388-425 | A permutation of the located tiles holds exactly the requested coordinates. |
| Fetch.GetTilesShape | src/MRF.js:368-577 | A successful `getTiles` returns one tile per coordinate: the located tiles, stably sorted by `start`, with data and image added. |
| Fetch.GetTilesSorted | src/MRF.js:425 | The returned tiles are in ascending order of `start` and are a permutation of the located tiles. |
| Fetch.GetTilesCoords | src/MRF.js:388-425 | The returned tiles answer exactly the requested coordinates: each belongs to one, and each has one. |
| Fetch.GetTilesStrictImages | src/MRF.js:543-567 | A strict LERC request that succeeds has decoded every tile. |
| Fetch.GetTilesNone | src/MRF.js:496 | No coordinates give no tiles. In cluster mode they fail, because `cluster` reads the first of nothing. |
| MultiBand.ExpandHas | src/MRF.js:624-629 | The expansion asks for a coordinate exactly when its place was requested and its band is requested. |
| MultiBand.ExpandLength | src/MRF.js:624-629 | It asks for exactly `\|coords\| × \|bands\|` band coordinates. |
| MultiBand.ExpandAt | src/MRF.js:625-627 | Entry `k × \|bands\| + j` is place `k` with band `j`: places outside, bands inside. |
| MultiBand.ExpandBands | src/MRF.js:624-629 | The two `forEach` loops push exactly that expansion. |
| MultiBand.ParseGroupKeyInverse | src/MRF.js:636-642 | Splitting a group key on `,` and parsing the parts gives back `(l, x, y)`. |
| MultiBand.GroupKeyInjective | src/MRF.js:636 | Different places are filed under different keys. |
| MultiBand.GroupKeys | src/MRF.js:636-640 | The keys of the groups are distinct, and every tile's key is among them. |
| MultiBand.GroupKeyFrom | src/MRF.js:636-640 | Every group key belongs to some tile. |
| MultiBand.Group | src/MRF.js:636 | A group holds exactly the tiles with its key. |
| MultiBand.GroupFirst | src/MRF.js:654-660 | A group's first tile is the first tile of the request with that key. |
| MultiBand.Store | src/MRF.js:650 | `pixels[b] = v` sets entry `b`, grows the array past its end, and leaves other entries alone. |
| MultiBand.PixelsLastWriter | src/MRF.js:645-652 | Band `b` has pixels exactly when some tile of the group is a decoded band-`b` tile, and then it holds the pixels of the last such tile. |
| MultiBand.Pixels | src/MRF.js:645-652 | A group's pixel list has room for at least every band of the raster. |
| MultiBand.TilePlaced | src/MRF.js:636-662 | Every single-band tile's place has a multi-band tile. |
| MultiBand.PlaceFromTile | src/MRF.js:636-662 | Every multi-band tile's place is that of some single-band tile. |
| MultiBand.MultiBandOf | src/MRF.js:640-661 | The tile pushed for a key sits at that key's place, which is the place of the group's first tile. |
| MultiBand.MultiBandPlaces | src/MRF.js:636-662 | There is one multi-band tile per distinct place of the single-band tiles, and no other. |
| MultiBand.MultiBandDistinct | src/MRF.js:636-662 | No two multi-band tiles share a place. |
| MultiBand.MultiBandPixels | src/MRF.js:645-652 | A multi-band tile has band `b` exactly when a decoded band-`b` tile at its place was returned. |
| MultiBand.MultiBandSize | src/MRF.js:654-660 | A multi-band tile's size is that of the first single-band tile at its place. |
| MultiBand.MergePixels | src/MRF.js:648-652 | The `forEach` over a group builds `Pixels`. |
| MultiBand.Assemble | src/MRF.js:639-662 | The loop over the groups builds `MultiBandTiles`. |
| MultiBand.PlacesRequested | src/MRF.js:624-662 | Every multi-band tile is at a requested place. |
| MultiBand.PlacesReached | src/MRF.js:624-662 | With at least one band, every requested place has a multi-band tile. |
| MultiBand.MultiBandCovers | src/MRF.js:613-665 | A successful `getMultiBandTiles` with at least one band returns exactly one tile per distinct requested place. |
| MultiBand.MultiBandNoBands | src/MRF.js:621-631 | With an empty band list nothing is fetched: the result is empty, or in cluster mode the request fails. |
| MultiBand.BandsComplete | src/MRF.js:645-652 | When every single-band tile was decoded, every multi-band tile has every requested band. |
| MultiBand.MultiBandStrictComplete | src/MRF.js:613-665 | A strict LERC `getMultiBandTiles` that succeeds gives every multi-band tile every requested band. |
| MultiBand.BandPresent | src/MRF.js:645-652 | When every returned tile is decoded, each multi-band tile has each requested band. |
| Sampling.FitCount | src/MRF.js:169-176 | The loop moves on over a prefix in which all overviews fit the requested scale, and stops at the first that does not. |
| Sampling.SelectLevel | src/MRF.js:159-176 | The selection loop returns level `FitCount`: full resolution when no overview fits, otherwise `overviews[n-1]` as level `n`. |
| Sampling.SelectionNotCoarser | src/MRF.js:169-176 | The selected level is not coarser than requested in either direction, and the next overview is coarser in some direction. |
| Sampling.WindowHas | src/MRF.js:206-211 | The window lists every `(x, y)` of the tile rectangle at the selected level, and nothing else. |
| Sampling.WindowDistinct | src/MRF.js:206-211 | No place is listed twice. |
| Sampling.WindowCoords | src/MRF.js:206-211 | The nested loops, `x` outside and `y` inside, push exactly the window. |
| Sampling.PlanAt | src/MRF.js:180-244 | The plan has the requested output size and the selected level. Its fill is `noDataValue ?? null`. Its window runs from the scaled trims to the page-floored edges, and its sample steps spread the samples over the trimmed span. A selection that is not a positive finite scale fails. |
| Sampling.Scaled | src/MRF.js:180-190 | A trim divided by the level scale is non-negative, and times the scale gives back the trim. |
| Sampling.TileOf | src/MRF.js:192-200 | `floor(v / page)` is the tile column or row of a non-negative position. |
| Sampling.Spread | src/MRF.js:240-244 | With `n > 0` samples the step times `n` is the span. |
| Sampling.Rem | src/MRF.js:255 | The remainder of a non-negative position lies in `[0, page)`. |
| Sampling.SamplesInWindow | src/MRF.js:249-261 | Between the trimmed edges, every sample's tile lies inside the fetched window. |
| Sampling.RoundingReachesPageEdge | src/MRF.js:255 | Rounding the in-tile offset can reach the page size itself: `round(511.5 % 512)` is 512. |
| Sampling.LookupIndex | src/MRF.js:217-222 | `tileIndex[y][x]` finds a tile exactly when one is at `(x, y)`, and it finds the last one there. |
| Sampling.LookupDistinct | src/MRF.js:217-222 | With tiles at distinct positions, each is found at its own position. |
| Sampling.BuildIndex | src/MRF.js:217-222 | The `forEach` builds exactly that index. |
| Sampling.FirstMissingBand | src/MRF.js:278-284 | The first band the tile lacks, if any, is the band below which every band is present. |
| Sampling.FirstMissingBandIs | src/MRF.js:278-284 | The band the loop first finds missing is the first missing band. |
| Sampling.CellValues | src/MRF.js:258-284 | A sample gives one value per band, or the error for its missing tile or band. |
| Sampling.SampleCell | src/MRF.js:261-284 | The band loop writes each band's value at `(row, col)` and nothing else, or fails exactly when `CellValues` fails. |
| Sampling.Sample | src/MRF.js:224-286 | The output is `numBands × requestedHeight × requestedWidth`. When every sample succeeds, each cell holds its band's value. Otherwise the first sample in row-major order that fails decides the error. |
| Sampling.WindowTilesDistinct | src/MRF.js:206-222 | The window's multi-band tiles sit at distinct `(x, y)`. |
| Sampling.SampleFound | src/MRF.js:249-284 | Over a complete window, every sample between the trimmed edges finds its tile and all its bands. |
| Sampling.StrictWindowComplete | src/MRF.js:213 | A strict LERC fetch of the window that succeeds gives one complete tile per window place. |
| Sampling.StrictSamplingSucceeds | src/MRF.js:213-286 | A strict LERC read over a non-empty trimmed area that fetches successfully cannot fail in the sampling loops. |
| Hash.ToInt32 | src/utils/hash.js:14 | `hash & hash` gives the signed 32-bit value congruent to the input modulo 2^32. |
| Hash.StepIsMul31 | src/utils/hash.js:10-14 | `(h << 5) - h + c`, truncated, is `31h + c` reduced to signed 32 bits. |
| Hash.FoldConcat | src/utils/hash.js:4-17 | The hash is a left fold: hashing `s + t` continues the hash of `s` over `t`. |
| Hash.FoldIsPoly | src/utils/hash.js:4-17 | The hash from 0 is the polynomial `Σ c_i · 31^(n-1-i)` reduced once to signed 32 bits. |
| Hash.CharsConcat | src/utils/hash.js:5-8 | The hashed characters of `a + b` are those of `a` followed by those of `b`. |
| Hash.CharsShape | src/utils/hash.js:6 | Each byte contributes a comma and at least one digit. |
| Hash.HashAsWritten | src/utils/hash.js:2-3 | As written, the hash throws exactly when the computed length is 0. |
| Hash.EmptyPlainArrayAsWritten | src/utils/hash.js:2-3 | An empty plain array slips past the check and hashes to 0; an empty typed array throws. |
| Hash.HashOf | src/utils/hash.js:1-18 | It throws exactly on empty data, and otherwise gives the reduced polynomial of the characters. |
| Hash.HashAgrees | src/utils/hash.js:2-3 | The two agree on every input but the empty plain array. |
| Hash.HashOfConcat | src/utils/hash.js:4-17 | Hashing two buffers end to end continues the first buffer's hash over the second's characters. |
| Hash.ComputeHash | src/utils/hash.js:1-18 | The two nested loops compute `HashOf`. |
| Reader.Mrf.constructor | src/MRF.js:50-55 | The reader keeps its description, index, source and options, and starts with the shared cache when one is passed and an empty cache otherwise. |
| Reader.Mrf.FillFromMultipart | src/MRF.js:469-481 | The `reduce` updates the tiles array and the reader's cache in place, as `Fill` describes (with the lookup corrected). |
| Reader.Mrf.FetchMultipart | src/MRF.js:429-488 | Multipart mode updates the tiles and the cache as `MultipartFetched` describes (with the lookup corrected). |
| Reader.Mrf.FetchClusters | src/MRF.js:489-516 | Cluster mode updates the tiles as `ClusterFetched` describes, and leaves the cache alone. |
| Reader.Mrf.GetTiles | src/MRF.js:368-577 | `getTiles` returns `GetTilesSpec` of its inputs and leaves the cache as that function says (with the lookup corrected). |
| Reader.Mrf.GetMultiBandTiles | src/MRF.js:613-665 | An empty coordinate list is refused. Otherwise the result and the cache are those of `GetMultiBandTilesSpec`. |
| Reader.Mrf.GetValues | src/MRF.js:99-290 | The output is fresh. Failures before the fetch have the plan's error and leave the cache alone. Otherwise the cache is that of fetching the window. A fetch error is returned as is; a negative output size fails. Otherwise the output is what the sampling loops produce over the fetched window. |

## Left out

- I/O is not modelled: HTTP, `fetch`, `fetchRange`'s request plumbing, `acceptRanges`, `prefetch`, and loading from URLs in the constructor. The data file is a byte sequence, and whether each source answers range requests is a flag. A fetched range is the bytes of that range. A multi-range answer is the ranges back to back, the source's own assumption; a server answering several ranges with 206 sends a `multipart/byteranges` body with boundaries and part headers (section 4.1 of RFC 7233), which the source would slice as if it were not there.
- Promises and concurrency are not modelled. Cache entries are promises in the source; here the cache is a sequential map that holds the bytes directly.
- XML tag and attribute extraction, `fixBuffer` and `toTextString` are external libraries. The attribute values are inputs: the `Raster` record, the scale and the option text. A `NoDataValue` is taken to be a number, so a text that `parseFloat` reads as `NaN` (a `NaN` fill in getValues) is not represented. Tile coordinates are naturals, so the negative `b`, `l`, `x` or `y` that src/MRF.js:388-415 accepts unchecked is not modelled: there it can name the slot of another tile, or a negative or `NaN` slot, where destructuring `idx[i]` throws.
- `binarize` is assumed to expand each byte into eight bit characters, most significant first.
- LERC decoding is a function parameter returning bands of pixels and a size. The tile's `mask`, `pixelType`, `statistics`, `area` and `layout` fields are not kept.
- `xdim` output layouts other than `[band][row][column]` are not modelled.
- Floating point is not IEEE. Sizes are naturals and ratios are exact reals, so rounding error in `height / h` and in sample positions is not represented. `parseFloat` gives exact values, so `1e400` is finite. `Number.parseInt` is exact, so index fields of 2^53 or more keep their value, where the source rounds them (that is why it warns).
- Fields that only the bounding box, projection, TWMS patterns, `Rsets` file names and `quality` use are not part of this model.
- The non-array check on `coords` in `getMultiBandTiles` cannot fail on a typed sequence.
- Debug-only code is left out: console logging, the duplicate-start check and the never-defined `hash32` check.
- The `strict` typo at line 543 of `src/MRF.js` is caught by the enclosing `try`. Its effect equals the intended `this.strict`, which is what is modelled.
- `src/utils/is-buffer.js`, `src/index.js`, the build configuration and the test runner setup are not part of this model. The tests serve only as the source of the sample facts above.
- Where the documented behaviour and the code disagree, the model follows the code:
  - A decoded tile without a band throws a `TypeError` in the sampling loop; it does not degrade to no-data.
  - A description without overviews makes `getValues` throw, because it reads `meta.overviews.length`.
  - In the older options parser, a value is the piece between the first and the second `=`.
  - `getValues` takes no `bands`, `method`, `round`, `theoretical_min`/`theoretical_max` options or warp function, because this version of the code has none.
- Sampling.PlanAt: a selected level whose scale is not a positive finite number is reported as an error, where the source would go on with `Infinity` or `NaN` trims.
- Reader.Mrf.GetValues: a negative output size is reported as one error, where the source throws whatever `xdim` throws when data of that size is prepared.
- Fetch.MultipartFetched: with `cache_tiles` off, the `reduce` at src/MRF.js:469-481 gives no tile any data, so the wait at line 487 fails. The model keeps that as written rather than guess which assignment was meant. With `cache_tiles` on, the main path (MultipartFetched, and Fill, LookUpCache, GetTilesSpec and the `Mrf` methods built on it) follows the corrected code: `this.getCacheKeyForTile` at src/MRF.js:439 and 473, and `return ab` at line 308. The code as written is FetchedAsWritten and FetchBytesAsWritten (see "Findings").
- Tiles.Locate: an index record without a length (or offset) comes only from an index whose size is not a multiple of 16, which a well-formed index never is. The model reports it as `IncompleteIndexEntry`, where src/MRF.js:409-415 builds a tile with `end = NaN` and throws nothing.
- Pyramid.OverviewScale: the scale attribute is taken to be a non-negative finite number or `NaN`. A negative or infinite `parseFloat` result (`scale="-2"`, `scale="Infinity"`) is truthy, so src/core/parse-mrf.js:166 enters the loop: `-2` gives one overview of negative size and `Infinity` one of 0 × 0. Neither is modelled.
- Pyramid.OverviewScale: only the newer guard, which parses first, is modelled. The older parser (src/parseMRF.js:87-90 and 163) tests the raw attribute string, so `scale="0"` is truthy there. That loop then divides by the coerced string (`w / "0"` is `Infinity`) and never ends.
- Pyramid.Valid: page sizes are taken to be positive and `numBands` a multiple of `pageBands`. The source checks neither and divides as is at src/core/parse-mrf.js:160-163, so a zero page size gives `Infinity` or `NaN` page counts and a partial band page a fractional count.
- Pyramid.Overviews: the source's loop runs forever on a fixpoint; the model reports it as `Diverges`. `Pyramid.StuckForever` shows that the source loop really does not end there.

## Findings

| source | as written | input that shows it | evidently intended | confidence | as-written member | corrected member |
|---|---|---|---|---|---|---|
| src/MRF.js:439 | The multipart cache lookup (and the cache write at line 473) calls `getCacheKeyForTile(tile)` without `this.`. No such name is in scope, so the lookup throws a `ReferenceError`. | A reader with `multipart: true` and the default `cache_tiles: true`, asked for any non-empty list of coordinates. | `this.getCacheKeyForTile(tile)`. Each tile takes its cached bytes or its own slice of the multi-range response. | not executed | Fetch.MultipartAsWrittenFails | Fetch.MultipartDelivers |
| src/utils/hash.js:2-3 | `data.length \|\| data.byteLength` is `undefined` for an empty plain array, so `length === 0` is false and no error is thrown. The loop bounded by `undefined` does not run, and the hash is 0. | `hash([])` | Empty data of any kind throws `"[mrf] trying to hash empty data"`. | not executed | Hash.EmptyPlainArrayAsWritten | Hash.HashOf |
| src/MRF.js:306-308 | `fetchBytes` reads the response body into `ab` but returns `arrayBuffer`, a name it never declares. The returned promise rejects with a `ReferenceError`, and so does every tile that waits on it. | A reader with `multipart: true` and `cache_tiles: true`, with the cache-key call above corrected, asked for one tile that is not cached. | `return ab;`: every uncached tile gets its slice of the response. | not executed | Fetch.FetchBytesAsWrittenFails | Fetch.MultipartDelivers |
