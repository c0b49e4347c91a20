/** The index (.idx) decoder: src/core/parse-idx.js and the older
    src/parseIDX.js. The buffer is expanded into a string of '0'/'1'
    characters, eight per byte, most significant bit first; every 128
    characters are one record of two 64-bit big-endian unsigned integers,
    `offset` then `length`. Values are exact naturals here; JavaScript numbers
    lose precision from 2^53 on, which is what the newer version warns about. */
module IndexStore {
  import opened Common
  import opened Numbers

  function Pow(b: nat, n: nat): (r: nat)
    requires b > 0
    ensures r > 0
  {
    if n == 0 then 1 else b * Pow(b, n - 1)
  }

  lemma MulLe(a: nat, c: nat, b: nat)
    requires a <= c
    ensures a * b <= c * b
  {
  }

  lemma Expand(hi: nat, p: nat, lo: nat, b: nat)
    ensures (hi * p + lo) * b == hi * (p * b) + lo * b
  {
  }

  lemma DivModOf(x: nat, d: nat)
    requires d > 0
    ensures x == (x / d) * d + x % d && x % d < d
  {
  }

  /** Taking the last base-`b` digit off and putting it back: the recurrence
      behind both the bit expansion and the byte encoder. */
  lemma DigitStep(x: nat, b: nat, n: nat)
    requires b > 0 && n > 0
    ensures (x / b) % Pow(b, n - 1) * b + x % b == x % Pow(b, n)
  {
    var q := x / b;
    var p := Pow(b, n - 1);
    var hi := q / p;
    var lo := q % p;
    var t := x % b;
    DivModOf(x, b);
    DivModOf(q, p);
    Expand(hi, p, lo, b);
    MulLe(lo + 1, p, b);
    assert (lo + 1) * b == lo * b + b;
    assert Pow(b, n) == p * b;
    DivModUnique(x, p * b, hi, lo * b + t);
  }

  // ---- The bit string ------------------------------------------------------

  function BitChar(bit: bool): char { if bit then '1' else '0' }

  /** The low `n` bits of `x` as characters, most significant first. */
  function BitsOf(x: nat, n: nat): (s: string)
    ensures |s| == n
  {
    if n == 0 then "" else BitsOf(x / 2, n - 1) + [BitChar(x % 2 == 1)]
  }

  /** `binarize({ data: nums, nbits: 8 })`: every byte as eight bit characters. */
  function Binarize(data: Bytes): (s: string)
    ensures |s| == 8 * |data|
  {
    if data == [] then "" else Binarize(data[..|data| - 1]) + BitsOf(data[|data| - 1], 8)
  }

  /** The number a string of bit characters spells in base 2
      (`Number.parseInt(bits, 2)` on a non-empty string of '0' and '1'). */
  function BinValue(s: string): nat {
    if s == [] then 0 else BinValue(s[..|s| - 1]) * 2 + (if s[|s| - 1] == '1' then 1 else 0)
  }

  /** The big-endian unsigned value of a byte string. */
  function BigEndian(data: Bytes): nat {
    if data == [] then 0 else BigEndian(data[..|data| - 1]) * 256 + data[|data| - 1]
  }

  /** `s.indexOf(c)`: the first position of `c`, or -1. */
  function IndexOf(s: string, c: char): (i: int)
    ensures -1 <= i < |s|
    ensures i >= 0 ==> s[i] == c && forall j :: 0 <= j < i ==> s[j] != c
    ensures i == -1 <==> forall j :: 0 <= j < |s| ==> s[j] != c
  {
    if s == [] then -1
    else if s[0] == c then 0
    else
      var j := IndexOf(s[1..], c);
      assert forall k :: 0 < k < |s| ==> s[k] == s[1..][k - 1];
      if j < 0 then -1 else j + 1
  }

  /** `64 - 53`: a 64-bit field whose first `1` lies in its top 11 bits needs
      more than the 53 bits a JavaScript number holds exactly. */
  const MAX_SAFE_BITS: nat := 64 - 53

  /** `parseInteger`: the parsed value (None for `NaN`, the result of parsing
      an empty string) and whether a precision warning is printed. */
  function ParseInteger(bits: string): (Option<nat>, bool) {
    (ParseValue(bits), Warns(bits))
  }

  /** `Number.parseInt(bits, 2)`. */
  function ParseValue(bits: string): Option<nat> {
    if bits == "" then None else Some(BinValue(bits))
  }

  /** `binary.indexOf('1')` is below `MAX_SAFE_BITS` (and not -1). */
  predicate Warns(bits: string) {
    var i := IndexOf(bits, '1');
    0 <= i < MAX_SAFE_BITS
  }

  /** The value is missing only for an empty field, and the warning is printed
      exactly when a `1` occurs among the first `MAX_SAFE_BITS` characters. */
  lemma ParseIntegerSpec(bits: string)
    ensures ParseInteger(bits).0 == None <==> bits == ""
    ensures ParseInteger(bits).0.Some? ==> ParseInteger(bits).0.value == BinValue(bits)
    ensures ParseInteger(bits).1 <==> exists j :: 0 <= j < MAX_SAFE_BITS && j < |bits| && bits[j] == '1'
  {
  }

  /** One `{ offset, length }` record; a field is None where the buffer ended
      before it (`parseInt("", 2)` is `NaN`). */
  datatype Record = Record(offset: Option<nat>, length: Option<nat>)

  /** `bits.substr(i, n)`: clamped to the end of the string. */
  function Substr(bits: string, i: nat, n: nat): string {
    Slice(bits, i, i + n)
  }

  function OffsetBits(bits: string, k: nat): string { Substr(bits, 128 * k, 64) }

  function LengthBits(bits: string, k: nat): string { Substr(bits, 128 * k + 64, 64) }

  function RecordAt(bits: string, k: nat): Record {
    Record(ParseValue(OffsetBits(bits, k)), ParseValue(LengthBits(bits, k)))
  }

  /** The records of a bit string: one per started block of 128 bits, in buffer order. */
  function RecordsOf(bits: string): seq<Record> {
    seq(CeilDiv(|bits|, 128), k requires 0 <= k => RecordAt(bits, k))
  }

  /** The first `n` records, as the loop pushes them. */
  function RecordsUpTo(bits: string, n: nat): (r: seq<Record>)
    ensures |r| == n
  {
    if n == 0 then [] else RecordsUpTo(bits, n - 1) + [RecordAt(bits, n - 1)]
  }

  lemma {:induction false} RecordsUpToAt(bits: string, n: nat, k: nat)
    requires k < n
    ensures RecordsUpTo(bits, n)[k] == RecordAt(bits, k)
  {
    if k < n - 1 {
      RecordsUpToAt(bits, n - 1, k);
    }
  }

  lemma RecordsUpToAll(bits: string, n: nat)
    requires n == CeilDiv(|bits|, 128)
    ensures RecordsUpTo(bits, n) == RecordsOf(bits)
  {
    forall k | 0 <= k < n ensures RecordsUpTo(bits, n)[k] == RecordsOf(bits)[k] {
      RecordsUpToAt(bits, n, k);
    }
  }

  /** The `console.warn` of `parseInteger`, as the field it quotes. */
  function WarnOf(field: string): seq<string> {
    if Warns(field) then [field] else []
  }

  /** The fields warned about by the first `count` records, in order. */
  function Warned(bits: string, count: nat): seq<string> {
    if count == 0 then []
    else Warned(bits, count - 1) + WarnOf(OffsetBits(bits, count - 1)) + WarnOf(LengthBits(bits, count - 1))
  }

  lemma WarnedNext(bits: string, k: nat, offsetBits: string, lengthBits: string)
    requires offsetBits == OffsetBits(bits, k) && lengthBits == LengthBits(bits, k)
    ensures Warned(bits, k + 1) == Warned(bits, k) + WarnOf(offsetBits) + WarnOf(lengthBits)
  {
  }

  /** src/core/parse-idx.js, default export: the record loop with warnings.
      The warnings are returned instead of printed: each is the 64-character
      field the message quotes. */
  method ParseIdx(input: Bytes) returns (records: seq<Record>, warnings: seq<string>)
    ensures records == RecordsOf(Binarize(input))
    ensures warnings == Warned(Binarize(input), |records|)
  {
    records, warnings := ParseBits(Binarize(input));
  }

  /** The record loop of `parseIDX` over the bit string. */
  method ParseBits(bits: string) returns (records: seq<Record>, warnings: seq<string>)
    ensures records == RecordsOf(bits)
    ensures warnings == Warned(bits, |records|)
  {
    records := [];
    warnings := [];
    var i := 0;
    while i < |bits|
      invariant i == 128 * |records|
      invariant |records| == 0 || 128 * (|records| - 1) < |bits|
      invariant records == RecordsUpTo(bits, |records|)
      invariant warnings == Warned(bits, |records|)
    {
      ghost var k := |records|;
      var offsetBits := Substr(bits, i, 64);
      var lengthBits := Substr(bits, i + 64, 64);
      FieldsAt(bits, i, k);
      WarnedNext(bits, k, offsetBits, lengthBits);
      var offset := ParseInteger(offsetBits);
      var length := ParseInteger(lengthBits);
      assert Record(offset.0, length.0) == RecordAt(bits, k);
      warnings := warnings + WarnOf(offsetBits) + WarnOf(lengthBits);
      records := records + [Record(offset.0, length.0)];
      i := i + 64 * 2;
    }
    CeilDivExact(|bits|, 128, |records|);
    RecordsUpToAll(bits, |records|);
  }

  /** The fields the loop reads at bit `i = 128k` are those of record `k`. */
  lemma FieldsAt(bits: string, i: nat, k: nat)
    requires i == 128 * k
    ensures Substr(bits, i, 64) == OffsetBits(bits, k) && Substr(bits, i + 64, 64) == LengthBits(bits, k)
  {
  }

  /** src/parseIDX.js, default export: the same loop with no warning. */
  method ParseIdxLegacy(input: Bytes) returns (records: seq<Record>)
    ensures records == RecordsOf(Binarize(input))
  {
    records := ParseBitsLegacy(Binarize(input));
  }

  method ParseBitsLegacy(bits: string) returns (records: seq<Record>)
    ensures records == RecordsOf(bits)
  {
    records := [];
    var i := 0;
    while i < |bits|
      invariant i == 128 * |records|
      invariant |records| == 0 || 128 * (|records| - 1) < |bits|
      invariant records == RecordsUpTo(bits, |records|)
    {
      ghost var k := |records|;
      FieldsAt(bits, i, k);
      var offset := if Substr(bits, i, 64) == "" then None else Some(BinValue(Substr(bits, i, 64)));
      var length := if Substr(bits, i + 64, 64) == "" then None else Some(BinValue(Substr(bits, i + 64, 64)));
      assert Record(offset, length) == RecordAt(bits, k);
      records := records + [Record(offset, length)];
      i := i + 64 * 2;
    }
    CeilDivExact(|bits|, 128, |records|);
    RecordsUpToAll(bits, |records|);
  }

  // ---- Record count ---------------------------------------------------------

  /** One record per started 16 bytes; exactly `byteLength / 16` when the
      length is a multiple of 16. */
  lemma RecordCount(input: Bytes)
    ensures |RecordsOf(Binarize(input))| == CeilDiv(|input|, 16)
    ensures |input| % 16 == 0 ==> |RecordsOf(Binarize(input))| == |input| / 16
  {
    var n := |input|;
    var m := CeilDiv(n, 16);
    CeilDivCovers(n, 16);
    CeilDivExact(8 * n, 128, m);
    if n % 16 == 0 {
      var q := n / 16;
      assert n == 16 * q;
      CeilDivExact(n, 16, q);
    }
  }

  // ---- Bits and bytes -------------------------------------------------------

  lemma {:induction false} BinValueConcat(a: string, b: string)
    ensures BinValue(a + b) == BinValue(a) * Pow(2, |b|) + BinValue(b)
    decreases |b|
  {
    if b == [] {
      assert a + b == a;
    } else {
      var b' := b[..|b| - 1];
      assert (a + b)[..|a + b| - 1] == a + b';
      BinValueConcat(a, b');
      var x, y, p := BinValue(a), BinValue(b'), Pow(2, |b'|);
      var bit := if b[|b| - 1] == '1' then 1 else 0;
      assert Pow(2, |b|) == 2 * p;
      assert BinValue(a + b) == BinValue(a + b') * 2 + bit;
      assert BinValue(b) == y * 2 + bit;
      Expand(x, p, y, 2);
    }
  }

  lemma {:induction false} BinValueBitsOf(x: nat, n: nat)
    ensures BinValue(BitsOf(x, n)) == x % Pow(2, n)
  {
    if n > 0 {
      BinValueBitsOf(x / 2, n - 1);
      var s := BitsOf(x, n);
      assert s[..|s| - 1] == BitsOf(x / 2, n - 1);
      DigitStep(x, 2, n);
    }
  }

  lemma {:induction false} BinarizeConcat(a: Bytes, b: Bytes)
    ensures Binarize(a + b) == Binarize(a) + Binarize(b)
    decreases |b|
  {
    if b == [] {
      assert a + b == a;
    } else {
      var b' := b[..|b| - 1];
      assert (a + b)[..|a + b| - 1] == a + b';
      BinarizeConcat(a, b');
    }
  }

  /** Decoding the bit expansion of bytes is decoding the bytes big-endian. */
  lemma {:induction false} BinValueBinarize(data: Bytes)
    ensures BinValue(Binarize(data)) == BigEndian(data)
  {
    if data != [] {
      var init := data[..|data| - 1];
      BinValueBinarize(init);
      BinValueConcat(Binarize(init), BitsOf(data[|data| - 1], 8));
      var last := data[|data| - 1];
      BinValueBitsOf(last, 8);
      assert Pow(2, 8) == 256;
      DivModUnique(last, 256, 0, last);
    }
  }

  /** A window of whole bytes in the bit string is the expansion of those bytes. */
  lemma BinarizeWindow(data: Bytes, i: nat, j: nat, bi: nat, bj: nat)
    requires i <= j <= |data| && bi == 8 * i && bj == 8 * j
    ensures Slice(Binarize(data), bi, bj) == Binarize(data[i..j])
  {
    var a, b, c := data[..i], data[i..j], data[j..];
    SplitThree(data, i, j);
    BinarizeConcat(a + b, c);
    BinarizeConcat(a, b);
    SliceMiddle(Binarize(data), Binarize(a), Binarize(b), Binarize(c), bi, bj);
  }

  lemma SplitThree<T>(s: seq<T>, i: nat, j: nat)
    requires i <= j <= |s|
    ensures s == s[..i] + s[i..j] + s[j..]
  {
  }

  /** The middle part of a three-way concatenation. */
  lemma SliceMiddle<T>(s: seq<T>, x: seq<T>, y: seq<T>, z: seq<T>, i: nat, j: nat)
    requires s == x + y + z && |x| == i && i + |y| == j
    ensures Slice(s, i, j) == y
  {
    assert s[i..j] == y;
  }

  /** Record k of a buffer holding it whole is the big-endian pair of bytes
      `16k..16k+8` and `16k+8..16k+16`. */
  lemma RecordFields(input: Bytes, k: nat)
    requires 16 * k + 16 <= |input|
    ensures RecordAt(Binarize(input), k)
         == Record(Some(BigEndian(input[16 * k..16 * k + 8])), Some(BigEndian(input[16 * k + 8..16 * k + 16])))
  {
    var r := RecordAt(Binarize(input), k);
    OffsetAt(input, k);
    LengthAt(input, k);
    assert r == Record(r.offset, r.length);
  }

  lemma OffsetAt(input: Bytes, k: nat)
    requires 16 * k + 16 <= |input|
    ensures RecordAt(Binarize(input), k).offset == Some(BigEndian(input[16 * k..16 * k + 8]))
  {
    var bits := Binarize(input);
    FieldAt(input, 16 * k, 16 * k + 8, 128 * k);
    assert OffsetBits(bits, k) == Substr(bits, 128 * k, 64);
  }

  lemma LengthAt(input: Bytes, k: nat)
    requires 16 * k + 16 <= |input|
    ensures RecordAt(Binarize(input), k).length == Some(BigEndian(input[16 * k + 8..16 * k + 16]))
  {
    var bits := Binarize(input);
    FieldAt(input, 16 * k + 8, 16 * k + 16, 128 * k + 64);
    assert LengthBits(bits, k) == Substr(bits, 128 * k + 64, 64);
  }

  /** The 64 bits starting at bit `b = 8j` decode to the big-endian value
      of bytes `j..e`, `e = j + 8`. */
  lemma FieldAt(input: Bytes, j: nat, e: nat, b: nat)
    requires e == j + 8 && e <= |input| && b == 8 * j
    ensures ParseValue(Substr(Binarize(input), b, 64)) == Some(BigEndian(input[j..e]))
  {
    var bits, field := Binarize(input), input[j..e];
    BinarizeWindow(input, j, e, b, b + 64);
    FieldValue(field);
    assert Substr(bits, b, 64) == Binarize(field);
  }

  lemma FieldValue(a: Bytes)
    requires |a| == 8
    ensures ParseValue(Binarize(a)) == Some(BigEndian(a))
  {
    BinValueBinarize(a);
  }

  /** A buffer that ends inside the offset half of its last record leaves
      that record's length `NaN`, while the offset is still a number. */
  lemma TruncatedRecord(input: Bytes, k: nat)
    requires 16 * k < |input| <= 16 * k + 8
    ensures RecordAt(Binarize(input), k).offset.Some?
    ensures RecordAt(Binarize(input), k).length == None
  {
    var bits := Binarize(input);
    assert |OffsetBits(bits, k)| > 0;
    assert LengthBits(bits, k) == "";
  }

  // ---- The precision warning ----------------------------------------------

  lemma {:induction false} BinValueBound(s: string)
    ensures BinValue(s) < Pow(2, |s|)
  {
    if s != [] {
      BinValueBound(s[..|s| - 1]);
    }
  }

  lemma {:induction false} BinValuePositive(s: string)
    ensures BinValue(s) > 0 <==> exists j :: 0 <= j < |s| && s[j] == '1'
  {
    if s != [] {
      var init := s[..|s| - 1];
      BinValuePositive(init);
      if exists j :: 0 <= j < |init| && init[j] == '1' {
        var j :| 0 <= j < |init| && init[j] == '1';
        assert s[j] == '1';
      }
      if exists j :: 0 <= j < |s| && s[j] == '1' {
        var j :| 0 <= j < |s| && s[j] == '1';
        if j < |init| { assert init[j] == '1'; }
      }
    }
  }

  lemma PowMonotone(a: nat, b: nat)
    requires a <= b
    ensures Pow(2, a) <= Pow(2, b)
    decreases b
  {
    if a < b { PowMonotone(a, b - 1); }
  }

  /** A string of bits has a `1` among its first `k` characters exactly when
      its value is at least `2^(|s| - k)`. */
  lemma LeadingOneBound(s: string, k: nat)
    requires k <= |s|
    ensures (exists j :: 0 <= j < k && s[j] == '1') <==> BinValue(s) >= Pow(2, |s| - k)
  {
    var a, b := s[..k], s[k..];
    assert s == a + b;
    BinValueConcat(a, b);
    BinValueBound(b);
    BinValuePositive(a);
    var v := BinValue(b);
    var p := Pow(2, |b|);
    if BinValue(a) > 0 {
      assert BinValue(a) * p >= p;
    } else {
      assert BinValue(s) == v;
    }
    assert (exists j :: 0 <= j < k && s[j] == '1') <==> (exists j :: 0 <= j < |a| && a[j] == '1') by {
      assert forall j :: 0 <= j < k ==> a[j] == s[j];
    }
  }

  /** On a 64-bit field, `parseInteger` warns exactly when the value is at
      least 2^53, the first integer a JavaScript number may not hold exactly. */
  lemma WarnsIffUnsafe(bits: string)
    requires |bits| == 64
    ensures ParseInteger(bits).1 <==> BinValue(bits) >= Pow(2, 53)
  {
    LeadingOneBound(bits, MAX_SAFE_BITS);
    ParseIntegerSpec(bits);
  }

  /** An all-zero field decodes to 0 with no warning (`indexOf` gives -1). */
  lemma ZeroFieldNoWarning(bits: string)
    requires |bits| > 0 && forall j :: 0 <= j < |bits| ==> bits[j] == '0'
    ensures ParseInteger(bits) == (Some(0), false)
  {
    BinValuePositive(bits);
  }

  // ---- The encoder and the round trip --------------------------------------

  /** The low `n` bytes of `v`, big-endian. */
  function BytesOf(v: nat, n: nat): (r: Bytes)
    ensures |r| == n
  {
    if n == 0 then [] else BytesOf(v / 256, n - 1) + [v % 256]
  }

  lemma {:induction false} BigEndianBytesOf(v: nat, n: nat)
    ensures BigEndian(BytesOf(v, n)) == v % Pow(256, n)
  {
    if n > 0 {
      BigEndianBytesOf(v / 256, n - 1);
      var r := BytesOf(v, n);
      assert r[..|r| - 1] == BytesOf(v / 256, n - 1);
      DigitStep(v, 256, n);
    }
  }

  /** An index file holding the given `(offset, length)` pairs. */
  function Encode(entries: seq<(nat, nat)>): (r: Bytes)
    ensures |r| == 16 * |entries|
  {
    if entries == [] then []
    else
      var e := entries[|entries| - 1];
      Encode(entries[..|entries| - 1]) + BytesOf(e.0, 8) + BytesOf(e.1, 8)
  }

  lemma {:induction false} EncodeAt(entries: seq<(nat, nat)>, k: nat)
    requires k < |entries|
    ensures Encode(entries)[16 * k..16 * k + 8] == BytesOf(entries[k].0, 8)
    ensures Encode(entries)[16 * k + 8..16 * k + 16] == BytesOf(entries[k].1, 8)
  {
    var n := |entries|;
    var init := entries[..n - 1];
    var e := entries[n - 1];
    var r := Encode(entries);
    assert r == Encode(init) + BytesOf(e.0, 8) + BytesOf(e.1, 8);
    if k < n - 1 {
      EncodeAt(init, k);
      assert r[16 * k..16 * k + 8] == Encode(init)[16 * k..16 * k + 8];
      assert r[16 * k + 8..16 * k + 16] == Encode(init)[16 * k + 8..16 * k + 16];
    } else {
      assert r[16 * k..16 * k + 8] == BytesOf(e.0, 8);
      assert r[16 * k + 8..16 * k + 16] == BytesOf(e.1, 8);
    }
  }

  predicate Fits64(entries: seq<(nat, nat)>) {
    forall k :: 0 <= k < |entries| ==> entries[k].0 < Pow(2, 64) && entries[k].1 < Pow(2, 64)
  }

  lemma {:induction false} PowAdd(b: nat, m: nat, n: nat)
    requires b > 0
    ensures Pow(b, m + n) == Pow(b, m) * Pow(b, n)
  {
    if n > 0 {
      PowAdd(b, m, n - 1);
      assert Pow(b, m + n) == b * Pow(b, m + n - 1);
      assert Pow(b, m) * (b * Pow(b, n - 1)) == b * (Pow(b, m) * Pow(b, n - 1));
    }
  }

  lemma {:induction false} PowBytes(n: nat)
    ensures Pow(256, n) == Pow(2, 8 * n)
  {
    if n > 0 {
      PowBytes(n - 1);
      PowAdd(2, 8 * (n - 1), 8);
      assert Pow(2, 8) == 256;
    }
  }

  lemma Pow256()
    ensures Pow(256, 8) == Pow(2, 64)
  {
    PowBytes(8);
  }

  lemma RoundTripAt(entries: seq<(nat, nat)>, k: nat)
    requires Fits64(entries) && k < |entries|
    ensures RecordAt(Binarize(Encode(entries)), k) == Record(Some(entries[k].0), Some(entries[k].1))
  {
    RecordFields(Encode(entries), k);
    EncodeAt(entries, k);
    Pow256();
    var e := entries[k];
    BigEndianBytesOf(e.0, 8);
    BigEndianBytesOf(e.1, 8);
    DivModUnique(e.0, Pow(256, 8), 0, e.0);
    DivModUnique(e.1, Pow(256, 8), 0, e.1);
  }

  /** Parsing an encoded index gives back every pair, in order. */
  lemma RoundTrip(entries: seq<(nat, nat)>)
    requires Fits64(entries)
    ensures RecordsOf(Binarize(Encode(entries)))
         == seq(|entries|, k requires 0 <= k < |entries| => Record(Some(entries[k].0), Some(entries[k].1)))
  {
    var input := Encode(entries);
    var target := seq(|entries|, k requires 0 <= k < |entries| => Record(Some(entries[k].0), Some(entries[k].1)));
    RecordCount(input);
    DivModUnique(|input|, 16, |entries|, 0);
    var records := RecordsOf(Binarize(input));
    assert |records| == |target|;
    forall k | 0 <= k < |records| ensures records[k] == target[k] {
      RoundTripAt(entries, k);
    }
  }

  /** The sample index of the test suite: a file of 1088 records, 17408 bytes. */
  lemma SampleCount(input: Bytes)
    requires |input| == 1088 * 16
    ensures |RecordsOf(Binarize(input))| == 1088
  {
    RecordCount(input);
  }
}
