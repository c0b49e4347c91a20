/** The 32-bit string hash of src/utils/hash.js, over the characters
    `"," + byte.toString()` of each byte of a buffer. */
module Hash {
  import opened Common
  import opened Text

  const Two32: int := 0x1_0000_0000
  const Two31: int := 0x8000_0000

  /** A signed 32-bit integer, what JavaScript's bitwise operators produce. */
  type Int32 = x: int | -Two31 <= x < Two31

  /** ECMAScript ToInt32: reduce modulo 2^32 and read the result as signed. */
  function ToInt32(x: int): (r: Int32)
    ensures (r - x) % Two32 == 0
  {
    var m := x % Two32;
    if m < Two31 then m else m - Two32
  }

  /** Numbers that agree modulo 2^32 have the same ToInt32. */
  lemma ToInt32Congruent(a: int, b: int)
    requires (a - b) % Two32 == 0
    ensures ToInt32(a) == ToInt32(b)
  {
    DivModUniqueLocal(a, b);
  }

  lemma DivModUniqueLocal(a: int, b: int)
    requires (a - b) % Two32 == 0
    ensures a % Two32 == b % Two32
  {
    var q := (a - b) / Two32;
    assert a - b == q * Two32;
    assert a == b + q * Two32;
    assert (b + q * Two32) % Two32 == b % Two32 by {
      var r := b % Two32;
      var d := b / Two32;
      assert b == d * Two32 + r;
      assert b + q * Two32 == (d + q) * Two32 + r;
    }
  }

  /** ToInt32 leaves a signed 32-bit value as it is. */
  lemma ToInt32Fixed(x: Int32)
    ensures ToInt32(x) == x
  {
    if x >= 0 {
      assert x % Two32 == x;
    } else {
      assert x % Two32 == x + Two32;
    }
  }

  /** One step of the inner loop: `hash = (hash << 5) - hash + char`, then
      `hash = hash & hash`. The shift works on the 32-bit value; the
      subtraction and addition are exact in a double, and `&` truncates. */
  function Step(h: Int32, c: char): Int32 {
    ToInt32(ToInt32(h * 32) - h + c as int)
  }

  /** Each step is `h * 31 + charCode` reduced to 32 bits. */
  lemma StepIsMul31(h: Int32, c: char)
    ensures Step(h, c) == ToInt32(31 * h + c as int)
  {
    var s := ToInt32(h * 32);
    assert (s - h + c as int) - (31 * h + c as int) == s - h * 32;
    ToInt32Congruent(s - h + c as int, 31 * h + c as int);
  }

  /** The hash of a character stream, continued from `h`. */
  function Fold(h: Int32, s: string): Int32 {
    if s == [] then h else Step(Fold(h, s[..|s| - 1]), s[|s| - 1])
  }

  /** The hash is a left fold: hashing `s + t` continues the hash of `s` over `t`. */
  lemma {:induction false} FoldConcat(h: Int32, s: string, t: string)
    ensures Fold(h, s + t) == Fold(Fold(h, s), t)
  {
    if t == [] {
      assert s + t == s;
    } else {
      var t' := t[..|t| - 1];
      FoldConcat(h, s, t');
      assert (s + t)[..|s + t| - 1] == s + t';
    }
  }

  lemma StepCongruent(a: int, b: int, c: int)
    requires (a - b) % Two32 == 0
    ensures ((31 * a + c) - (31 * b + c)) % Two32 == 0
  {
    var q := (a - b) / Two32;
    assert a - b == q * Two32;
    assert (31 * a + c) - (31 * b + c) == (31 * q) * Two32;
  }

  /** The polynomial `sum s[i] * 31^(|s| - 1 - i)`, unreduced. */
  function Poly(s: string): int {
    if s == [] then 0 else 31 * Poly(s[..|s| - 1]) + s[|s| - 1] as int
  }

  /** The hash from 0 is the polynomial of the characters reduced to 32 bits:
      the wrap-around of each step loses nothing the final reduction keeps. */
  lemma {:induction false} FoldIsPoly(s: string)
    ensures Fold(0, s) == ToInt32(Poly(s))
  {
    if s == [] {
      ToInt32Fixed(0);
    } else {
      var p := s[..|s| - 1];
      var c := s[|s| - 1];
      FoldIsPoly(p);
      var h := Fold(0, p);
      StepIsMul31(h, c);
      StepCongruent(h, Poly(p), c as int);
      ToInt32Congruent(31 * h + c as int, Poly(s));
    }
  }

  // ---- The input ---------------------------------------------------------------

  /** What `hash` is given: a typed array or Buffer (it has `length` and
      `byteLength`), a `DataView` (only `byteLength`, read with `getUint8`),
      or a plain array of byte values (only `length`). */
  datatype HashInput = Typed(bytes: Bytes) | View(bytes: Bytes) | Plain(bytes: Bytes)

  datatype HashError = EmptyData

  /** `"," + byte.toString()` for each byte, in order. */
  function Chars(bytes: Bytes): string {
    if bytes == [] then [] else Chars(bytes[..|bytes| - 1]) + ("," + NatToString(bytes[|bytes| - 1]))
  }

  lemma {:induction false} CharsConcat(a: Bytes, b: Bytes)
    ensures Chars(a + b) == Chars(a) + Chars(b)
  {
    if b == [] {
      assert a + b == a;
    } else {
      var b' := b[..|b| - 1];
      var tail := "," + NatToString(b[|b| - 1]);
      CharsConcat(a, b');
      assert (a + b)[..|a + b| - 1] == a + b';
      assert (a + b)[|a + b| - 1] == b[|b| - 1];
      assert Chars(a + b) == Chars(a + b') + tail;
      assert Chars(b) == Chars(b') + tail;
    }
  }

  /** Each byte contributes a comma and then its decimal digits. */
  lemma CharsShape(bytes: Bytes)
    ensures |Chars(bytes)| >= 2 * |bytes|
    ensures bytes != [] ==> Chars(bytes)[0] == ','
  {
    if bytes != [] {
      var p := bytes[..|bytes| - 1];
      CharsShape(p);
      if p == [] {
        assert Chars(bytes) == [] + ("," + NatToString(bytes[0]));
      }
    }
  }

  /** `data.length || data.byteLength`: an empty plain array has neither a
      non-zero `length` nor a `byteLength`, so the result is `undefined`. */
  function LengthOf(d: HashInput): Option<nat> {
    match d
    case Typed(b) => Some(|b|)
    case View(b) => Some(|b|)
    case Plain(b) => if |b| > 0 then Some(|b|) else None
  }

  /** `hash(data)` as written: only a length of exactly 0 throws, and a loop
      bounded by `undefined` does not run. */
  function HashAsWritten(d: HashInput): (r: Result<Int32, HashError>)
    ensures r.Err? <==> LengthOf(d) == Some(0)
  {
    if LengthOf(d) == Some(0) then Err(EmptyData) else Ok(Fold(0, Chars(d.bytes)))
  }

  /** An empty plain array slips past the emptiness check and hashes to 0. */
  lemma EmptyPlainArrayAsWritten()
    ensures HashAsWritten(Plain([])) == Ok(0)
    ensures HashAsWritten(Typed([])) == Err(EmptyData)
  {
  }

  /** `hash(data)` as intended: empty data of any kind throws. */
  function HashOf(d: HashInput): (r: Result<Int32, HashError>)
    ensures r.Err? <==> d.bytes == []
    ensures r.Ok? ==> r.value == ToInt32(Poly(Chars(d.bytes)))
  {
    FoldIsPoly(Chars(d.bytes));
    if d.bytes == [] then Err(EmptyData) else Ok(Fold(0, Chars(d.bytes)))
  }

  /** The two agree on every input but the empty plain array. */
  lemma HashAgrees(d: HashInput)
    requires d != Plain([])
    ensures HashAsWritten(d) == HashOf(d)
  {
  }

  /** Hashing the concatenation of two buffers continues the hash of the
      first over the characters of the second. */
  lemma HashOfConcat(a: Bytes, b: Bytes)
    requires a != []
    ensures HashOf(Typed(a + b)).Ok?
    ensures HashOf(Typed(a + b)).value == Fold(HashOf(Typed(a)).value, Chars(b))
  {
    CharsConcat(a, b);
    FoldConcat(0, Chars(a), Chars(b));
  }

  /** The two loops of `hash`, with the emptiness check as intended. */
  method ComputeHash(d: HashInput) returns (r: Result<Int32, HashError>)
    ensures r == HashOf(d)
  {
    var bytes := d.bytes;
    if |bytes| == 0 {
      return Err(EmptyData);
    }
    var h: Int32 := 0;
    for i := 0 to |bytes|
      invariant h == Fold(0, Chars(bytes[..i]))
    {
      var chars := "," + NatToString(bytes[i]);
      ghost var start := h;
      for c := 0 to |chars|
        invariant h == Fold(start, chars[..c])
      {
        assert chars[..c + 1][..c] == chars[..c];
        h := ToInt32(ToInt32(h * 32) - h + chars[c] as int);
      }
      assert chars[..|chars|] == chars;
      FoldConcat(0, Chars(bytes[..i]), chars);
      assert bytes[..i + 1][..i] == bytes[..i];
    }
    assert bytes[..|bytes|] == bytes;
    r := Ok(h);
  }
}
