/** Small shared vocabulary: optional values, results with an error case, bytes. */
module Common {

  /** A value that may be absent (JavaScript `undefined`). */
  datatype Option<T> = None | Some(value: T)

  /** The outcome of an operation that can throw: a value or the error it throws. */
  datatype Result<T, E> = Ok(value: T) | Err(error: E)

  /** One octet of a byte buffer. */
  type Byte = x: int | 0 <= x < 256

  type Bytes = seq<Byte>

  function Min(a: int, b: int): int { if a <= b then a else b }

  function Max(a: int, b: int): int { if a <= b then b else a }

  /** `ArrayBuffer.prototype.slice(from, to)` for non-negative bounds: both are clamped to the length. */
  function Slice<T>(s: seq<T>, from: nat, to: nat): (r: seq<T>)
    ensures from <= to <= |s| ==> r == s[from..to]
    ensures |r| == Max(0, Min(to, |s|) - Min(from, |s|))
  {
    var a := Min(from, |s|);
    var b := Min(to, |s|);
    if a <= b then s[a..b] else []
  }

  /** Slicing a slice is slicing the whole, when the inner window stays inside the outer one. */
  lemma SliceOfSlice<T>(s: seq<T>, a: nat, b: nat, c: nat, d: nat)
    requires a <= b && a + d <= b && c <= d
    ensures Slice(Slice(s, a, b), c, d) == Slice(s, a + c, a + d)
  {
    if b <= |s| {
      assert Slice(s, a, b) == s[a..b];
      var inner := s[a..b];
      assert Slice(inner, c, d) == inner[c..d];
      forall k | 0 <= k < d - c ensures inner[c..d][k] == s[a + c..a + d][k] {
        assert inner[c + k] == s[a + c + k];
      }
    } else if a + d <= |s| {
      var inner := Slice(s, a, b);
      assert inner == s[a..|s|];
      assert Slice(inner, c, d) == inner[c..d];
      forall k | 0 <= k < d - c ensures inner[c..d][k] == s[a + c..a + d][k] {
        assert inner[c + k] == s[a + c + k];
      }
    } else {
      var inner := Slice(s, a, b);
      if a <= |s| {
        assert inner == s[a..|s|];
        var lo := Min(c, |inner|);
        assert Slice(inner, c, d) == inner[lo..|inner|];
        if a + c <= |s| {
          assert inner[lo..|inner|] == s[a + c..|s|];
        }
      }
    }
  }
}
