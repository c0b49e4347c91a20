/** The part of JavaScript number semantics the reader relies on, over exact
    rationals (`real`): division that yields `Infinity` or `NaN` for a zero
    divisor, comparisons that are false whenever `NaN` is involved,
    `Math.floor`, `Math.round`, `Math.ceil` of a quotient, truthiness, and the
    remainder operator on non-negative operands. Rounding errors of binary
    floating point are not modelled. */
module Numbers {

  /** A JavaScript number: a finite value, one of the two infinities, or `NaN`. */
  datatype JsNum = Finite(value: real) | Infinity | NegInfinity | NaN

  /** `a / b`. */
  function Div(a: real, b: real): (r: JsNum)
    ensures r.Finite? <==> b != 0.0
    ensures r.Finite? ==> r.value * b == a
    ensures r == NaN <==> a == 0.0 && b == 0.0
  {
    if b != 0.0 then Finite(a / b)
    else if a > 0.0 then Infinity
    else if a < 0.0 then NegInfinity
    else NaN
  }

  /** `a <= b`: false as soon as one side is `NaN`. */
  predicate LessEq(a: JsNum, b: JsNum) {
    match (a, b)
    case (NaN, _) => false
    case (_, NaN) => false
    case (NegInfinity, _) => true
    case (_, Infinity) => true
    case (Infinity, _) => false
    case (_, NegInfinity) => false
    case (Finite(x), Finite(y)) => x <= y
  }

  lemma LessEqTransitive(a: JsNum, b: JsNum, c: JsNum)
    requires LessEq(a, b) && LessEq(b, c)
    ensures LessEq(a, c)
  {
  }

  /** A value is truthy unless it is `0` or `NaN` (`undefined` is modelled by its absence). */
  predicate Truthy(n: JsNum) {
    n != NaN && n != Finite(0.0)
  }

  /** `Math.floor`. */
  function Floor(x: real): (r: int)
    ensures r as real <= x < r as real + 1.0
  {
    x.Floor
  }

  /** `Math.round`: the nearest integer, halves rounded up. */
  function Round(x: real): (r: int)
    ensures x - 0.5 < r as real <= x + 0.5
  {
    (x + 0.5).Floor
  }

  /** `x % m` for `x >= 0` and `m > 0`: what is left after taking out as
      many whole `m`s as fit. */
  function Mod(x: real, m: real): (r: real)
    requires x >= 0.0 && m > 0.0
    ensures 0.0 <= r < m
    ensures x == Floor(x / m) as real * m + r
  {
    MulFloor(x, m);
    x - Floor(x / m) as real * m
  }

  lemma DivMul(x: real, m: real)
    requires m > 0.0
    ensures (x / m) * m == x
  {
  }

  /** Dividing by at most one gives no less. */
  lemma DivAtMostOne(x: real, m: real)
    requires x >= 0.0 && 0.0 < m <= 1.0
    ensures x / m >= x
  {
    var y := x / m;
    DivMul(x, m);
    if x > 0.0 {
      assert y > 0.0;
      MulLeReal(m, 1.0, y);
      assert m * y == x;
    }
  }

  lemma MulLeReal(a: real, b: real, m: real)
    requires a <= b && m > 0.0
    ensures a * m <= b * m
  {
  }

  lemma MulLtReal(a: real, b: real, m: real)
    requires a < b && m > 0.0
    ensures a * m < b * m
  {
  }

  /** Whole `m`s in `x`: `Floor(x / m)` of them fit and one more does not. */
  lemma MulFloor(x: real, m: real)
    requires x >= 0.0 && m > 0.0
    ensures Floor(x / m) as real * m <= x < Floor(x / m) as real * m + m
  {
    var y := x / m;
    var q := Floor(y) as real;
    assert q <= y < q + 1.0;
    DivMul(x, m);
    MulLeReal(q, y, m);
    MulLtReal(y, q + 1.0, m);
    var below, above := q * m, (q + 1.0) * m;
    assert above == below + m;
    assert y * m == x;
    assert x < above;
  }

  // ---- Integer division ------------------------------------------------------

  lemma MulBetween(a: int, d: int)
    requires d > 0 && -d < a * d < d
    ensures a == 0
  {
  }

  /** Quotient and remainder are unique. */
  lemma DivModUnique(x: nat, d: nat, q: nat, r: nat)
    requires d > 0 && x == q * d + r && r < d
    ensures x % d == r && x / d == q
  {
    var q', r' := x / d, x % d;
    assert (q - q') * d == r' - r;
    MulBetween(q - q', d);
  }

  /** `Math.ceil(a / d)` for naturals. */
  function CeilDiv(a: nat, d: nat): nat
    requires d > 0
  {
    (a + d - 1) / d
  }

  /** `m` is `CeilDiv(a, d)` exactly when `m` pages of `d` cover `a` and `m - 1` do not. */
  lemma CeilDivExact(a: nat, d: nat, m: nat)
    requires d > 0
    requires (m == 0 && a == 0) || (m > 0 && d * (m - 1) < a <= d * m)
    ensures CeilDiv(a, d) == m
  {
    if m > 0 {
      var r := a + d - 1 - d * m;
      assert a + d - 1 == m * d + r;
      DivModUnique(a + d - 1, d, m, r);
    } else {
      DivModUnique(d - 1, d, 0, d - 1);
    }
  }

  /** The least number of `d`-sized pages that cover `a`. */
  lemma CeilDivCovers(a: nat, d: nat)
    requires d > 0
    ensures d * CeilDiv(a, d) >= a
    ensures CeilDiv(a, d) > 0 ==> d * (CeilDiv(a, d) - 1) < a
    ensures CeilDiv(a, d) == 0 <==> a == 0
  {
    var q := (a + d - 1) / d;
    var r := (a + d - 1) % d;
    assert a + d - 1 == q * d + r;
    if q > 0 {
      assert d * (q - 1) == q * d - d;
    }
    if a == 0 {
      DivModUnique(d - 1, d, 0, d - 1);
    }
  }
}
