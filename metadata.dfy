/** Text-level pieces of the metadata reader (src/core/parse-mrf.js and its
    predecessor src/parseMRF.js): removing a CDATA wrapper and the `&quot;`
    entity from element text, the `<Options>` element, the TWMS `<Time>`
    element, and the part of `Number.parseFloat` these need. */
module Metadata {
  import opened Common
  import opened Numbers
  import opened Text

  // ---- clean -----------------------------------------------------------------

  const CDATA_OPEN: string := "<![CDATA["

  predicate StartsWith(s: string, prefix: string) {
    |prefix| <= |s| && s[..|prefix|] == prefix
  }

  /** `str.slice(9, -3)` when the text starts with `<![CDATA[`, whatever it
      ends with; otherwise the text unchanged. This is all `clean` does in
      src/parseMRF.js. */
  function Uncdata(s: string): (r: string)
    ensures StartsWith(s, CDATA_OPEN) ==> r == Slice(s, 9, |s| - 3)
    ensures !StartsWith(s, CDATA_OPEN) ==> r == s
  {
    if StartsWith(s, CDATA_OPEN) then Slice(s, 9, |s| - 3) else s
  }

  /** `str.replace(/\&quot\;/g, '"')`: every `&quot;`, scanned left to right
      without overlap, becomes a double quote. */
  function Unescape(s: string): (r: string)
    ensures |r| <= |s|
    decreases |s|
  {
    if s == [] then []
    else if StartsWith(s, "&quot;") then "\"" + Unescape(s[6..])
    else [s[0]] + Unescape(s[1..])
  }

  /** `clean` of src/core/parse-mrf.js. */
  function Clean(s: string): string {
    Unescape(Uncdata(s))
  }

  /** Writing `"` as `&quot;`: the encoding `Unescape` undoes. */
  function Escape(s: string): string {
    if s == [] then [] else (if s[0] == '"' then "&quot;" else [s[0]]) + Escape(s[1..])
  }

  lemma {:induction false} UnescapeEscape(s: string)
    requires '&' !in s
    ensures Unescape(Escape(s)) == s
  {
    if s != [] {
      UnescapeEscape(s[1..]);
      var e := Escape(s);
      if s[0] == '"' {
        assert e == "&quot;" + Escape(s[1..]);
        assert e[6..] == Escape(s[1..]);
      } else {
        assert e == [s[0]] + Escape(s[1..]);
        assert e[1..] == Escape(s[1..]);
      }
      assert s == [s[0]] + s[1..];
    }
  }

  /** Text without an ampersand has no entity to replace. */
  lemma {:induction false} UnescapeNoEntity(s: string)
    requires '&' !in s
    ensures Unescape(s) == s
  {
    if s != [] {
      UnescapeNoEntity(s[1..]);
      assert s == [s[0]] + s[1..];
    }
  }

  /** The older `clean` gives back the body of a CDATA section. */
  lemma UncdataWrapped(body: string)
    ensures Uncdata(CDATA_OPEN + body + "]]>") == body
  {
    var s := CDATA_OPEN + body + "]]>";
    assert s[..9] == CDATA_OPEN;
    assert s[9..|s| - 3] == body;
  }

  /** Wrapping text in a CDATA section and cleaning it gives the text back
      (with the entity replaced in the newer version). */
  lemma CleanCdata(body: string)
    ensures Uncdata(CDATA_OPEN + body + "]]>") == body
    ensures Clean(CDATA_OPEN + body + "]]>") == Unescape(body)
  {
    UncdataWrapped(body);
  }

  /** Text that is neither wrapped nor escaped comes through `clean` unchanged. */
  lemma CleanPlain(s: string)
    requires !StartsWith(s, CDATA_OPEN) && '&' !in s
    ensures Clean(s) == s
  {
    UnescapeNoEntity(s);
  }

  /** The text inside a CDATA section is found again whatever quotes it has. */
  lemma CleanEscaped(body: string)
    requires '&' !in body
    ensures Clean(CDATA_OPEN + Escape(body) + "]]>") == body
  {
    CleanCdata(Escape(body));
    UnescapeEscape(body);
  }

  // ---- parseFloat ------------------------------------------------------------

  function Pow10(n: nat): (r: nat)
    ensures r > 0
  {
    if n == 0 then 1 else 10 * Pow10(n - 1)
  }

  /** `StrWhiteSpaceChar` of ECMAScript: the white space and line terminators
      `parseFloat` skips before the number. */
  predicate IsSpace(c: char) {
    c == '\t' || c == '\n' || c == '\U{000B}' || c == '\U{000C}' || c == '\r' || c == ' '
    || c == '\U{00A0}' || c == '\U{1680}' || ('\U{2000}' <= c <= '\U{200A}')
    || c == '\U{2028}' || c == '\U{2029}' || c == '\U{202F}' || c == '\U{205F}'
    || c == '\U{3000}' || c == '\U{FEFF}'
  }

  /** How many white-space characters the text starts with. */
  function SpaceRun(s: string): (n: nat)
    ensures n <= |s|
    ensures forall i :: 0 <= i < n ==> IsSpace(s[i])
    ensures n < |s| ==> !IsSpace(s[n])
  {
    if s == [] || !IsSpace(s[0]) then 0 else 1 + SpaceRun(s[1..])
  }

  /** The text after the leading white space. */
  function Trimmed(s: string): string {
    s[SpaceRun(s)..]
  }

  /** The trimmed text starts with a minus sign. */
  predicate Negative(s: string) {
    |Trimmed(s)| > 0 && Trimmed(s)[0] == '-'
  }

  /** The text `parseFloat` reads the number from: white space and at most
      one sign removed. */
  function NumberText(s: string): string {
    var t := Trimmed(s);
    if |t| > 0 && (t[0] == '-' || t[0] == '+') then t[1..] else t
  }

  /** The text starts an unsigned decimal literal: `Infinity`, a digit, or a
      point followed by a digit. */
  predicate StartsNumber(u: string) {
    StartsWith(u, "Infinity") || (|u| > 0 && IsDigit(u[0])) || (|u| > 1 && u[0] == '.' && IsDigit(u[1]))
  }

  /** The longest `digits [. digits]` or `. digits` prefix, as the value of
      all its digits, the number of them after the point, and its length. A
      point with no digit on either side is not a number. */
  function Mantissa(u: string): (r: Option<(nat, nat, nat)>)
    ensures r.Some? ==> r.value.2 <= |u|
    ensures r.Some? <==> (|u| > 0 && IsDigit(u[0])) || (|u| > 1 && u[0] == '.' && IsDigit(u[1]))
  {
    var d := DigitRun(u);
    if d < |u| && u[d] == '.' then
      var f := DigitRun(u[d + 1..]);
      if d == 0 && f == 0 then None
      else Some((DigitsValue(u[..d] + u[d + 1..][..f]), f, d + 1 + f))
    else if d == 0 then None
    else Some((DigitsValue(u[..d]), 0, d))
  }

  /** The exponent `e`/`E`, an optional sign and digits at the start of the
      text after the mantissa; without digits there is no exponent (0). */
  function Exponent(rest: string): int {
    if |rest| >= 2 && (rest[0] == 'e' || rest[0] == 'E') then
      var neg := rest[1] == '-';
      var digits := if rest[1] == '-' || rest[1] == '+' then rest[2..] else rest[1..];
      var k := DigitRun(digits);
      if k == 0 then 0
      else if neg then -(DigitsValue(digits[..k]) as int) else DigitsValue(digits[..k])
    else 0
  }

  /** `m × 10^e`, one factor of ten at a time. */
  function Scale(m: real, e: int): (r: real)
    requires m >= 0.0
    ensures r >= 0.0
    decreases if e >= 0 then e else -e
  {
    if e == 0 then m
    else if e > 0 then Scale(m, e - 1) * 10.0
    else Scale(m, e + 1) / 10.0
  }

  /** Unary minus on a number. */
  function Negate(n: JsNum): JsNum {
    match n
    case Finite(v) => Finite(-v)
    case Infinity => NegInfinity
    case NegInfinity => Infinity
    case NaN => NaN
  }

  /** An unsigned decimal literal at the start of the text; what follows it is ignored. */
  function ParseUnsigned(u: string): JsNum {
    var m := Mantissa(u);
    if StartsWith(u, "Infinity") then Infinity
    else if m.None? then NaN
    else Finite(Scale(m.value.0 as real, Exponent(u[m.value.2..]) - m.value.1))
  }

  /** `Number.parseFloat`: skip white space, take one sign, then read the
      longest prefix that is `Infinity` or a decimal literal with an optional
      exponent. The result is `NaN` exactly when no such prefix exists, a
      negative number only after a minus sign, and infinite only for the word
      `Infinity`. */
  function ParseFloat(s: string): (n: JsNum)
    ensures n == NaN <==> !StartsNumber(NumberText(s))
    ensures n.Finite? && n.value < 0.0 ==> Negative(s)
    ensures (n == Infinity || n == NegInfinity) <==> StartsWith(NumberText(s), "Infinity")
  {
    var u := NumberText(s);
    if Negative(s) then Negate(ParseUnsigned(u)) else ParseUnsigned(u)
  }

  /** Leading white space does not change the number. */
  lemma ParseFloatSpace(c: char, s: string)
    requires IsSpace(c)
    ensures ParseFloat([c] + s) == ParseFloat(s)
  {
    var t := [c] + s;
    assert t[1..] == s;
    assert Trimmed(t) == Trimmed(s);
  }

  /** A minus sign negates the number, and a plus sign changes nothing. */
  lemma ParseFloatSign(u: string)
    requires u == [] || (!IsSpace(u[0]) && u[0] != '-' && u[0] != '+')
    ensures ParseFloat("-" + u) == Negate(ParseFloat(u))
    ensures ParseFloat("+" + u) == ParseFloat(u)
  {
    assert Trimmed("-" + u) == "-" + u && ("-" + u)[1..] == u;
    assert Trimmed("+" + u) == "+" + u && ("+" + u)[1..] == u;
    assert Trimmed(u) == u && NumberText(u) == u;
  }

  lemma {:induction false} DigitRunAll(s: string)
    requires AllDigits(s)
    ensures DigitRun(s) == |s|
  {
    if s != [] {
      DigitRunAll(s[1..]);
    }
  }

  /** The digits of a natural, followed by text that cannot continue the number. */
  lemma NatPrefix(n: nat, rest: string)
    requires rest == [] || !IsDigit(rest[0])
    ensures var s := NatToString(n) + rest;
      DigitRun(s) == |NatToString(n)| && s[..|NatToString(n)|] == NatToString(n)
      && s[|NatToString(n)|..] == rest && DigitsValue(NatToString(n)) == n
  {
    var s := NatToString(n) + rest;
    DigitsValueOfNatToString(n);
    if rest == [] {
      assert s == NatToString(n);
      DigitRunAll(s);
    } else {
      DigitRunConcat(NatToString(n), rest);
    }
    assert s[..|NatToString(n)|] == NatToString(n);
  }

  /** Text that starts with a digit is read as it is: no white space, no sign. */
  lemma DigitFirst(s: string)
    requires |s| > 0 && IsDigit(s[0])
    ensures ParseFloat(s) == ParseUnsigned(s)
  {
    assert SpaceRun(s) == 0;
    assert Trimmed(s) == s;
  }

  /** A run of `d` digits not followed by a point is an integer mantissa,
      scaled by the exponent that follows it. */
  lemma IntegerMantissa(u: string, d: nat)
    requires 0 < d <= |u| && DigitRun(u) == d && (d == |u| || u[d] != '.')
    ensures ParseUnsigned(u) == Finite(Scale(DigitsValue(u[..d]) as real, Exponent(u[d..])))
  {
    assert !StartsWith(u, "Infinity") by {
      assert IsDigit(u[0]) && "Infinity"[0] == 'I';
      FirstCharacter(u, "Infinity");
    }
    IntegerDigits(u, d);
  }

  lemma IntegerDigits(u: string, d: nat)
    requires 0 < d <= |u| && DigitRun(u) == d && (d == |u| || u[d] != '.')
    ensures Mantissa(u) == Some((DigitsValue(u[..d]), 0, d))
  {
  }

  /** A text starts with a prefix only if it starts with its first character. */
  lemma FirstCharacter(s: string, prefix: string)
    requires |s| > 0 && |prefix| > 0 && s[0] != prefix[0]
    ensures !StartsWith(s, prefix)
  {
    if |prefix| <= |s| {
      assert s[..|prefix|][0] == s[0];
    }
  }

  /** `parseFloat(String(n))` is `n`, and text after it that cannot continue
      a number (no digit, point or exponent) is ignored. */
  lemma ParseFloatNat(n: nat, rest: string)
    requires rest == [] || (!IsDigit(rest[0]) && rest[0] != '.' && rest[0] != 'e' && rest[0] != 'E')
    ensures ParseFloat(NatToString(n) + rest) == Finite(n as real)
  {
    var s := NatToString(n) + rest;
    var d := |NatToString(n)|;
    NatPrefix(n, rest);
    assert s[0] == NatToString(n)[0];
    DigitFirst(s);
    IntegerMantissa(s, d);
    assert Exponent(s[d..]) == 0;
  }

  /** `parseFloat(String(n) + "e" + String(k))` is `n × 10^k` (`ScaleUp`). */
  lemma ParseFloatExponent(n: nat, k: nat)
    ensures ParseFloat(NatToString(n) + ("e" + NatToString(k))) == Finite(Scale(n as real, k))
  {
    ParseFloatScaled(n, "e" + NatToString(k));
    ExponentUp(k);
  }

  /** `parseFloat(String(n) + "e-" + String(k))` is `n / 10^k`. */
  lemma ParseFloatNegativeExponent(n: nat, k: nat)
    ensures ParseFloat(NatToString(n) + ("e-" + NatToString(k))) == Finite(n as real / Pow10(k) as real)
  {
    var tail := "e-" + NatToString(k);
    ParseFloatScaled(n, tail);
    ExponentDown(k);
    ScaleDown(n as real, k);
  }

  /** `Scale` by a natural exponent multiplies by a power of ten, and by a
      negative one divides by it. */
  lemma {:induction false} ScaleUp(m: real, k: nat)
    requires m >= 0.0
    ensures Scale(m, k) == m * Pow10(k) as real
  {
    if k > 0 {
      ScaleUp(m, k - 1);
    }
  }

  lemma {:induction false} ScaleDown(m: real, k: nat)
    requires m >= 0.0
    ensures Scale(m, -(k as int)) == m / Pow10(k) as real
  {
    if k > 0 {
      ScaleDown(m, k - 1);
      var p := Pow10(k - 1) as real;
      assert Pow10(k) as real == 10.0 * p;
      assert Scale(m, -(k as int)) == (m / p) / 10.0;
    }
  }

  /** The digits of a natural followed by an exponent part. */
  lemma ParseFloatScaled(n: nat, tail: string)
    requires |tail| > 0 && tail[0] == 'e'
    ensures ParseFloat(NatToString(n) + tail) == Finite(Scale(n as real, Exponent(tail)))
  {
    var s := NatToString(n) + tail;
    var d := |NatToString(n)|;
    NatPrefix(n, tail);
    assert s[0] == NatToString(n)[0];
    DigitFirst(s);
    IntegerMantissa(s, d);
  }

  /** The digits of a natural read in full. */
  lemma NatDigits(k: nat)
    ensures DigitRun(NatToString(k)) == |NatToString(k)| && DigitsValue(NatToString(k)) == k
  {
    DigitRunAll(NatToString(k));
    DigitsValueOfNatToString(k);
  }

  lemma ExponentUp(k: nat)
    ensures Exponent("e" + NatToString(k)) == k
  {
    var tail := "e" + NatToString(k);
    var digits := NatToString(k);
    assert tail[1..] == digits && tail[1] == digits[0];
    NatDigits(k);
    assert digits[..|digits|] == digits;
  }

  lemma ExponentDown(k: nat)
    ensures Exponent("e-" + NatToString(k)) == -(k as int)
  {
    var tail := "e-" + NatToString(k);
    var digits := NatToString(k);
    assert tail[2..] == digits && tail[1] == '-';
    NatDigits(k);
    assert digits[..|digits|] == digits;
  }

  /** The value of `LERC_PREC=0.5`. */
  lemma ParseFloatHalf()
    ensures ParseFloat("0.5") == Finite(0.5)
  {
    var s := "0.5";
    assert Trimmed(s) == s;
    assert DigitRun(s[2..]) == 1;
    assert DigitRun(s) == 1;
    assert s[..1] + s[2..][..1] == "05" && DigitsValue("05") == 5;
    assert s[3..] == [];
    assert Scale(5.0, -1) == 0.5;
  }

  /** A minus sign and leading white space: `-0.5` and ` 0.5`. */
  lemma ParseFloatMinusHalf()
    ensures ParseFloat("-0.5") == Finite(-0.5)
  {
    assert "-0.5" == "-" + "0.5";
    ParseFloatSign("0.5");
    ParseFloatHalf();
  }

  lemma ParseFloatSpacedHalf()
    ensures ParseFloat(" 0.5") == Finite(0.5)
  {
    assert " 0.5" == [' '] + "0.5";
    ParseFloatSpace(' ', "0.5");
    ParseFloatHalf();
  }

  lemma ParseFloatPlus()
    ensures ParseFloat("+1") == Finite(1.0)
  {
    var s := "1";
    assert DigitRun(s) == 1 && s[..1] == "1" && s[1..] == [] && DigitsValue("1") == 1;
    DigitFirst(s);
    IntegerMantissa(s, 1);
    ParseFloatSign(s);
    assert "+" + s == "+1";
  }

  /** Exponents: `1e-3` is 0.001 and `5e2` is 500. */
  lemma ParseFloatMilli()
    ensures ParseFloat("1e-3") == Finite(0.001)
  {
    assert NatToString(1) == "1" && NatToString(3) == "3";
    assert "1e-3" == NatToString(1) + ("e-" + NatToString(3));
    ParseFloatScaled(1, "e-" + NatToString(3));
    ExponentDown(3);
    Thousandth();
  }

  lemma Thousandth()
    ensures Scale(1.0, -3) == 0.001
  {
  }

  lemma ParseFloatHundreds()
    ensures ParseFloat("5e2") == Finite(500.0)
  {
    assert NatToString(5) == "5" && NatToString(2) == "2";
    assert "5e2" == NatToString(5) + ("e" + NatToString(2));
    ParseFloatExponent(5, 2);
    assert Scale(5.0, 2) == 500.0;
  }

  lemma ParseFloatNegInfinity()
    ensures ParseFloat("-Infinity") == NegInfinity
  {
    var s := "-Infinity";
    assert SpaceRun(s) == 0;
    assert Trimmed(s) == s && NumberText(s) == "Infinity";
    assert StartsWith("Infinity", "Infinity");
  }

  lemma ParseFloatNoMantissa()
    ensures ParseFloat("e5") == NaN
  {
    var s := "e5";
    assert SpaceRun(s) == 0;
    assert Trimmed(s) == s && NumberText(s) == s;
  }

  // ---- Options ---------------------------------------------------------------

  /** A value of the options object: a string, `undefined` when the entry has
      no `=`, or a number for `LERC_PREC`. */
  datatype OptionValue = Text(text: string) | Number(number: JsNum) | Undefined

  /** `let [key, value] = opt.split('=')`: the key is before the first `=`. */
  function OptionKey(opt: string): string {
    Split(opt, '=')[0]
  }

  /** The value is the piece between the first and the second `=`, `undefined`
      without one; for `LERC_PREC` it goes through `Number.parseFloat`, and
      `parseFloat(undefined)` is `NaN`. */
  function OptionValueOf(opt: string): OptionValue {
    var parts := Split(opt, '=');
    if parts[0] == "LERC_PREC" then Number(if |parts| >= 2 then ParseFloat(parts[1]) else NaN)
    else if |parts| >= 2 then Text(parts[1])
    else Undefined
  }

  /** The options object after assigning entry after entry: a later entry
      with the same key overwrites an earlier one. */
  function OptionsFrom(entries: seq<string>): map<string, OptionValue> {
    if entries == [] then map[]
    else OptionsFrom(entries[..|entries| - 1])[OptionKey(entries[|entries| - 1]) := OptionValueOf(entries[|entries| - 1])]
  }

  /** `result.options` of src/parseMRF.js: the inner text split on spaces. */
  function Options(inner: string): map<string, OptionValue> {
    OptionsFrom(Split(inner, ' '))
  }

  /** The `forEach` over the space-separated entries of `<Options>`. */
  method ParseOptions(inner: string) returns (options: map<string, OptionValue>)
    ensures options == Options(inner)
  {
    var entries := Split(inner, ' ');
    options := map[];
    var i := 0;
    while i < |entries|
      invariant 0 <= i <= |entries|
      invariant options == OptionsFrom(entries[..i])
    {
      assert entries[..i + 1][..i] == entries[..i];
      options := options[OptionKey(entries[i]) := OptionValueOf(entries[i])];
      i := i + 1;
    }
    assert entries[..i] == entries;
  }

  /** `result.options` of src/core/parse-mrf.js: the entries as a list. */
  function OptionList(inner: string): (r: seq<string>)
    ensures |r| >= 1 && forall i :: 0 <= i < |r| ==> ' ' !in r[i]
    ensures Join(r, ' ') == inner
  {
    JoinSplit(inner, ' ');
    Split(inner, ' ')
  }

  /** Every key of the object comes from some entry, and every entry's key is in it. */
  lemma {:induction false} OptionsKeys(entries: seq<string>, k: string)
    ensures k in OptionsFrom(entries) <==> exists i :: 0 <= i < |entries| && OptionKey(entries[i]) == k
  {
    if entries != [] {
      var p := entries[..|entries| - 1];
      OptionsKeys(p, k);
      if exists i :: 0 <= i < |p| && OptionKey(p[i]) == k {
        var i :| 0 <= i < |p| && OptionKey(p[i]) == k;
        assert entries[i] == p[i];
      }
      if exists i :: 0 <= i < |entries| && OptionKey(entries[i]) == k {
        var i :| 0 <= i < |entries| && OptionKey(entries[i]) == k;
        if i < |p| {
          assert p[i] == entries[i];
        }
      }
    }
  }

  /** The last entry with a key decides its value. */
  lemma {:induction false} OptionsLastWins(entries: seq<string>, i: nat)
    requires i < |entries|
    requires forall j :: i < j < |entries| ==> OptionKey(entries[j]) != OptionKey(entries[i])
    ensures OptionKey(entries[i]) in OptionsFrom(entries)
    ensures OptionsFrom(entries)[OptionKey(entries[i])] == OptionValueOf(entries[i])
  {
    if i < |entries| - 1 {
      var p := entries[..|entries| - 1];
      assert p[i] == entries[i];
      OptionsLastWins(p, i);
    }
  }

  /** `k=v=w` has the value `v`: the text after a second `=` is dropped. */
  lemma SecondEqualsDropsRest(k: string, v: string, w: string)
    requires '=' !in k && '=' !in v && k != "LERC_PREC"
    ensures OptionKey(k + "=" + v + "=" + w) == k
    ensures OptionValueOf(k + "=" + v + "=" + w) == Text(v)
  {
    var s := k + "=" + v + "=" + w;
    assert s == k + ['='] + (v + ['='] + w);
    SplitCons(k, '=', v + ['='] + w);
    SplitCons(v, '=', w);
  }

  lemma SampleEntries()
    ensures Split("LERC_PREC=0.5 V2=ON", ' ') == ["LERC_PREC=0.5", "V2=ON"]
  {
    var a, b := "LERC_PREC=0.5", "V2=ON";
    assert "LERC_PREC=0.5 V2=ON" == a + [' '] + b;
    SplitCons(a, ' ', b);
    SplitNoSep(b, ' ');
  }

  lemma SamplePrecision()
    ensures OptionKey("LERC_PREC=0.5") == "LERC_PREC"
    ensures OptionValueOf("LERC_PREC=0.5") == Number(Finite(0.5))
  {
    assert "LERC_PREC=0.5" == "LERC_PREC" + ['='] + "0.5";
    SplitCons("LERC_PREC", '=', "0.5");
    SplitNoSep("0.5", '=');
    ParseFloatHalf();
  }

  lemma SampleVersion()
    ensures OptionKey("V2=ON") == "V2"
    ensures OptionValueOf("V2=ON") == Text("ON")
  {
    assert "V2=ON" == "V2" + ['='] + "ON";
    SplitCons("V2", '=', "ON");
    SplitNoSep("ON", '=');
  }

  /** The sample `<Options>LERC_PREC=0.5 V2=ON</Options>`. */
  lemma OptionsSample()
    ensures Options("LERC_PREC=0.5 V2=ON") == map["LERC_PREC" := Number(Finite(0.5)), "V2" := Text("ON")]
  {
    SampleEntries();
    SamplePrecision();
    SampleVersion();
    OptionsFromTwo("LERC_PREC=0.5", "V2=ON");
  }

  lemma OptionsFromTwo(a: string, b: string)
    ensures OptionsFrom([a, b]) == map[OptionKey(a) := OptionValueOf(a)][OptionKey(b) := OptionValueOf(b)]
  {
    assert [a, b][..1] == [a];
    assert [a][..0] == [];
    assert OptionsFrom([a]) == map[OptionKey(a) := OptionValueOf(a)];
  }

  // ---- TWMS Time ---------------------------------------------------------------

  /** The three groups of `/^([^\/]+)\/([^\/]+)\/(P\d[A-Z])$/`. */
  datatype TimeRange = TimeRange(start: string, end: string, periodicity: string)

  /** `P`, one ASCII digit, one ASCII capital letter. */
  predicate IsPeriodicity(p: string) {
    |p| == 3 && p[0] == 'P' && IsDigit(p[1]) && 'A' <= p[2] <= 'Z'
  }

  predicate WellFormedTime(t: TimeRange) {
    t.start != "" && t.end != "" && '/' !in t.start && '/' !in t.end && IsPeriodicity(t.periodicity)
  }

  function TimeText(t: TimeRange): string {
    t.start + "/" + t.end + "/" + t.periodicity
  }

  /** The `<Time>` text matched against the pattern: two non-empty parts
      without a slash and a periodicity, separated by slashes. */
  function ParseTime(s: string): Option<TimeRange> {
    var parts := Split(s, '/');
    if |parts| == 3 && parts[0] != "" && parts[1] != "" && IsPeriodicity(parts[2])
    then Some(TimeRange(parts[0], parts[1], parts[2]))
    else None
  }

  /** A match takes the text apart into well-formed groups. */
  lemma ParseTimeSound(s: string)
    requires ParseTime(s).Some?
    ensures WellFormedTime(ParseTime(s).value)
    ensures TimeText(ParseTime(s).value) == s
  {
    var parts := Split(s, '/');
    JoinSplit(s, '/');
    assert parts[1..][1..] == [parts[2]];
    assert Join(parts[1..], '/') == parts[1] + "/" + parts[2];
    assert Join(parts, '/') == parts[0] + "/" + (parts[1] + "/" + parts[2]);
    assert parts[0] + "/" + (parts[1] + "/" + parts[2]) == parts[0] + "/" + parts[1] + "/" + parts[2];
  }

  /** Every well-formed range written out matches, with these groups. */
  lemma ParseTimeComplete(t: TimeRange)
    requires WellFormedTime(t)
    ensures ParseTime(TimeText(t)) == Some(t)
  {
    var s := TimeText(t);
    assert s == t.start + ['/'] + (t.end + ['/'] + t.periodicity);
    assert '/' !in t.periodicity;
    SplitCons(t.start, '/', t.end + ['/'] + t.periodicity);
    SplitCons(t.end, '/', t.periodicity);
    SplitNoSep(t.periodicity, '/');
  }
}
