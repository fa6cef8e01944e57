/**
 * JavaScript's conversions between numbers and text, over exact reals and
 * integers: `parseFloat`, `parseInt` (no radix), `toString()` of a whole
 * number, `toString(16)` followed by `toUpperCase()`, and `toFixed`.
 * IEEE rounding, overflow to Infinity and precision loss are not modelled.
 */
module JsNumber {
  import opened JsText
  import opened Wrappers

  /** A JavaScript number: NaN, an infinity, or a finite value. */
  datatype Number = NaN | Infinity(negative: bool) | Finite(value: real)

  predicate IsDigit(c: char) {
    '0' <= c <= '9'
  }

  predicate AllDigits(s: string) {
    forall i :: 0 <= i < |s| ==> IsDigit(s[i])
  }

  function DigitValue(c: char): (d: nat)
    requires IsDigit(c)
    ensures d < 10
  {
    c as int - '0' as int
  }

  function DigitChar(d: nat): (c: char)
    requires d < 10
    ensures IsDigit(c) && DigitValue(c) == d
  {
    ('0' as int + d) as char
  }

  function Pow10(n: nat): (r: nat)
    ensures r >= 1
  {
    if n == 0 then 1 else 10 * Pow10(n - 1)
  }

  /** The whole number a string of decimal digits denotes; leading zeros are allowed. */
  function DigitsValue(s: string): nat
    requires AllDigits(s)
  {
    if s == [] then 0 else 10 * DigitsValue(s[..|s| - 1]) + DigitValue(s[|s| - 1])
  }

  /** `n.toString()` for a whole number: its decimal digits, with no leading zero. */
  function Show(n: nat): (r: string)
    ensures r != [] && AllDigits(r)
    ensures DigitsValue(r) == n
    ensures n < Pow10(|r|) && (|r| > 1 ==> Pow10(|r| - 1) <= n)
  {
    if n < 10 then [DigitChar(n)]
    else
      var r := Show(n / 10) + [DigitChar(n % 10)];
      assert r[..|r| - 1] == Show(n / 10);
      r
  }

  /** `y.toString()` for an integer that may be negative. */
  function ShowInt(y: int): string {
    if y < 0 then "-" + Show(-y) else Show(y)
  }

  lemma {:induction false} DigitsValueBound(s: string)
    requires AllDigits(s)
    ensures DigitsValue(s) < Pow10(|s|)
  {
    if s != [] {
      DigitsValueBound(s[..|s| - 1]);
    }
  }

  /** The digits of `a + b` denote `a` shifted left by the length of `b`, plus `b`. */
  lemma {:induction false} DigitsValueAppend(a: string, b: string)
    requires AllDigits(a) && AllDigits(b)
    ensures AllDigits(a + b)
    ensures DigitsValue(a + b) == DigitsValue(a) * Pow10(|b|) + DigitsValue(b)
  {
    if b == [] {
      assert a + b == a;
    } else {
      var b' := b[..|b| - 1];
      assert (a + b)[..|a + b| - 1] == a + b';
      DigitsValueAppend(a, b');
      AppendDigitStep(DigitsValue(a), Pow10(|b'|), DigitsValue(b'), DigitValue(b[|b| - 1]));
    }
  }

  /** The arithmetic of one more digit, kept apart so that the induction above stays linear. */
  lemma AppendDigitStep(x: int, p: int, v: int, d: int)
    ensures 10 * (x * p + v) + d == x * (10 * p) + (10 * v + d)
  {
  }

  /** Zero padding in front does not change the value of a digit string. */
  lemma ZeroPaddedValue(s: string, n: nat)
    requires AllDigits(s)
    ensures AllDigits(PadStart(s, n, '0'))
    ensures DigitsValue(PadStart(s, n, '0')) == DigitsValue(s)
  {
    if |s| < n {
      var z := Repeat('0', n - |s|);
      ZerosValue(n - |s|);
      DigitsValueAppend(z, s);
    }
  }

  lemma {:induction false} ZerosValue(k: nat)
    ensures AllDigits(Repeat('0', k)) && DigitsValue(Repeat('0', k)) == 0
  {
    if k > 0 {
      assert Repeat('0', k)[..k - 1] == Repeat('0', k - 1);
      ZerosValue(k - 1);
    }
  }

  /** The end of the longest run of decimal digits that starts at `i`. */
  function DigitRun(s: string, i: nat): (r: nat)
    requires i <= |s|
    ensures i <= r <= |s| && AllDigits(s[i..r])
    ensures r < |s| ==> !IsDigit(s[r])
    decreases |s| - i
  {
    if i < |s| && IsDigit(s[i]) then DigitRun(s, i + 1) else i
  }

  /** `v / 10^k`, one decimal place at a time. */
  function Shifted(v: real, k: nat): real {
    if k == 0 then v else Shifted(v, k - 1) / 10.0
  }

  /** The value of a fraction's digits, `0.f`. */
  function Fraction(f: string): real
    requires AllDigits(f)
  {
    Shifted(DigitsValue(f) as real, |f|)
  }

  /** `m * 10^e` for a whole exponent of either sign. */
  function Scale(m: real, e: int): real
    decreases if e < 0 then -e else e
  {
    if e == 0 then m
    else if e > 0 then 10.0 * Scale(m, e - 1)
    else Scale(m, e + 1) / 10.0
  }

  /** The exponent that an `e`/`E` part at position `i` gives, or 0 when there is no well-formed one. */
  function ExponentAt(t: string, i: nat): int
    requires i <= |t|
  {
    if i < |t| && (t[i] == 'e' || t[i] == 'E') then
      var j := i + 1;
      var k := if j < |t| && (t[j] == '+' || t[j] == '-') then j + 1 else j;
      var end := DigitRun(t, k);
      if end == k then 0
      else if k > j && t[j] == '-' then -(DigitsValue(t[k..end]) as int)
      else DigitsValue(t[k..end])
    else 0
  }

  /**
   * `parseFloat(s)`: after leading white space, the longest prefix that is a
   * signed decimal literal (digits, an optional fraction, an optional
   * exponent) or `Infinity`; NaN when there is none.
   */
  function ParseFloat(s: string): Number {
    ParseFloatFrom(TrimStart(s))
  }

  /** `parseFloat` once the leading white space is gone: the sign, then `Infinity` or a decimal. */
  function ParseFloatFrom(t: string): Number {
    var neg := t != [] && t[0] == '-';
    var k := if t != [] && (t[0] == '+' || t[0] == '-') then 1 else 0;
    if StartsWith(t[k..], "Infinity") then Infinity(neg) else DecimalAt(t, k, neg)
  }

  /** The unsigned decimal literal that starts at `k`, negated when `neg`; NaN when it has no digit. */
  function DecimalAt(t: string, k: nat, neg: bool): Number
    requires k <= |t|
  {
    var intEnd := DigitRun(t, k);
    var dot := intEnd < |t| && t[intEnd] == '.';
    var fracEnd := if dot then DigitRun(t, intEnd + 1) else intEnd;
    if intEnd == k && fracEnd <= intEnd + 1 then NaN
    else
      var mantissa := DigitsValue(t[k..intEnd]) as real
                      + if dot then Fraction(t[intEnd + 1..fracEnd]) else 0.0;
      var magnitude := Scale(mantissa, ExponentAt(t, fracEnd));
      Finite(if neg then -magnitude else magnitude)
  }

  /** A run of digits from `i` that stops at `e` is the run `DigitRun` finds. */
  lemma {:induction false} DigitRunEnds(t: string, i: nat, e: nat)
    requires i <= e <= |t| && AllDigits(t[i..e])
    requires e < |t| ==> !IsDigit(t[e])
    ensures DigitRun(t, i) == e
    decreases e - i
  {
    if i < e {
      assert t[i..e][0] == t[i];
      assert t[i + 1..e] == t[i..e][1..];
      DigitRunEnds(t, i + 1, e);
    }
  }

  /** An unsigned `D.F` that fills `t` from the start reads as `D + 0.F`. */
  lemma DecimalWithPoint(t: string, point: nat)
    requires point < |t| && t[point] == '.' && point > 0
    requires DigitRun(t, 0) == point && DigitRun(t, point + 1) == |t|
    ensures DecimalAt(t, 0, false) == Finite(DigitsValue(t[0..point]) as real + Fraction(t[point + 1..]))
  {
    assert ExponentAt(t, |t|) == 0;
    assert t[point + 1..|t|] == t[point + 1..];
  }

  /** A plain decimal `D.F` with no sign, no exponent and nothing after it parses to exactly `D + 0.F`. */
  lemma ParseFloatDecimal(d: string, f: string)
    requires d != [] && AllDigits(d) && AllDigits(f)
    ensures ParseFloat(d + "." + f) == Finite(DigitsValue(d) as real + Fraction(f))
  {
    DecimalRuns(d, f);
    ParseFloatUnsigned(d + "." + f);
    DecimalAtPoint(d, f);
  }

  /** The unsigned decimal read from `D.F` is `D + 0.F`. */
  lemma DecimalAtPoint(d: string, f: string)
    requires d != [] && AllDigits(d) && AllDigits(f)
    ensures DecimalAt(d + "." + f, 0, false) == Finite(DigitsValue(d) as real + Fraction(f))
  {
    DecimalRuns(d, f);
    DecimalWithPoint(d + "." + f, |d|);
  }

  /** In `D.F` the digit runs are `D` and `F`, and they are cut at the point. */
  lemma DecimalRuns(d: string, f: string)
    requires d != [] && AllDigits(d) && AllDigits(f)
    ensures var t := d + "." + f;
      && t[0..|d|] == d && t[|d| + 1..] == f && t[|d|] == '.' && IsDigit(t[0])
      && DigitRun(t, 0) == |d| && DigitRun(t, |d| + 1) == |t|
  {
    var t := d + "." + f;
    assert t[0..|d|] == d;
    assert t[|d| + 1..|t|] == f;
    DigitRunEnds(t, 0, |d|);
    DigitRunEnds(t, |d| + 1, |t|);
  }

  /** Text that starts with a digit is read as an unsigned decimal from its first character. */
  lemma ParseFloatUnsigned(t: string)
    requires t != [] && IsDigit(t[0])
    ensures ParseFloat(t) == DecimalAt(t, 0, false)
  {
    NoLeadingSpace(t);
    NotInfinity(t);
  }

  lemma NoLeadingSpace(t: string)
    requires t != [] && IsDigit(t[0])
    ensures TrimStart(t) == t
  {
  }

  lemma NotInfinity(t: string)
    requires t != [] && IsDigit(t[0])
    ensures !StartsWith(t, "Infinity")
    ensures ParseFloatFrom(t) == DecimalAt(t, 0, false)
  {
    if |t| >= 8 {
      assert t[..8][0] == t[0];
    }
  }

  /** `parseFloat` of a whole number's digits is that number. */
  lemma ParseFloatWhole(d: string)
    requires d != [] && AllDigits(d)
    ensures ParseFloat(d) == Finite(DigitsValue(d) as real)
  {
    ParseFloatUnsigned(d);
    assert d[0..|d|] == d;
    DigitRunEnds(d, 0, |d|);
    DecimalWhole(d);
  }

  /** Unsigned digits that fill `t` read as their whole value. */
  lemma DecimalWhole(t: string)
    requires t != [] && AllDigits(t) && DigitRun(t, 0) == |t|
    ensures DecimalAt(t, 0, false) == Finite(DigitsValue(t) as real)
  {
    assert ExponentAt(t, |t|) == 0;
    assert t[0..|t|] == t;
  }

  predicate IsHexDigit(c: char) {
    IsDigit(c) || 'a' <= c <= 'f' || 'A' <= c <= 'F'
  }

  predicate AllHexDigits(s: string) {
    forall i :: 0 <= i < |s| ==> IsHexDigit(s[i])
  }

  function HexDigitValue(c: char): (d: nat)
    requires IsHexDigit(c)
    ensures d < 16
  {
    if IsDigit(c) then DigitValue(c)
    else if 'a' <= c <= 'f' then c as int - 'a' as int + 10
    else c as int - 'A' as int + 10
  }

  /** The whole number a string of hexadecimal digits denotes. */
  function HexValue(s: string): nat
    requires AllHexDigits(s)
  {
    if s == [] then 0 else 16 * HexValue(s[..|s| - 1]) + HexDigitValue(s[|s| - 1])
  }

  /** The end of the longest run of hexadecimal digits that starts at `i`. */
  function HexRun(s: string, i: nat): (r: nat)
    requires i <= |s|
    ensures i <= r <= |s| && AllHexDigits(s[i..r])
    ensures r < |s| ==> !IsHexDigit(s[r])
    decreases |s| - i
  {
    if i < |s| && IsHexDigit(s[i]) then HexRun(s, i + 1) else i
  }

  /**
   * `parseInt(s)` with no radix: after leading white space and a sign, a
   * `0x`/`0X` prefix selects base 16, otherwise base 10; the longest run of
   * digits of that base is read, and NaN (`None`) results when it is empty.
   */
  function ParseInt(s: string): Option<int> {
    var t := TrimStart(s);
    var neg := t != [] && t[0] == '-';
    var r := if t != [] && (t[0] == '+' || t[0] == '-') then t[1..] else t;
    var hex := |r| >= 2 && r[0] == '0' && (r[1] == 'x' || r[1] == 'X');
    if hex then
      var body := r[2..];
      var end := HexRun(body, 0);
      if end == 0 then None
      else Some(if neg then -(HexValue(body[..end]) as int) else HexValue(body[..end]))
    else
      var end := DigitRun(r, 0);
      if end == 0 then None
      else Some(if neg then -(DigitsValue(r[..end]) as int) else DigitsValue(r[..end]))
  }

  /** `parseInt` of a whole number's digits is that number. */
  lemma ParseIntWhole(d: string)
    requires d != [] && AllDigits(d)
    ensures ParseInt(d) == Some(DigitsValue(d))
  {
    assert |d| >= 2 ==> IsDigit(d[1]);
    ParseIntNoPrefix(d);
  }

  /** The same, for digits that do not open with a `0x` prefix. */
  lemma ParseIntNoPrefix(d: string)
    requires d != [] && AllDigits(d)
    requires |d| >= 2 ==> d[1] != 'x' && d[1] != 'X'
    ensures ParseInt(d) == Some(DigitsValue(d))
  {
    assert TrimStart(d) == d;
    assert d[0..|d|] == d;
    DigitRunEnds(d, 0, |d|);
  }

  function HexChar(d: nat): (c: char)
    requires d < 16
    ensures IsHexDigit(c) && HexDigitValue(c) == d
    ensures '0' <= c <= '9' || 'A' <= c <= 'F'
  {
    if d < 10 then DigitChar(d) else ('A' as int + d - 10) as char
  }

  /** `n.toString(16).toUpperCase()`: the hexadecimal digits of `n` in upper case, with no leading zero. */
  function ShowHex(n: nat): (r: string)
    ensures r != [] && AllHexDigits(r)
    ensures forall i :: 0 <= i < |r| ==> '0' <= r[i] <= '9' || 'A' <= r[i] <= 'F'
    ensures HexValue(r) == n
    ensures n < 16 <==> |r| == 1
    ensures n < 256 ==> |r| <= 2
  {
    if n < 16 then [HexChar(n)]
    else
      var r := ShowHex(n / 16) + [HexChar(n % 16)];
      assert r[..|r| - 1] == ShowHex(n / 16);
      r
  }

  /** The integer nearest to `x * 10^f`, the larger one on a tie (the `n` of `toFixed`). */
  function RoundScaled(x: real, f: nat): (n: int)
    ensures x >= 0.0 ==> n >= 0
    ensures -0.5 < n as real - Scale(x, f) <= 0.5
  {
    ScaleSign(x, f);
    (Scale(x, f) + 0.5).Floor
  }

  /**
   * The text `toFixed(f)` writes for the rounded whole number `n`: its digits,
   * zero padded to more than `f` digits, with a point before the last `f`.
   */
  function PointDigits(n: nat, f: nat): string {
    var m := Show(n);
    if f == 0 then m
    else
      var padded := PadStart(m, f + 1, '0');
      padded[..|padded| - f] + "." + padded[|padded| - f..]
  }

  /** `x.toFixed(f)`: a minus sign for a negative `x`, then the digits of `|x|` rounded to `f` places. */
  function ToFixed(x: real, f: nat): string {
    if x < 0.0 then "-" + PointDigits(RoundScaled(-x, f), f) else PointDigits(RoundScaled(x, f), f)
  }

  /** `parseFloat` reads back `n / 10^f` from the text `toFixed` writes for `n`. */
  lemma ParsePointDigits(n: nat, f: nat)
    requires f >= 1
    ensures ParseFloat(PointDigits(n, f)) == Finite(Shifted(n as real, f))
  {
    ZeroPaddedValue(Show(n), f + 1);
    ParseCutDecimal(PadStart(Show(n), f + 1, '0'), f);
  }

  /** Digits with a point put before the last `f` of them read as their value shifted right by `f` places. */
  lemma ParseCutDecimal(s: string, f: nat)
    requires AllDigits(s) && f < |s|
    ensures ParseFloat(s[..|s| - f] + "." + s[|s| - f..]) == Finite(Shifted(DigitsValue(s) as real, f))
  {
    var a, b := s[..|s| - f], s[|s| - f..];
    ParseFloatDecimal(a, b);
    CutShifted(s, f);
  }

  /** The whole part plus the fraction of `A.B` is the value of `AB` shifted right by `|B|` places. */
  lemma CutShifted(s: string, f: nat)
    requires AllDigits(s) && f <= |s|
    ensures AllDigits(s[..|s| - f]) && AllDigits(s[|s| - f..])
    ensures DigitsValue(s[..|s| - f]) as real + Fraction(s[|s| - f..]) == Shifted(DigitsValue(s) as real, f)
  {
    var a, b := s[..|s| - f], s[|s| - f..];
    assert a + b == s;
    DigitsValueAppend(a, b);
    ShiftedSum(DigitsValue(a), DigitsValue(b), f);
  }

  /** Shifting `x * 10^k + y` right by `k` places leaves `x` whole and shifts `y`. */
  lemma {:induction false} ShiftedSum(x: int, y: int, k: nat)
    ensures Shifted((x * Pow10(k) + y) as real, k) == x as real + Shifted(y as real, k)
    decreases k
  {
    if k > 0 {
      ShiftedSum(10 * x, y, k - 1);
      assert x * Pow10(k) == (10 * x) * Pow10(k - 1);
    }
  }

  /** `Shifted` is division by a power of ten. */
  lemma {:induction false} ShiftedValue(v: real, k: nat)
    ensures Shifted(v, k) == v / Pow10(k) as real
  {
    if k > 0 {
      ShiftedValue(v, k - 1);
      var p := Pow10(k - 1) as real;
      assert v / p / 10.0 == v / (10.0 * p);
    }
  }

  /**
   * `parseFloat` reads back what `toFixed` wrote: the value `n / 10^f` for
   * the rounded `n` (which `RoundScaled` places within half a unit of `x * 10^f`).
   */
  lemma ToFixedRoundTrip(x: real, f: nat)
    requires x >= 0.0 && f >= 1
    ensures ParseFloat(ToFixed(x, f)) == Finite(Shifted(RoundScaled(x, f) as real, f))
  {
    ParsePointDigits(RoundScaled(x, f), f);
  }

  /** Scaling up by `10^k` keeps the sign. */
  lemma {:induction false} ScaleSign(x: real, k: nat)
    ensures x >= 0.0 ==> Scale(x, k) >= 0.0
  {
    if k > 0 {
      ScaleSign(x, k - 1);
    }
  }

  /** `Scale` with a non-negative exponent is multiplication by a power of ten. */
  lemma {:induction false} ScaleValue(x: real, k: nat)
    ensures Scale(x, k) == x * Pow10(k) as real
  {
    if k > 0 {
      ScaleValue(x, k - 1);
      assert Pow10(k) as real == 10.0 * Pow10(k - 1) as real;
    }
  }
}
