/**
 * The encoders of the ROV position simulator: the XOR checksum, the
 * DDMM.MMMM / DDDMM.MMMM coordinate format, the HHMMSS and DDMMYY fields,
 * the hemisphere letters and the RMC sentence they are assembled into.
 *
 * The proofs tie the encoders to the server's decoder: the coordinate text
 * reads back through `parseCoordinate` to the position (exactly before the
 * four-decimal rounding of the minutes, within 1/1200000 of a degree after
 * it), and the whole sentence is accepted by `parseNMEA` as an RMC fix.
 */
module RovSimulator {
  import opened Wrappers
  import opened JsText
  import opened JsNumber
  import opened Nmea

  /** The simulator's fixed course over ground, in degrees. */
  const Heading: real := 135.0

  /** The simulator's fixed speed over ground, in knots. */
  const Speed: real := 2.0

  // ---------------------------------------------------------------------
  // calculateChecksum

  /** The high surrogate JavaScript holds for a character beyond the Basic Multilingual Plane. */
  function High(c: char): bv16
    requires c >= '\U{10000}'
  {
    var v := (c as bv32) - 0x10000;
    ((0xD800 | (v >> 10)) & 0xFFFF) as bv16
  }

  /** The low surrogate JavaScript holds for a character beyond the Basic Multilingual Plane. */
  function Low(c: char): bv16
    requires c >= '\U{10000}'
  {
    var v := (c as bv32) - 0x10000;
    ((0xDC00 | (v & 0x3FF)) & 0xFFFF) as bv16
  }

  /** The UTF-16 code units of a character: one in the Basic Multilingual Plane, a surrogate pair beyond it. */
  function Units(c: char): (r: seq<bv16>)
    ensures 1 <= |r| <= 2
  {
    if c < '\U{10000}' then [c as bv16] else [High(c), Low(c)]
  }

  /** What one character adds to the XOR: the XOR of its code units. */
  function Code(c: char): bv16 {
    if c < '\U{10000}' then c as bv16 else High(c) ^ Low(c)
  }

  /** Only the NUL character contributes nothing. */
  lemma CodeZero(c: char)
    ensures Code(c) == 0 <==> c == '\U{0}'
  {
  }

  /** The XOR of the character codes of `s`. */
  function XorCodes(s: string): bv16 {
    if s == [] then 0 else XorCodes(s[..|s| - 1]) ^ Code(s[|s| - 1])
  }

  /** The characters after the first. */
  function AfterFirst(s: string): string {
    if s == [] then [] else s[1..]
  }

  /** The UTF-16 code units of a string, in order: what `length` counts and `charCodeAt` reads. */
  function Utf16(s: string): seq<bv16> {
    if s == [] then [] else Utf16(s[..|s| - 1]) + Units(s[|s| - 1])
  }

  /** The XOR of a run of code units. */
  function XorUnits(u: seq<bv16>): bv16 {
    if u == [] then 0 else XorUnits(u[..|u| - 1]) ^ u[|u| - 1]
  }

  /** The code units `calculateChecksum` folds: all but the first, from index 1 to `length - 1`. */
  function Folded(s: string): seq<bv16> {
    var u := Utf16(s);
    if u == [] then [] else u[1..]
  }

  /** What `calculateChecksum(s)` returns: the XOR as upper-case hexadecimal, padded to two digits. */
  function Checksum(s: string): string {
    PadStart(ShowHex(XorUnits(Folded(s)) as int), 2, '0')
  }

  /** `calculateChecksum(sentence)`: XOR of the code units from index 1 on, in hexadecimal. */
  method CalculateChecksum(sentence: string) returns (r: string)
    ensures r == Checksum(sentence)
  {
    var units := Utf16(sentence);
    var checksum: bv16 := 0;
    var i := 1;
    while i < |units|
      invariant 1 <= i && (units != [] ==> i <= |units|)
      invariant checksum == XorUnits(if units == [] then [] else units[1..i])
    {
      assert units[1..i + 1][..i - 1] == units[1..i];
      checksum := checksum ^ units[i];
      i := i + 1;
    }
    if units != [] {
      assert units[1..i] == units[1..];
    }
    r := PadStart(ShowHex(checksum as int), 2, '0');
  }

  /** A string whose JavaScript length is at most one has the checksum `00`: the loop never runs. */
  lemma ChecksumShort(s: string)
    requires |Utf16(s)| <= 1
    ensures Checksum(s) == "00"
  {
    assert Folded(s) == [];
    assert ShowHex(0) == "0";
  }

  /**
   * A lone character beyond the Basic Multilingual Plane is two code units,
   * so the loop runs once and folds its low surrogate: the checksum is not
   * the `00` of a one-unit string.
   */
  lemma AstralChecksum(c: char)
    requires c >= '\U{10000}'
    ensures |Utf16([c])| == 2
    ensures XorUnits(Folded([c])) == Low(c) && Low(c) != 0
    ensures Checksum([c]) != "00"
  {
    var h, l := High(c), Low(c);
    assert Utf16([c]) == [h, l] by {
      assert [c][..0] == [];
      AstralCode(c, h, l);
    }
    assert Folded([c]) == [l];
    PairXor(h, l);
    SurrogatesNonZero(c);
  }

  /** Neither surrogate is zero. */
  lemma SurrogatesNonZero(c: char)
    requires c >= '\U{10000}'
    ensures High(c) != 0 && Low(c) != 0
  {
  }

  lemma AstralCode(c: char, h: bv16, l: bv16)
    requires c >= '\U{10000}' && h == High(c) && l == Low(c)
    ensures Units(c) == [h, l] && Code(c) == h ^ l
  {
  }

  lemma SingleXor(x: bv16)
    ensures XorUnits([x]) == x
  {
    assert [x][..0] == [];
  }

  lemma PairXor(h: bv16, l: bv16)
    ensures XorUnits([h, l]) == h ^ l && XorUnits([l]) == l
  {
    assert [h, l][..1] == [h];
    SingleXor(h);
    SingleXor(l);
  }

  /** The first code unit of a character is zero only for NUL. */
  lemma FirstUnitZero(c: char)
    ensures Units(c)[0] == 0 <==> c == '\U{0}'
  {
    if c >= '\U{10000}' {
      SurrogatesNonZero(c);
    }
  }

  /** Joining runs of code units XORs their folds. */
  lemma {:induction false} XorUnitsAppend(a: seq<bv16>, b: seq<bv16>)
    ensures XorUnits(a + b) == XorUnits(a) ^ XorUnits(b)
  {
    if b == [] {
      assert a + b == a;
    } else {
      var init := b[..|b| - 1];
      assert (a + b)[..|a + b| - 1] == a + init;
      assert (a + b)[|a + b| - 1] == b[|b| - 1];
      XorUnitsAppend(a, init);
    }
  }

  /** A character's code is the XOR of its code units. */
  lemma UnitsCode(c: char)
    ensures XorUnits(Units(c)) == Code(c)
    ensures Code(c) == Units(c)[0] ^ XorUnits(Units(c)[1..])
  {
    if c >= '\U{10000}' {
      var h, l := High(c), Low(c);
      AstralCode(c, h, l);
      PairXor(h, l);
      assert [h, l][1..] == [l];
    } else {
      SingleXor(c as bv16);
      assert Units(c)[1..] == [];
    }
  }

  /** The code units of `c` followed by `t` are those of `c`, then those of `t`. */
  lemma {:induction false} Utf16Front(c: char, t: string)
    ensures Utf16([c] + t) == Units(c) + Utf16(t)
  {
    if t == [] {
      assert [c] + t == [c];
      assert [c][..0] == [];
    } else {
      var ct := [c] + t;
      var init := t[..|t| - 1];
      assert ct[..|ct| - 1] == [c] + init;
      assert ct[|ct| - 1] == t[|t| - 1];
      Utf16Front(c, init);
    }
  }

  /** Folding every code unit of a string is folding the codes of its characters. */
  lemma {:induction false} XorUnitsCodes(s: string)
    ensures XorUnits(Utf16(s)) == XorCodes(s)
  {
    if s != [] {
      var init := s[..|s| - 1];
      XorUnitsCodes(init);
      XorUnitsAppend(Utf16(init), Units(s[|s| - 1]));
      UnitsCode(s[|s| - 1]);
    }
  }

  /** The loop folds the code units of the first character after its first unit, then those of the others. */
  lemma FoldedFront(s: string)
    requires s != []
    ensures Folded(s) == Units(s[0])[1..] + Utf16(s[1..])
  {
    assert s == [s[0]] + s[1..];
    Utf16Front(s[0], s[1..]);
  }

  predicate IsAscii(s: string) {
    forall i :: 0 <= i < |s| ==> s[i] < '\U{80}'
  }

  lemma XorBelow(x: bv16, y: bv16)
    requires x < 128 && y < 128
    ensures x ^ y < 128
  {
  }

  /** The XOR of ASCII codes is an ASCII code. */
  lemma {:induction false} XorAscii(s: string)
    requires IsAscii(s)
    ensures XorCodes(s) < 128
  {
    if s != [] {
      XorAscii(s[..|s| - 1]);
      XorBelow(XorCodes(s[..|s| - 1]), Code(s[|s| - 1]));
    }
  }

  /** A number below 256 has at most two hexadecimal digits. */
  lemma ShowHexByte(n: nat)
    requires n < 256
    ensures |ShowHex(n)| <= 2
  {
    if n >= 16 {
      assert |ShowHex(n / 16)| == 1;
    }
  }

  /** A digit as `toString(16).toUpperCase()` writes it. */
  predicate IsUpperHex(c: char) {
    '0' <= c <= '9' || 'A' <= c <= 'F'
  }

  /** `r` is two upper-case hexadecimal digits that read as `v`. */
  predicate HexPair(r: string, v: nat) {
    |r| == 2 && IsUpperHex(r[0]) && IsUpperHex(r[1]) && AllHexDigits(r) && HexValue(r) == v
  }

  /** A byte value padded to two hexadecimal digits reads back as itself. */
  lemma HexByte(n: nat)
    requires n < 256
    ensures HexPair(PadStart(ShowHex(n), 2, '0'), n)
  {
    var h := ShowHex(n);
    ShowHexByte(n);
    var r := PadStart(h, 2, '0');
    if |h| == 1 {
      assert r == "0" + h;
      assert r[..1] == "0" && r[1] == h[0];
      assert h[..0] == [];
      assert HexValue(h) == HexDigitValue(h[0]);
    } else {
      assert r == h;
    }
  }

  /**
   * For ASCII text the checksum is exactly two upper-case hexadecimal
   * digits, and they read back as the XOR of the codes after the first.
   */
  lemma ChecksumAscii(s: string)
    requires IsAscii(s)
    ensures HexPair(Checksum(s), XorCodes(AfterFirst(s)) as int)
  {
    var rest := AfterFirst(s);
    assert IsAscii(rest);
    XorAscii(rest);
    assert XorUnits(Folded(s)) == XorCodes(rest) by {
      if s != [] {
        FoldedFront(s);
        assert Units(s[0])[1..] == [];
        assert Folded(s) == Utf16(rest);
        XorUnitsCodes(rest);
      }
    }
    HexByte(XorCodes(rest) as int);
  }

  lemma XorAssoc(a: bv16, b: bv16, c: bv16)
    ensures (a ^ b) ^ c == a ^ (b ^ c)
  {
  }

  /** Putting a character in front XORs its code into the fold. */
  lemma {:induction false} XorCodesFront(c: char, t: string)
    ensures XorCodes([c] + t) == Code(c) ^ XorCodes(t)
  {
    if t != [] {
      var init := t[..|t| - 1];
      var last := t[|t| - 1];
      var ct := [c] + t;
      assert ct[..|ct| - 1] == [c] + init;
      assert ct[|ct| - 1] == last;
      XorCodesFront(c, init);
      XorAssoc(Code(c), XorCodes(init), Code(last));
    }
  }

  /**
   * NMEA 0183 checksums every character between `$` and `*`; the body passed
   * here has no `$`, so skipping index 0 leaves its first code unit out: the
   * result is the standard checksum XOR-ed once more with that unit, and
   * differs from it unless the first character is NUL.
   */
  lemma {:induction false} ChecksumSkipsFirst(body: string)
    requires body != []
    ensures XorUnits(Folded(body)) == XorCodes(body) ^ Units(body[0])[0]
    ensures body[0] != '\U{0}' ==> XorUnits(Folded(body)) != XorCodes(body)
  {
    FoldedRecombines(body);
    if body[0] != '\U{0}' {
      FoldedMissesFirst(body);
    }
  }

  /** The checksum of the body without its first unit, XOR-ed with that unit, is the full one. */
  lemma {:induction false} FoldedRecombines(body: string)
    requires body != []
    ensures XorUnits(Folded(body)) == XorCodes(body) ^ Units(body[0])[0]
  {
    FoldedXor(body);
    CodesXor(body);
    XorCancel(XorUnits(Folded(body)), XorCodes(body), Units(body[0])[0],
      XorUnits(Units(body[0])[1..]), XorCodes(body[1..]));
  }

  /** Leaving out a non-zero first unit changes the checksum. */
  lemma {:induction false} FoldedMissesFirst(body: string)
    requires body != [] && body[0] != '\U{0}'
    ensures XorUnits(Folded(body)) != XorCodes(body)
  {
    FoldedRecombines(body);
    FirstUnitZero(body[0]);
    XorDiffers(XorUnits(Folded(body)), XorCodes(body), Units(body[0])[0]);
  }

  /** The folded units are the first character's trailing units followed by the rest. */
  lemma {:induction false} FoldedXor(body: string)
    requires body != []
    ensures XorUnits(Folded(body)) == XorUnits(Units(body[0])[1..]) ^ XorCodes(body[1..])
  {
    FoldedFront(body);
    XorUnitsAppend(Units(body[0])[1..], Utf16(body[1..]));
    XorUnitsCodes(body[1..]);
  }

  /** The code of the first character splits into its first unit and the rest of its units. */
  lemma {:induction false} CodesXor(body: string)
    requires body != []
    ensures XorCodes(body) == (Units(body[0])[0] ^ XorUnits(Units(body[0])[1..])) ^ XorCodes(body[1..])
  {
    assert body == [body[0]] + body[1..];
    XorCodesFront(body[0], body[1..]);
    UnitsCode(body[0]);
  }

  lemma XorDiffers(f: bv16, c: bv16, a: bv16)
    ensures f == c ^ a && a != 0 ==> f != c
  {
  }

  lemma XorCancel(f: bv16, c: bv16, a: bv16, r: bv16, x: bv16)
    ensures f == r ^ x && c == (a ^ r) ^ x ==> f == c ^ a
  {
  }

  // ---------------------------------------------------------------------
  // toNMEA and the hemisphere letters

  /** `Math.abs`. */
  function Abs(x: real): (r: real)
    ensures r >= 0.0 && (r == x || r == -x)
  {
    if x < 0.0 then -x else x
  }

  /** `Math.floor(Math.abs(decimal))`: the whole degrees. */
  function WholeDegrees(decimal: real): nat {
    Abs(decimal).Floor
  }

  /** `(absolute - degrees) * 60`: the minutes past the whole degrees. */
  function Minutes(decimal: real): (m: real)
    ensures 0.0 <= m < 60.0
  {
    (Abs(decimal) - WholeDegrees(decimal) as real) * 60.0
  }

  /** The width of the degree field: two digits of latitude, three of longitude. */
  function DegreeWidth(isLongitude: bool): nat {
    if isLongitude then 3 else 2
  }

  /**
   * `toNMEA(decimal, isLongitude)`: the zero-padded whole degrees of the
   * magnitude, then its minutes to four decimals padded to seven characters.
   * The sign is dropped; the hemisphere letter carries it.
   */
  function ToNmea(decimal: real, isLongitude: bool): string {
    DdmmText(WholeDegrees(decimal), Minutes(decimal), isLongitude)
  }

  /** The text of `toNMEA` for given whole degrees and minutes. */
  function DdmmText(degrees: nat, minutes: real, isLongitude: bool): string {
    PadStart(Show(degrees), DegreeWidth(isLongitude), '0') + PadStart(ToFixed(minutes, 4), 7, '0')
  }

  /** `lat >= 0 ? 'N' : 'S'`. */
  function LatDir(lat: real): (r: string)
    ensures r == "N" || r == "S"
  {
    if lat >= 0.0 then "N" else "S"
  }

  /** `lon >= 0 ? 'E' : 'W'`. */
  function LonDir(lon: real): (r: string)
    ensures r == "E" || r == "W"
  {
    if lon >= 0.0 then "E" else "W"
  }

  /** The hemisphere letter of a coordinate. */
  function Hemisphere(decimal: real, isLongitude: bool): string {
    if isLongitude then LonDir(decimal) else LatDir(decimal)
  }

  /** The letter is `N` or `E` exactly for a non-negative coordinate, and the decoder negates exactly the others. */
  lemma HemisphereSign(decimal: real, isLongitude: bool)
    ensures var h := Hemisphere(decimal, isLongitude);
      && (h == (if isLongitude then "E" else "N") <==> decimal >= 0.0)
      && (SouthOrWest(Some(h)) <==> decimal < 0.0)
  {
  }

  /**
   * Over exact reals, before the minutes are rounded, `parseCoordinate`
   * inverts `toNMEA`: the text's value `100 * degrees + minutes` with the
   * hemisphere's sign decodes to the coordinate itself.
   */
  lemma ToNmeaExact(decimal: real, isLongitude: bool)
    ensures var negate := SouthOrWest(Some(Hemisphere(decimal, isLongitude)));
      DdmmToDegrees(DdmmNumber(WholeDegrees(decimal), Minutes(decimal)), negate) == decimal
  {
    var a := WholeDegrees(decimal);
    var m := Minutes(decimal);
    HemisphereSign(decimal, isLongitude);
    DdmmSplit(a, m, decimal < 0.0);
    assert a as real + m / 60.0 == Abs(decimal);
  }

  lemma {:induction false} Pow10Monotone(i: nat, j: nat)
    requires i <= j
    ensures Pow10(i) <= Pow10(j)
  {
    if i < j {
      Pow10Monotone(i, j - 1);
    }
  }

  /** Powers of ten are ordered as their exponents. */
  lemma Pow10Order(i: nat, j: nat)
    ensures Pow10(i) < Pow10(j) ==> i < j
  {
    if j <= i {
      Pow10Monotone(j, i);
    }
  }

  /** A number below `10^k` has at most `k` digits. */
  lemma ShowLength(n: nat, k: nat)
    requires 1 <= k && n < Pow10(k)
    ensures |Show(n)| <= k
  {
    if |Show(n)| > 1 {
      Pow10Order(|Show(n)| - 1, k);
    }
  }

  /** Six digits, zero padded: the form the minutes take once the point is removed. */
  function SixDigits(n: nat): string {
    PadStart(Show(n), 6, '0')
  }

  /** The minutes text is the six digits of the rounded `n` with a point after the second. */
  lemma MinutesText(n: nat)
    requires n < Pow10(6)
    ensures var s := SixDigits(n);
      |s| == 6 && PadStart(PointDigits(n, 4), 7, '0') == s[..2] + "." + s[2..]
  {
    ShowLength(n, 6);
    PointText(Show(n));
  }

  /**
   * For one to six digits: padding to five, putting the point before the
   * last four and padding to seven is padding to six and putting the point
   * after the second.
   */
  lemma PointText(h: string)
    requires 1 <= |h| <= 6
    ensures var p := PadStart(h, 5, '0');
      var s := PadStart(h, 6, '0');
      |s| == 6 && PadStart(p[..|p| - 4] + "." + p[|p| - 4..], 7, '0') == s[..2] + "." + s[2..]
  {
    var p := PadStart(h, 5, '0');
    var s := PadStart(h, 6, '0');
    if |h| == 6 {
      assert p == h && s == h;
    } else {
      assert s == "0" + p by {
        PadOneMore(h, 5, '0');
      }
      var t := p[..1] + "." + p[1..];
      assert p[..|p| - 4] + "." + p[|p| - 4..] == t;
      assert PadStart(t, 7, '0') == "0" + t;
      assert ("0" + p)[..2] == "0" + p[..1] && ("0" + p)[2..] == p[1..];
    }
  }

  /** Padding one place further adds one filler in front. */
  lemma PadOneMore(h: string, n: nat, c: char)
    requires |h| <= n
    ensures PadStart(h, n + 1, c) == [c] + PadStart(h, n, c)
  {
    var k := n - |h|;
    assert Repeat(c, k + 1) == [c] + Repeat(c, k);
    assert ([c] + Repeat(c, k)) + h == [c] + (Repeat(c, k) + h);
  }

  /** The value of the degree digits followed by the six minute digits. */
  lemma DegreesAndMinutesValue(a: nat, w: nat, n: nat)
    requires n < Pow10(6)
    ensures var q := PadStart(Show(a), w, '0') + SixDigits(n);
      AllDigits(q) && DigitsValue(q) == a * Pow10(6) + n
  {
    ShowLength(n, 6);
    ZeroPaddedValue(Show(a), w);
    ZeroPaddedValue(Show(n), 6);
    DigitsValueAppend(PadStart(Show(a), w, '0'), SixDigits(n));
  }

  /** Putting the point after the second of six trailing digits is putting it before the last four. */
  lemma PointBeforeLastFour(d: string, s: string)
    requires |s| == 6
    ensures var q := d + s;
      d + (s[..2] + "." + s[2..]) == q[..|q| - 4] + "." + q[|q| - 4..]
  {
    var q := d + s;
    assert q[..|q| - 4] == d + s[..2];
    assert q[|q| - 4..] == s[2..];
  }

  /** Degree digits, then six minute digits with a point after the second, read as their digits shifted by four places. */
  lemma ParseDegreesMinutes(d: string, s: string)
    requires AllDigits(d) && AllDigits(s) && |s| == 6
    ensures AllDigits(d + s)
    ensures ParseFloat(d + (s[..2] + "." + s[2..])) == Finite(Shifted(DigitsValue(d + s) as real, 4))
  {
    var q := d + s;
    PointBeforeLastFour(d, s);
    assert AllDigits(q);
    ParseCutDecimal(q, 4);
  }

  /** Shifting `a * 10^6 + n` by four places leaves `100 * a` whole. */
  lemma ShiftedDdmm(a: nat, n: nat, v: nat)
    requires v == a * Pow10(6) + n
    ensures Shifted(v as real, 4) == DdmmNumber(a, Shifted(n as real, 4))
  {
    assert Pow10(6) == 100 * Pow10(4);
    assert a * Pow10(6) == (a * 100) * Pow10(4);
    ShiftedSum(a * 100, n, 4);
  }

  /**
   * `parseFloat` reads the text `toNMEA` writes as `100 * degrees` plus the
   * rounded minutes `n / 10^4`.
   */
  lemma ParseDdmm(a: nat, w: nat, n: nat)
    requires n < Pow10(6)
    ensures ParseFloat(PadStart(Show(a), w, '0') + PadStart(PointDigits(n, 4), 7, '0'))
         == Finite(DdmmNumber(a, Shifted(n as real, 4)))
  {
    var d := PadStart(Show(a), w, '0');
    var s := SixDigits(n);
    assert AllDigits(d) && AllDigits(s) && DigitsValue(d + s) == a * Pow10(6) + n by {
      ZeroPaddedValue(Show(a), w);
      ZeroPaddedValue(Show(n), 6);
      DegreesAndMinutesValue(a, w, n);
    }
    assert |s| == 6 && PadStart(PointDigits(n, 4), 7, '0') == s[..2] + "." + s[2..] by {
      MinutesText(n);
    }
    ReadDdmm(d, s, a, n);
  }

  /** Degree digits and six minute digits worth `a * 10^6 + n`, with the point after the second minute digit, read as `100 * a + n / 10^4`. */
  lemma ReadDdmm(d: string, s: string, a: nat, n: nat)
    requires AllDigits(d) && AllDigits(s) && |s| == 6
    requires AllDigits(d + s) && DigitsValue(d + s) == a * Pow10(6) + n
    ensures ParseFloat(d + (s[..2] + "." + s[2..])) == Finite(DdmmNumber(a, Shifted(n as real, 4)))
  {
    assert ParseFloat(d + (s[..2] + "." + s[2..])) == Finite(Shifted(DigitsValue(d + s) as real, 4)) by {
      ParseDegreesMinutes(d, s);
    }
    ShiftedDdmm(a, n, DigitsValue(d + s));
  }

  /** The value of the minutes as `toFixed(4)` writes them. */
  function FourPlaces(m: real): real {
    Shifted(RoundScaled(m, 4) as real, 4)
  }

  /** Minutes in [0, 60) rounded to four places: below `10^6` and within half a unit of `minutes * 10^4`. */
  lemma RoundedMinutes(m: real)
    requires 0.0 <= m < 60.0
    ensures 0 <= RoundScaled(m, 4) < Pow10(6)
    ensures 0.0 <= FourPlaces(m) < 100.0
    ensures -0.5 / 10000.0 < FourPlaces(m) - m <= 0.5 / 10000.0
  {
    var n := RoundScaled(m, 4);
    ScaleValue(m, 4);
    ShiftedValue(n as real, 4);
    assert Pow10(4) == 10000 && Pow10(6) == 1000000;
  }

  /** For minutes in [0, 60) the minute part is the rounded digits with their point. */
  lemma DdmmTextDigits(a: nat, m: real, isLongitude: bool)
    requires 0.0 <= m < 60.0
    ensures DdmmText(a, m, isLongitude)
         == PadStart(Show(a), DegreeWidth(isLongitude), '0') + PadStart(PointDigits(RoundScaled(m, 4), 4), 7, '0')
  {
  }

  /** A non-empty text that `parseFloat` reads as `100 * a + rounded`, with `rounded` in [0, 100). */
  predicate ReadsAsDdmm(text: string, a: int, rounded: real) {
    && text != ""
    && ParseFloat(text) == Finite(DdmmNumber(a, rounded))
    && 0.0 <= rounded < 100.0
  }

  /** `parseFloat` reads the text as `100 * degrees` plus the rounded minutes. */
  lemma DdmmTextValue(a: nat, m: real, isLongitude: bool)
    requires 0.0 <= m < 60.0
    ensures ReadsAsDdmm(DdmmText(a, m, isLongitude), a, FourPlaces(m))
  {
    RoundedMinutes(m);
    DdmmTextDigits(a, m, isLongitude);
    ParseDdmm(a, DegreeWidth(isLongitude), RoundScaled(m, 4));
  }

  /**
   * Any non-empty text that reads as `100 * a + rounded`, with `rounded` in
   * [0, 100), and any non-empty letter decode to `a + rounded / 60`, negated
   * when the letter is `S` or `W`.
   */
  lemma DecodeText(text: string, letter: string, a: int, rounded: real, negate: bool)
    requires ReadsAsDdmm(text, a, rounded)
    requires letter != "" && (negate <==> SouthOrWest(Some(letter)))
    ensures ParseCoordinate(Some(text), Some(letter))
         == Some(if negate then -(a as real + rounded / 60.0) else a as real + rounded / 60.0)
  {
    DdmmSplit(a, rounded, negate);
  }

  /** Half a unit of the fourth decimal of a minute is 1/1200000 of a degree. */
  lemma RoundingError(a: real, m: real, shifted: real, negate: bool)
    requires -0.5 / 10000.0 < shifted - m <= 0.5 / 10000.0
    ensures var exact := a + m / 60.0;
      var decoded := a + shifted / 60.0;
      -1.0 / 1200000.0 <= (if negate then -decoded else decoded) - (if negate then -exact else exact) <= 1.0 / 1200000.0
  {
  }

  /**
   * With the four-decimal rounding, the server decodes the simulator's
   * coordinate text and hemisphere letter to within 1/1200000 of a degree
   * (half a unit of the fourth decimal of a minute) of the coordinate.
   */
  lemma CoordinateRoundTrip(decimal: real, isLongitude: bool)
    ensures var r := ParseCoordinate(Some(ToNmea(decimal, isLongitude)), Some(Hemisphere(decimal, isLongitude)));
      r.Some? && -1.0 / 1200000.0 <= r.value - decimal <= 1.0 / 1200000.0
  {
    var a := WholeDegrees(decimal);
    var m := Minutes(decimal);
    var rounded := FourPlaces(m);
    HemisphereSign(decimal, isLongitude);
    DdmmTextValue(a, m, isLongitude);
    DecodeText(ToNmea(decimal, isLongitude), Hemisphere(decimal, isLongitude), a, rounded, decimal < 0.0);
    RoundedMinutes(m);
    RoundingError(a as real, m, rounded, decimal < 0.0);
    assert a as real + m / 60.0 == Abs(decimal);
  }

  // ---------------------------------------------------------------------
  // The time and date fields

  /**
   * The UTC calendar fields of `new Date()` that the simulator reads;
   * `month` counts from 0, as `getUTCMonth` does.
   */
  datatype UtcClock = UtcClock(year: int, month: nat, day: nat, hours: nat, minutes: nat, seconds: nat)

  /** The ranges the `getUTC*` accessors return values in. */
  predicate ValidClock(c: UtcClock) {
    c.month < 12 && 1 <= c.day <= 31 && c.hours < 24 && c.minutes < 60 && c.seconds < 60
  }

  /** `n.toString().padStart(2, '0')`. */
  function Two(n: nat): string {
    PadStart(Show(n), 2, '0')
  }

  /** `now.getUTCFullYear().toString().substr(2, 2)`. */
  function YearPart(year: int): string {
    Substr(ShowInt(year), 2, 2)
  }

  /** The HHMMSS field. */
  function TimeField(c: UtcClock): string {
    Two(c.hours) + Two(c.minutes) + Two(c.seconds)
  }

  /** The DDMMYY field: the month is written from 1. */
  function DateField(c: UtcClock): string {
    Two(c.day) + Two(c.month + 1) + YearPart(c.year)
  }

  /** Any whole number is written in digits only; one below 100 in exactly two, which read back as it. */
  lemma TwoDigits(n: nat)
    ensures AllDigits(Two(n)) && |Two(n)| >= 2
    ensures n < 100 ==> |Two(n)| == 2 && DigitsValue(Two(n)) == n
  {
    ZeroPaddedValue(Show(n), 2);
    if n < 100 {
      assert Pow10(2) == 100;
      ShowLength(n, 2);
    }
  }

  /** The last two of four digits are the number modulo 100. */
  lemma LastTwoDigits(s: string)
    requires |s| == 4 && AllDigits(s)
    ensures AllDigits(s[2..]) && DigitsValue(s[2..]) == DigitsValue(s) % 100
  {
    var hi, lo := s[..2], s[2..];
    assert s == hi + lo;
    assert AllDigits(hi) && AllDigits(lo);
    assert DigitsValue(s) == DigitsValue(hi) * 100 + DigitsValue(lo) by {
      DigitsValueAppend(hi, lo);
      assert Pow10(|lo|) == 100;
    }
    assert DigitsValue(lo) < 100 by {
      DigitsValueBound(lo);
      assert Pow10(|lo|) == 100;
    }
    HundredsRemainder(DigitsValue(hi), DigitsValue(lo));
  }

  /** The remainder of `100 * q + r` by 100 is `r` for `r` in [0, 100). */
  lemma HundredsRemainder(q: int, r: int)
    requires 0 <= r < 100
    ensures (q * 100 + r) % 100 == r
  {
  }

  /** A number from 1000 to 9999 is written in four digits. */
  lemma FourDigitYear(year: nat)
    requires 1000 <= year < 10000
    ensures |Show(year)| == 4
  {
    assert Pow10(3) == 1000 && Pow10(4) == 10000;
    ShowLength(year, 4);
    Pow10Order(3, |Show(year)|);
  }

  /**
   * For a four-digit year the year part is its last two digits, `year % 100`;
   * it never has more than two characters.
   */
  lemma YearDigits(year: int)
    ensures |YearPart(year)| <= 2
    ensures 1000 <= year < 10000 ==> |YearPart(year)| == 2 && Pair(YearPart(year), 0, year % 100)
  {
    if 1000 <= year < 10000 {
      var s := Show(year);
      FourDigitYear(year);
      LastTwoDigits(s);
      assert YearPart(year) == s[2..4] == s[2..];
      assert YearPart(year)[0..2] == s[2..];
    }
  }

  /** Positions `i` and `i + 1` of `t` are two digits that read as `v`. */
  predicate Pair(t: string, i: nat, v: nat) {
    i + 2 <= |t| && AllDigits(t[i..i + 2]) && DigitsValue(t[i..i + 2]) == v
  }

  /** Three pairs of digits written side by side: six digits, read back two at a time. */
  lemma Concat3Pairs(p: string, q: string, r: string, x: nat, y: nat, z: nat)
    requires |p| == 2 && |q| == 2 && |r| == 2
    requires Pair(p, 0, x) && Pair(q, 0, y) && Pair(r, 0, z)
    ensures var t := p + q + r;
      |t| == 6 && AllDigits(t) && Pair(t, 0, x) && Pair(t, 2, y) && Pair(t, 4, z)
  {
    var t := p + q + r;
    assert p[0..2] == p == t[0..2] && q[0..2] == q == t[2..4] && r[0..2] == r == t[4..6];
  }

  /** A number below 100 as a pair of digits. */
  lemma TwoPair(n: nat)
    requires n < 100
    ensures |Two(n)| == 2 && Pair(Two(n), 0, n)
  {
    TwoDigits(n);
    assert Two(n)[0..2] == Two(n);
  }

  /** For a clock in range the time field is HHMMSS: six digits giving the hours, minutes and seconds. */
  lemma TimeFieldDigits(c: UtcClock)
    requires ValidClock(c)
    ensures var t := TimeField(c);
      |t| == 6 && AllDigits(t) && Pair(t, 0, c.hours) && Pair(t, 2, c.minutes) && Pair(t, 4, c.seconds)
  {
    TwoPair(c.hours);
    TwoPair(c.minutes);
    TwoPair(c.seconds);
    Concat3Pairs(Two(c.hours), Two(c.minutes), Two(c.seconds), c.hours, c.minutes, c.seconds);
  }

  /** A day, a month and a four-digit year written as DDMMYY. */
  lemma DdMmYy(day: nat, month: nat, year: int)
    requires day < 100 && month < 100 && 1000 <= year < 10000
    ensures var d := Two(day) + Two(month) + YearPart(year);
      |d| == 6 && AllDigits(d) && Pair(d, 0, day) && Pair(d, 2, month) && Pair(d, 4, year % 100)
  {
    TwoPair(day);
    TwoPair(month);
    YearDigits(year);
    Concat3Pairs(Two(day), Two(month), YearPart(year), day, month, year % 100);
  }

  /**
   * For a clock in range with a four-digit year the date field is DDMMYY: six
   * digits giving the day, the month counted from 1, and the year modulo 100.
   */
  lemma DateFieldDigits(c: UtcClock)
    requires ValidClock(c) && 1000 <= c.year < 10000
    ensures var d := DateField(c);
      |d| == 6 && AllDigits(d) && Pair(d, 0, c.day) && Pair(d, 2, c.month + 1) && Pair(d, 4, c.year % 100)
  {
    DdMmYy(c.day, c.month + 1, c.year);
  }

  // ---------------------------------------------------------------------
  // The RMC sentence

  /**
   * The fields of the `rmcData` template, in order: the sentence kind, the
   * time, status `A` (valid), the latitude and its letter, the longitude and
   * its letter, the speed and the course, the date, and a fixed magnetic
   * variation of 3.1 degrees west.
   */
  function RmcTemplate(time: string, latText: string, latDir: string, lonText: string, lonDir: string,
                       speed: string, course: string, date: string): seq<string> {
    ["GPRMC", time, "A", latText, latDir, lonText, lonDir, speed, course, date, "003.1", "W"]
  }

  /** The template filled with the simulator's values; speed and course to one decimal. */
  function RmcFields(c: UtcClock, lat: real, lon: real): seq<string> {
    RmcTemplate(TimeField(c), ToNmea(lat, false), LatDir(lat), ToNmea(lon, true), LonDir(lon),
                ToFixed(Speed, 1), ToFixed(Heading, 1), DateField(c))
  }

  /** `rmcData`: the fields joined with commas. */
  function RmcData(c: UtcClock, lat: real, lon: real): string {
    Join(RmcFields(c, lat, lon), ",")
  }

  /** `$`, the data, `*` and the checksum of the data. */
  function Framed(data: string): string {
    "$" + data + "*" + Checksum(data)
  }

  /** `rmcSentence`. */
  function RmcSentence(c: UtcClock, lat: real, lon: real): string {
    Framed(RmcData(c, lat, lon))
  }

  /**
   * `sendGPS`: the sentence it puts in its datagram for the clock reading `c`
   * at the position `lat`, `lon`, its checksum computed by the loop.
   */
  method SendGps(c: UtcClock, lat: real, lon: real) returns (sentence: string)
    ensures sentence == RmcSentence(c, lat, lon)
  {
    var rmcData := RmcData(c, lat, lon);
    var rmcChecksum := CalculateChecksum(rmcData);
    sentence := "$" + rmcData + "*" + rmcChecksum;
  }

  /** The fixed speed is written `2.0`, which reads back as 2. */
  lemma SpeedText()
    ensures ToFixed(Speed, 1) == "2.0" && ParseFloat(ToFixed(Speed, 1)) == Finite(Speed)
  {
    ScaleValue(Speed, 1);
    assert RoundScaled(Speed, 1) == 20;
    assert Show(20) == "20";
    assert PointDigits(20, 1) == "2.0";
    ToFixedRoundTrip(Speed, 1);
  }

  /** The fixed course is written `135.0`, which reads back as 135. */
  lemma CourseText()
    ensures ToFixed(Heading, 1) == "135.0" && ParseFloat(ToFixed(Heading, 1)) == Finite(Heading)
  {
    ScaleValue(Heading, 1);
    assert RoundScaled(Heading, 1) == 1350;
    var digits := Show(1350);
    assert digits == "1350";
    assert PadStart(digits, 2, '0') == digits;
    assert PointDigits(1350, 1) == digits[..3] + "." + digits[3..] == "135.0";
    ToFixedRoundTrip(Heading, 1);
  }

  /** Digits hold no comma. */
  lemma DigitsNoComma(s: string)
    requires AllDigits(s)
    ensures ',' !in s
  {
    forall i | 0 <= i < |s|
      ensures s[i] != ','
    {
      assert IsDigit(s[i]);
    }
  }

  /** Digits with a point put in hold no comma. */
  lemma PointedNoComma(p: string, k: nat)
    requires AllDigits(p) && k <= |p|
    ensures ',' !in p[..k] + "." + p[k..]
  {
    DigitsNoComma(p[..k]);
    DigitsNoComma(p[k..]);
  }

  /** What `toFixed` writes for a rounded whole number holds no comma. */
  lemma PointDigitsNoComma(n: nat, f: nat)
    ensures ',' !in PointDigits(n, f)
  {
    DigitsNoComma(Show(n));
    if f > 0 {
      ZeroPaddedValue(Show(n), f + 1);
      var padded := PadStart(Show(n), f + 1, '0');
      PointedNoComma(padded, |padded| - f);
    }
  }

  /** What `toFixed` writes holds no comma: digits, a point and perhaps a minus sign. */
  lemma ToFixedNoComma(x: real, f: nat)
    ensures ',' !in ToFixed(x, f)
  {
    if x < 0.0 {
      PointDigitsNoComma(RoundScaled(-x, f), f);
    } else {
      PointDigitsNoComma(RoundScaled(x, f), f);
    }
  }

  /** Zero padding adds no comma. */
  lemma PadNoComma(s: string, n: nat)
    requires ',' !in s
    ensures ',' !in PadStart(s, n, '0')
  {
  }

  /** The coordinate text holds no comma. */
  lemma ToNmeaNoComma(decimal: real, isLongitude: bool)
    ensures ',' !in ToNmea(decimal, isLongitude)
  {
    DigitsNoComma(Show(WholeDegrees(decimal)));
    PadNoComma(Show(WholeDegrees(decimal)), DegreeWidth(isLongitude));
    ToFixedNoComma(Minutes(decimal), 4);
    PadNoComma(ToFixed(Minutes(decimal), 4), 7);
  }

  /** A number written with `Two` holds no comma. */
  lemma TwoNoComma(n: nat)
    ensures ',' !in Two(n)
  {
    DigitsNoComma(Show(n));
    PadNoComma(Show(n), 2);
  }

  /** A part of a text with no comma has no comma. */
  lemma SubstrNoComma(s: string, start: nat, length: nat)
    requires ',' !in s
    ensures ',' !in Substr(s, start, length)
  {
  }

  /** The year part holds no comma, for any year. */
  lemma YearNoComma(year: int)
    ensures ',' !in YearPart(year)
  {
    if year < 0 {
      DigitsNoComma(Show(-year));
      assert ShowInt(year) == "-" + Show(-year);
    } else {
      DigitsNoComma(Show(year));
    }
    SubstrNoComma(ShowInt(year), 2, 2);
  }

  /** The time and date fields hold no comma, whatever the clock reads. */
  lemma ClockNoComma(c: UtcClock)
    ensures ',' !in TimeField(c) && ',' !in DateField(c)
  {
    ClockFieldsNoComma(c.hours, c.minutes, c.seconds, c.day, c.month + 1, c.year);
  }

  lemma ClockFieldsNoComma(hours: nat, minutes: nat, seconds: nat, day: nat, month: nat, year: int)
    ensures ',' !in Two(hours) + Two(minutes) + Two(seconds)
    ensures ',' !in Two(day) + Two(month) + YearPart(year)
  {
    TwoNoComma(hours);
    TwoNoComma(minutes);
    TwoNoComma(seconds);
    TwoNoComma(day);
    TwoNoComma(month);
    YearNoComma(year);
  }

  /** The twelve RMC fields hold no comma once the eight filled in hold none. */
  lemma TemplateNoComma(time: string, latText: string, latDir: string, lonText: string, lonDir: string,
                        speed: string, course: string, date: string)
    requires ',' !in time && ',' !in latText && ',' !in latDir && ',' !in lonText && ',' !in lonDir
    requires ',' !in speed && ',' !in course && ',' !in date
    ensures var fs := RmcTemplate(time, latText, latDir, lonText, lonDir, speed, course, date);
      forall i :: 0 <= i < |fs| ==> ',' !in fs[i]
  {
  }

  /** The hemisphere letters are not commas. */
  lemma LettersNoComma(lat: real, lon: real)
    ensures ',' !in LatDir(lat) && ',' !in LonDir(lon)
  {
  }

  /** Hexadecimal digits padded with zeros to two places stay upper-case hexadecimal digits. */
  lemma PaddedHex(h: string)
    requires forall i :: 0 <= i < |h| ==> IsUpperHex(h[i])
    ensures var r := PadStart(h, 2, '0');
      |r| >= 2 && forall i :: 0 <= i < |r| ==> IsUpperHex(r[i])
  {
    var r := PadStart(h, 2, '0');
    forall i | 0 <= i < |r|
      ensures IsUpperHex(r[i])
    {
      if i >= |r| - |h| {
        assert r[i] == r[|r| - |h|..][i - (|r| - |h|)] == h[i - (|r| - |h|)];
      }
    }
  }

  /** The checksum is at least two upper-case hexadecimal digits, so it holds no comma and no white space. */
  lemma ChecksumDigits(s: string)
    ensures |Checksum(s)| >= 2 && forall i :: 0 <= i < |Checksum(s)| ==> IsUpperHex(Checksum(s)[i])
  {
    PaddedHex(ShowHex(XorUnits(Folded(s)) as int));
  }

  /**
   * Framing comma-separated fields as `$` + fields + `*` + checksum and
   * splitting on commas again gives back the fields, with `$` stuck to the
   * first and `*checksum` to the last.
   */
  lemma SplitFramed(fs: seq<string>, cs: string)
    requires |fs| >= 2
    requires forall i :: 0 <= i < |fs| ==> ',' !in fs[i]
    requires ',' !in cs
    ensures Split("$" + Join(fs, ",") + "*" + cs, ',')
         == ["$" + fs[0]] + fs[1..|fs| - 1] + [fs[|fs| - 1] + "*" + cs]
  {
    var gs := ["$" + fs[0]] + fs[1..];
    JoinPrefix("$", fs, ",");
    JoinSuffix(gs, ",", "*" + cs);
    assert gs[..|gs| - 1] == ["$" + fs[0]] + fs[1..|fs| - 1];
    assert gs[|gs| - 1] + ("*" + cs) == fs[|fs| - 1] + "*" + cs;
    var hs := gs[..|gs| - 1] + [gs[|gs| - 1] + ("*" + cs)];
    assert "$" + Join(fs, ",") + "*" + cs == Join(gs, ",") + ("*" + cs);
    SplitJoin(hs, ',');
  }

  /** Hexadecimal digits hold no comma. */
  lemma HexNoComma(cs: string)
    requires forall i :: 0 <= i < |cs| ==> IsUpperHex(cs[i])
    ensures ',' !in cs
  {
    forall i | 0 <= i < |cs|
      ensures cs[i] != ','
    {
      assert IsUpperHex(cs[i]);
    }
  }

  /** A sentence from `$` to a hexadecimal digit has no white space at either end. */
  lemma FramedTrim(body: string, cs: string)
    requires cs != [] && IsUpperHex(cs[|cs| - 1])
    ensures Trim("$" + body + "*" + cs) == "$" + body + "*" + cs
  {
    var sentence := "$" + body + "*" + cs;
    assert sentence[0] == '$';
    assert sentence[|sentence| - 1] == cs[|cs| - 1];
    TrimUnchanged(sentence);
  }

  /**
   * A framed sentence whose checksum is hexadecimal digits has nothing for
   * `trim` to remove, so the parser's fields are the split fields.
   */
  lemma FramedFields(fs: seq<string>, cs: string)
    requires |fs| >= 2
    requires forall i :: 0 <= i < |fs| ==> ',' !in fs[i]
    requires cs != [] && forall i :: 0 <= i < |cs| ==> IsUpperHex(cs[i])
    ensures Fields("$" + Join(fs, ",") + "*" + cs) == ["$" + fs[0]] + fs[1..|fs| - 1] + [fs[|fs| - 1] + "*" + cs]
  {
    var sentence := "$" + Join(fs, ",") + "*" + cs;
    assert Trim(sentence) == sentence by {
      FramedTrim(Join(fs, ","), cs);
    }
    assert Split(sentence, ',') == ["$" + fs[0]] + fs[1..|fs| - 1] + [fs[|fs| - 1] + "*" + cs] by {
      HexNoComma(cs);
      SplitFramed(fs, cs);
    }
  }

  /** The fields `parseNMEA` sees in a framed sentence: the data fields, with `$` and `*checksum` attached. */
  lemma FramedJoinFields(fs: seq<string>)
    requires |fs| >= 2
    requires forall i :: 0 <= i < |fs| ==> ',' !in fs[i]
    ensures Fields(Framed(Join(fs, ",")))
         == ["$" + fs[0]] + fs[1..|fs| - 1] + [fs[|fs| - 1] + "*" + Checksum(Join(fs, ","))]
  {
    var cs := Checksum(Join(fs, ","));
    assert cs != [] && forall i :: 0 <= i < |cs| ==> IsUpperHex(cs[i]) by {
      ChecksumDigits(Join(fs, ","));
    }
    FramedFields(fs, cs);
  }

  /**
   * A sentence whose fields are twelve framed RMC data fields, of kind
   * `GPRMC` with status `A` and a speed and a course that read as the
   * simulator's, is accepted as an RMC fix exactly when both coordinate
   * pairs decode; the fix carries fields 1 and 9 as its time and date.
   */
  lemma AcceptedRmc(sentence: string, now: string, fs: seq<string>, cs: string)
    requires |fs| == 12 && fs[0] == "GPRMC" && fs[2] == "A"
    requires Fields(sentence) == ["$" + fs[0]] + fs[1..11] + [fs[11] + "*" + cs]
    requires ParseFloat(fs[7]) == Finite(Speed) && ParseFloat(fs[8]) == Finite(Heading)
    ensures var lat := ParseCoordinate(Some(fs[3]), Some(fs[4]));
      var lon := ParseCoordinate(Some(fs[5]), Some(fs[6]));
      ParseNmea(sentence, now)
        == if lat.Some? && lon.Some? then
             Some(Rmc(now, Some(fs[1]), Some(fs[9]), lat.value, lon.value, Finite(Speed), Finite(Heading), "A"))
           else None
  {
    RmcParts(sentence, fs, cs);
    ParseRmc(sentence, now);
  }

  /** The fields such a sentence splits into: kind `$GPRMC`, then the data fields in place. */
  lemma RmcParts(sentence: string, fs: seq<string>, cs: string)
    requires |fs| == 12 && fs[0] == "GPRMC"
    requires Fields(sentence) == ["$" + fs[0]] + fs[1..11] + [fs[11] + "*" + cs]
    ensures EndsWith(Fields(sentence)[0], "RMC")
    ensures var parts := Fields(sentence);
      && Part(parts, 1) == Some(fs[1]) && Part(parts, 2) == Some(fs[2]) && Part(parts, 3) == Some(fs[3])
      && Part(parts, 4) == Some(fs[4]) && Part(parts, 5) == Some(fs[5]) && Part(parts, 6) == Some(fs[6])
      && Part(parts, 7) == Some(fs[7]) && Part(parts, 8) == Some(fs[8]) && Part(parts, 9) == Some(fs[9])
  {
    var parts := Fields(sentence);
    assert EndsWith(parts[0], "RMC") by {
      assert parts[0] == "$GPRMC";
    }
    forall i | 1 <= i < 11
      ensures Part(parts, i) == Some(fs[i])
    {
      assert parts[i] == fs[1..11][i - 1];
    }
  }

  /**
   * A framed RMC template of kind `GPRMC` and status `A`, whose speed and
   * course read as the simulator's, is accepted as an RMC fix exactly when
   * both coordinate pairs decode; the fix carries the time and the date.
   */
  lemma TemplateAccepted(time: string, latText: string, latDir: string, lonText: string, lonDir: string,
                         speed: string, course: string, date: string, now: string)
    requires ',' !in time && ',' !in latText && ',' !in latDir && ',' !in lonText && ',' !in lonDir
    requires ',' !in speed && ',' !in course && ',' !in date
    requires ParseFloat(speed) == Finite(Speed) && ParseFloat(course) == Finite(Heading)
    ensures var lat := ParseCoordinate(Some(latText), Some(latDir));
      var lon := ParseCoordinate(Some(lonText), Some(lonDir));
      ParseNmea(Framed(Join(RmcTemplate(time, latText, latDir, lonText, lonDir, speed, course, date), ",")), now)
        == if lat.Some? && lon.Some? then
             Some(Rmc(now, Some(time), Some(date), lat.value, lon.value, Finite(Speed), Finite(Heading), "A"))
           else None
  {
    var fs := RmcTemplate(time, latText, latDir, lonText, lonDir, speed, course, date);
    TemplateNoComma(time, latText, latDir, lonText, lonDir, speed, course, date);
    FramedJoinFields(fs);
    AcceptedRmc(Framed(Join(fs, ",")), now, fs, Checksum(Join(fs, ",")));
  }

  /**
   * The server accepts every sentence the simulator sends as an RMC fix
   * with the simulator's time, date, speed and course, and a position within
   * 1/1200000 of a degree of the simulator's in both coordinates.
   */
  lemma SentenceAccepted(c: UtcClock, lat: real, lon: real, now: string)
    ensures var fix := ParseNmea(RmcSentence(c, lat, lon), now);
      && fix.Some? && fix.value.Rmc? && fix.value.timestamp == now && fix.value.status == "A"
      && fix.value.time == Some(TimeField(c)) && fix.value.date == Some(DateField(c))
      && fix.value.speed == Finite(Speed) && fix.value.course == Finite(Heading)
      && -1.0 / 1200000.0 <= fix.value.lat - lat <= 1.0 / 1200000.0
      && -1.0 / 1200000.0 <= fix.value.lon - lon <= 1.0 / 1200000.0
  {
    var latFix := ParseCoordinate(Some(ToNmea(lat, false)), Some(LatDir(lat)));
    var lonFix := ParseCoordinate(Some(ToNmea(lon, true)), Some(LonDir(lon)));
    assert latFix.Some? && -1.0 / 1200000.0 <= latFix.value - lat <= 1.0 / 1200000.0 by {
      CoordinateRoundTrip(lat, false);
    }
    assert lonFix.Some? && -1.0 / 1200000.0 <= lonFix.value - lon <= 1.0 / 1200000.0 by {
      CoordinateRoundTrip(lon, true);
    }
    assert ',' !in TimeField(c) && ',' !in DateField(c) by {
      ClockNoComma(c);
    }
    assert ',' !in ToNmea(lat, false) && ',' !in ToNmea(lon, true) && ',' !in LatDir(lat) && ',' !in LonDir(lon) by {
      ToNmeaNoComma(lat, false);
      ToNmeaNoComma(lon, true);
      LettersNoComma(lat, lon);
    }
    assert ',' !in ToFixed(Speed, 1) && ParseFloat(ToFixed(Speed, 1)) == Finite(Speed) by {
      ToFixedNoComma(Speed, 1);
      SpeedText();
    }
    assert ',' !in ToFixed(Heading, 1) && ParseFloat(ToFixed(Heading, 1)) == Finite(Heading) by {
      ToFixedNoComma(Heading, 1);
      CourseText();
    }
    TemplateAccepted(TimeField(c), ToNmea(lat, false), LatDir(lat), ToNmea(lon, true), LonDir(lon),
                     ToFixed(Speed, 1), ToFixed(Heading, 1), DateField(c), now);
  }
}
