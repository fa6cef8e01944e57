/**
 * The NMEA 0183 sentence parser of the GPS server (`parseNMEA`) and the
 * coordinate decoder it uses (`parseCoordinate`).
 *
 * A sentence is trimmed and split on commas; the suffix of the first field
 * chooses the kind (GGA, RMC or VTG, with any talker prefix), and each kind
 * reads fixed field positions. The checksum is never checked: `*hh` stays
 * attached to the last field. Every input string gives either a fix or
 * `None` (JavaScript's `null`).
 */
module Nmea {
  import opened Wrappers
  import opened JsText
  import opened JsNumber

  /**
   * A decoded fix. `timestamp` is the parse instant. A text field that the
   * sentence is too short to have is `None` (`undefined`); coordinates are
   * always finite; `quality` and `satellites` are `None` when `parseInt`
   * gives NaN.
   */
  datatype Fix =
    | Gga(timestamp: string, time: Option<string>, lat: real, lon: real,
          quality: Option<int>, satellites: Option<int>, altitude: Number)
    | Rmc(timestamp: string, time: Option<string>, date: Option<string>, lat: real, lon: real,
          speed: Number, course: Number, status: string)
    | Vtg(timestamp: string, courseTrue: Number, speedKnots: Number, speedKmh: Number)

  /** `parts[i]`; `None` stands for the `undefined` read past the end. */
  function Part(parts: seq<string>, i: nat): (p: Option<string>)
    ensures p.Some? <==> i < |parts|
    ensures p.Some? ==> p.value == parts[i]
  {
    if i < |parts| then Some(parts[i]) else None
  }

  /** The text `parseFloat` and `parseInt` see for a part: `undefined` becomes `"undefined"`. */
  function Arg(p: Option<string>): string {
    match p
    case Some(s) => s
    case None => "undefined"
  }

  /** `!p` for a part: `undefined` and the empty string are falsy. */
  predicate Falsy(p: Option<string>) {
    p.None? || p.value == ""
  }

  /** `parseFloat(parts[i])`. */
  function FloatPart(parts: seq<string>, i: nat): Number {
    ParseFloat(Arg(Part(parts, i)))
  }

  /** `parseInt(parts[i])`, `None` for NaN. */
  function IntPart(parts: seq<string>, i: nat): Option<int> {
    ParseInt(Arg(Part(parts, i)))
  }

  /**
   * The arithmetic of `parseCoordinate` on a finite `v` read as DDMM.MMMM:
   * whole hundreds are degrees, the rest are minutes, negated for the
   * southern and western hemispheres.
   */
  function DdmmToDegrees(v: real, negate: bool): real {
    var degrees := (v / 100.0).Floor;
    var minutes := v - (degrees * 100) as real;
    var decimal := degrees as real + minutes / 60.0;
    if negate then -decimal else decimal
  }

  /** The number `DDMM.MMMM` stands for: `100 * degrees + minutes`. */
  function DdmmNumber(degrees: int, minutes: real): real {
    (degrees * 100) as real + minutes
  }

  /** The minutes `parseCoordinate` takes from `v` lie in [0, 100). */
  lemma MinutesInRange(v: real)
    ensures var degrees := (v / 100.0).Floor;
      0.0 <= v - (degrees * 100) as real < 100.0
  {
    var degrees := (v / 100.0).Floor;
    assert degrees as real <= v / 100.0 < degrees as real + 1.0;
    HundredTimes(v, degrees as real);
  }

  lemma HundredTimes(v: real, d: real)
    requires d <= v / 100.0 < d + 1.0
    ensures d * 100.0 <= v < d * 100.0 + 100.0
  {
  }

  /**
   * The reference reading of DDMM.MMMM: whenever `v` is `100 * d + m` with
   * whole `d` and `m` in [0, 100), `parseCoordinate` gives `d + m / 60`
   * (negated for S and W). The split into degrees and minutes is unique.
   */
  lemma {:induction false} DdmmSplit(d: int, m: real, negate: bool)
    requires 0.0 <= m < 100.0
    ensures DdmmToDegrees(DdmmNumber(d, m), negate)
         == if negate then -(d as real + m / 60.0) else d as real + m / 60.0
  {
    var v := DdmmNumber(d, m);
    FloorOfHundreds(d, m);
    assert (v / 100.0).Floor == d;
  }

  lemma FloorOfHundreds(d: int, m: real)
    requires 0.0 <= m < 100.0
    ensures d as real <= ((d * 100) as real + m) / 100.0 < d as real + 1.0
  {
  }

  /** `direction === 'S' || direction === 'W'`: the hemispheres whose coordinates are negative. */
  predicate SouthOrWest(direction: Option<string>) {
    direction == Some("S") || direction == Some("W")
  }

  /**
   * `parseCoordinate(coord, direction)`: NaN (`None`) when either input is
   * missing or empty or when `coord` does not read as a finite number
   * (an infinite reading gives Infinity - Infinity, which is NaN).
   */
  function ParseCoordinate(coord: Option<string>, direction: Option<string>): (r: Option<real>)
    ensures r.Some? <==> !Falsy(coord) && !Falsy(direction) && ParseFloat(Arg(coord)).Finite?
    ensures r.Some? ==> r == Some(DdmmToDegrees(ParseFloat(coord.value).value, SouthOrWest(direction)))
  {
    if Falsy(coord) || Falsy(direction) then None
    else
      match ParseFloat(coord.value)
      case Finite(v) => Some(DdmmToDegrees(v, SouthOrWest(direction)))
      case _ => None
  }

  /**
   * `parseNMEA(sentence)` with `now` as the parse instant. GGA and RMC need
   * both coordinates finite, RMC also status `A`; VTG is always accepted;
   * any other kind, and a GGA or RMC that fails its guard, gives `None`.
   */
  function ParseNmea(sentence: string, now: string): (r: Option<Fix>)
    ensures r.Some? ==> r.value.timestamp == now
  {
    var parts := Fields(sentence);
    var kind := parts[0];
    if EndsWith(kind, "GGA") && GgaLat(parts).Some? && GgaLon(parts).Some? then
      Some(Gga(now, Part(parts, 1), GgaLat(parts).value, GgaLon(parts).value,
               IntPart(parts, 6), IntPart(parts, 7), FloatPart(parts, 9)))
    else if EndsWith(kind, "RMC") && Part(parts, 2) == Some("A")
            && RmcLat(parts).Some? && RmcLon(parts).Some? then
      Some(Rmc(now, Part(parts, 1), Part(parts, 9), RmcLat(parts).value, RmcLon(parts).value,
               FloatPart(parts, 7), FloatPart(parts, 8), "A"))
    else if EndsWith(kind, "VTG") then
      Some(Vtg(now, FloatPart(parts, 1), FloatPart(parts, 5), FloatPart(parts, 7)))
    else None
  }

  /** The coordinate fields of a GGA sentence: latitude in parts 2-3, longitude in 4-5. */
  function GgaLat(parts: seq<string>): Option<real> {
    ParseCoordinate(Part(parts, 2), Part(parts, 3))
  }

  function GgaLon(parts: seq<string>): Option<real> {
    ParseCoordinate(Part(parts, 4), Part(parts, 5))
  }

  /** The coordinate fields of an RMC sentence: latitude in parts 3-4, longitude in 5-6. */
  function RmcLat(parts: seq<string>): Option<real> {
    ParseCoordinate(Part(parts, 3), Part(parts, 4))
  }

  function RmcLon(parts: seq<string>): Option<real> {
    ParseCoordinate(Part(parts, 5), Part(parts, 6))
  }

  /** The comma fields the parser reads, after trimming. */
  function Fields(sentence: string): (parts: seq<string>)
    ensures |parts| >= 1
  {
    Split(Trim(sentence), ',')
  }

  /** The three suffixes are exclusive: no first field ends in two of them. */
  lemma KindsExclusive(kind: string)
    ensures !(EndsWith(kind, "GGA") && EndsWith(kind, "RMC"))
    ensures !(EndsWith(kind, "GGA") && EndsWith(kind, "VTG"))
    ensures !(EndsWith(kind, "RMC") && EndsWith(kind, "VTG"))
  {
    if |kind| >= 3 {
      var c := kind[|kind| - 3];
      assert EndsWith(kind, "GGA") ==> c == 'G' by {
        EndsWithFirst(kind, "GGA");
      }
      assert EndsWith(kind, "RMC") ==> c == 'R' by {
        EndsWithFirst(kind, "RMC");
      }
      assert EndsWith(kind, "VTG") ==> c == 'V' by {
        EndsWithFirst(kind, "VTG");
      }
    }
  }

  /**
   * A sentence whose first field ends in `GGA` gives a GGA fix exactly when
   * both coordinates are finite, with time from part 1, the coordinates from
   * parts 2-5, quality from part 6, satellites from part 7 and altitude from
   * part 9 (part 8 is skipped); otherwise it gives `None`.
   */
  lemma ParseGga(sentence: string, now: string)
    requires EndsWith(Fields(sentence)[0], "GGA")
    ensures var parts := Fields(sentence);
      var lat := ParseCoordinate(Part(parts, 2), Part(parts, 3));
      var lon := ParseCoordinate(Part(parts, 4), Part(parts, 5));
      ParseNmea(sentence, now)
        == if lat.Some? && lon.Some? then
             Some(Gga(now, Part(parts, 1), lat.value, lon.value,
                      ParseInt(Arg(Part(parts, 6))), ParseInt(Arg(Part(parts, 7))),
                      ParseFloat(Arg(Part(parts, 9)))))
           else None
  {
    KindsExclusive(Fields(sentence)[0]);
  }

  /**
   * A sentence whose first field ends in `RMC` gives an RMC fix exactly when
   * part 2 is `A` and both coordinates are finite; otherwise `None`.
   */
  lemma ParseRmc(sentence: string, now: string)
    requires EndsWith(Fields(sentence)[0], "RMC")
    ensures var parts := Fields(sentence);
      var lat := ParseCoordinate(Part(parts, 3), Part(parts, 4));
      var lon := ParseCoordinate(Part(parts, 5), Part(parts, 6));
      ParseNmea(sentence, now)
        == if Part(parts, 2) == Some("A") && lat.Some? && lon.Some? then
             Some(Rmc(now, Part(parts, 1), Part(parts, 9), lat.value, lon.value,
                      ParseFloat(Arg(Part(parts, 7))), ParseFloat(Arg(Part(parts, 8))), "A"))
           else None
  {
    KindsExclusive(Fields(sentence)[0]);
  }

  /**
   * A sentence whose first field ends in `VTG` always gives a VTG fix, with
   * course from part 1 and speeds from parts 5 and 7, NaN included.
   */
  lemma ParseVtg(sentence: string, now: string)
    requires EndsWith(Fields(sentence)[0], "VTG")
    ensures var parts := Fields(sentence);
      ParseNmea(sentence, now)
        == Some(Vtg(now, ParseFloat(Arg(Part(parts, 1))), ParseFloat(Arg(Part(parts, 5))),
                    ParseFloat(Arg(Part(parts, 7)))))
  {
    KindsExclusive(Fields(sentence)[0]);
  }

  /** Any other first field gives `None`; and a fix's kind always matches the first field's suffix. */
  lemma ParseKind(sentence: string, now: string)
    ensures var kind := Fields(sentence)[0];
      && ((!EndsWith(kind, "GGA") && !EndsWith(kind, "RMC") && !EndsWith(kind, "VTG"))
            ==> ParseNmea(sentence, now) == None)
      && (ParseNmea(sentence, now).Some? ==>
            && (ParseNmea(sentence, now).value.Gga? <==> EndsWith(kind, "GGA"))
            && (ParseNmea(sentence, now).value.Rmc? <==> EndsWith(kind, "RMC"))
            && (ParseNmea(sentence, now).value.Vtg? <==> EndsWith(kind, "VTG")))
  {
    KindsExclusive(Fields(sentence)[0]);
  }

  /** An accepted GGA or RMC fix carries the coordinates of a well-formed pair of fields. */
  lemma FixCoordinates(sentence: string, now: string)
    requires ParseNmea(sentence, now).Some? && !ParseNmea(sentence, now).value.Vtg?
    ensures var parts := Fields(sentence);
      var f := ParseNmea(sentence, now).value;
      var i := if f.Gga? then 2 else 3;
      && !Falsy(Part(parts, i)) && !Falsy(Part(parts, i + 1))
      && !Falsy(Part(parts, i + 2)) && !Falsy(Part(parts, i + 3))
      && ParseFloat(parts[i]).Finite? && ParseFloat(parts[i + 2]).Finite?
  {
    KindsExclusive(Fields(sentence)[0]);
  }
}
