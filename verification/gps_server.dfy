/**
 * The per-source pipeline of the GPS server. The ship and the ROV each have
 * a UDP listener, a running snapshot and a set of WebSocket clients; the two
 * are the same algorithm with a different `(source, vehicle)` origin, so it is
 * written once here as a class that carries its origin.
 *
 * A datagram is trimmed, split into lines on `\r?\n` and blank lines are
 * dropped. Each line that starts with `$` and parses is merged into the
 * snapshot by object spread (new keys overwrite, absent keys survive), and
 * the new snapshot is sent to every OPEN client.
 */
module GpsServer {
  import opened Wrappers
  import opened JsText
  import opened JsNumber
  import opened Nmea
  import opened Subscribers

  /** A property value of the snapshot object. */
  datatype Value = Undefined | Text(text: string) | Num(number: Number)

  /** The property names the snapshot object can hold. */
  datatype Key =
    | Type | Timestamp | Time | Date | Lat | Lon | Quality | Satellites | Altitude
    | Speed | Course | Status | CourseTrue | SpeedKnots | SpeedKmh
    | Raw | Source | Vehicle | ReceivedAt

  /** The JavaScript property name of a key. */
  function Name(k: Key): string {
    match k
    case Type => "type"
    case Timestamp => "timestamp"
    case Time => "time"
    case Date => "date"
    case Lat => "lat"
    case Lon => "lon"
    case Quality => "quality"
    case Satellites => "satellites"
    case Altitude => "altitude"
    case Speed => "speed"
    case Course => "course"
    case Status => "status"
    case CourseTrue => "courseTrue"
    case SpeedKnots => "speedKnots"
    case SpeedKmh => "speedKmh"
    case Raw => "raw"
    case Source => "source"
    case Vehicle => "vehicle"
    case ReceivedAt => "receivedAt"
  }

  /** The snapshot object: properties to values. */
  type Snapshot = map<Key, Value>

  /** The `source` and `vehicle` a pipeline stamps on its snapshot. */
  datatype Origin = Origin(source: string, vehicle: string)

  const Ship := Origin("ship", "Falkor-too")
  const Rov := Origin("rov", "ROV")

  function OptText(p: Option<string>): Value {
    match p
    case Some(s) => Text(s)
    case None => Undefined
  }

  function OptInt(n: Option<int>): Value {
    match n
    case Some(i) => Num(Finite(i as real))
    case None => Num(NaN)
  }

  /** The properties the pipeline writes after the fix. */
  predicate IsStampKey(k: Key) {
    k.Raw? || k.Source? || k.Vehicle? || k.ReceivedAt?
  }

  /** The properties of the object `parseNMEA` returns for each kind of fix. */
  predicate IsFixKey(f: Fix, k: Key) {
    match f
    case Gga(_, _, _, _, _, _, _) =>
      k.Type? || k.Timestamp? || k.Time? || k.Lat? || k.Lon? || k.Quality? || k.Satellites? || k.Altitude?
    case Rmc(_, _, _, _, _, _, _, _) =>
      k.Type? || k.Timestamp? || k.Time? || k.Date? || k.Lat? || k.Lon? || k.Speed? || k.Course? || k.Status?
    case Vtg(_, _, _, _) =>
      k.Type? || k.Timestamp? || k.CourseTrue? || k.SpeedKnots? || k.SpeedKmh?
  }

  /** The value of property `k` in the object `parseNMEA` returns for `f`. */
  function FieldValue(f: Fix, k: Key): Value {
    match f
    case Gga(ts, time, lat, lon, quality, satellites, altitude) =>
      (match k
       case Type => Text("GGA")
       case Timestamp => Text(ts)
       case Time => OptText(time)
       case Lat => Num(Finite(lat))
       case Lon => Num(Finite(lon))
       case Quality => OptInt(quality)
       case Satellites => OptInt(satellites)
       case Altitude => Num(altitude)
       case _ => Undefined)
    case Rmc(ts, time, date, lat, lon, speed, course, status) =>
      (match k
       case Type => Text("RMC")
       case Timestamp => Text(ts)
       case Time => OptText(time)
       case Date => OptText(date)
       case Lat => Num(Finite(lat))
       case Lon => Num(Finite(lon))
       case Speed => Num(speed)
       case Course => Num(course)
       case Status => Text(status)
       case _ => Undefined)
    case Vtg(ts, courseTrue, speedKnots, speedKmh) =>
      (match k
       case Type => Text("VTG")
       case Timestamp => Text(ts)
       case CourseTrue => Num(courseTrue)
       case SpeedKnots => Num(speedKnots)
       case SpeedKmh => Num(speedKmh)
       case _ => Undefined)
  }

  /** The object `parseNMEA` returns, as properties; a field read past the end is present but `undefined`. */
  function FixFields(f: Fix): (m: Snapshot)
    ensures forall k :: k in m <==> IsFixKey(f, k)
    ensures Type in m && m[Type] == Text(if f.Gga? then "GGA" else if f.Rmc? then "RMC" else "VTG")
    ensures Timestamp in m && m[Timestamp] == Text(f.timestamp)
  {
    map k: Key | IsFixKey(f, k) :: FieldValue(f, k)
  }

  function StampValue(k: Key, line: string, origin: Origin, now: string): Value {
    match k
    case Raw => Text(line)
    case Source => Text(origin.source)
    case Vehicle => Text(origin.vehicle)
    case _ => Text(now)
  }

  /** The properties written after the fix: the raw line, the origin and the receive instant. */
  function Stamp(line: string, origin: Origin, now: string): (m: Snapshot)
    ensures forall k :: k in m <==> IsStampKey(k)
    ensures Raw in m && m[Raw] == Text(line)
    ensures Source in m && m[Source] == Text(origin.source)
    ensures Vehicle in m && m[Vehicle] == Text(origin.vehicle)
    ensures ReceivedAt in m && m[ReceivedAt] == Text(now)
  {
    map k: Key | IsStampKey(k) :: StampValue(k, line, origin, now)
  }

  /**
   * `{...snapshot, ...parsed, raw, source, vehicle, receivedAt}`, property by
   * property: the stamp's value wins, then the fix's, then the old snapshot's.
   */
  function Merge(snapshot: Snapshot, f: Fix, line: string, origin: Origin, now: string): Snapshot {
    map k: Key | k in snapshot || IsFixKey(f, k) || IsStampKey(k) ::
      if IsStampKey(k) then StampValue(k, line, origin, now)
      else if IsFixKey(f, k) then FieldValue(f, k)
      else snapshot[k]
  }

  /** The merge is the object spread of the old snapshot, the parsed fix and the stamp, in that order. */
  lemma MergeIsSpread(snapshot: Snapshot, f: Fix, line: string, origin: Origin, now: string)
    ensures Merge(snapshot, f, line, origin, now) == snapshot + FixFields(f) + Stamp(line, origin, now)
  {
  }

  /** A property the fix has takes the fix's value. */
  lemma MergeWrites(snapshot: Snapshot, f: Fix, line: string, origin: Origin, now: string, k: Key)
    requires IsFixKey(f, k)
    ensures k in Merge(snapshot, f, line, origin, now)
    ensures Merge(snapshot, f, line, origin, now)[k] == FieldValue(f, k)
  {
    assert !IsStampKey(k);
  }

  /** A property neither the fix nor the stamp has keeps its old value. */
  lemma MergeKeeps(snapshot: Snapshot, f: Fix, line: string, origin: Origin, now: string, k: Key)
    requires k in snapshot && !IsFixKey(f, k) && !IsStampKey(k)
    ensures k in Merge(snapshot, f, line, origin, now)
    ensures Merge(snapshot, f, line, origin, now)[k] == snapshot[k]
  {
  }

  /** The stamp's properties are always written. */
  lemma MergeStamps(snapshot: Snapshot, f: Fix, line: string, origin: Origin, now: string)
    ensures var r := Merge(snapshot, f, line, origin, now);
      && Raw in r && r[Raw] == Text(line) && Source in r && r[Source] == Text(origin.source)
      && Vehicle in r && r[Vehicle] == Text(origin.vehicle) && ReceivedAt in r && r[ReceivedAt] == Text(now)
  {
  }

  /** No property is removed, and no property appears that is not the fix's or the stamp's. */
  lemma MergeKeys(snapshot: Snapshot, f: Fix, line: string, origin: Origin, now: string)
    ensures forall k :: k in Merge(snapshot, f, line, origin, now) <==> k in snapshot || IsFixKey(f, k) || IsStampKey(k)
  {
  }

  /**
   * A property the earlier fix wrote and the later fix does not have keeps
   * the earlier fix's value: the kinds of sentence combine.
   */
  lemma EarlierFieldSurvives(snapshot: Snapshot, f1: Fix, line1: string, now1: string,
                             f2: Fix, line2: string, now2: string, origin: Origin, k: Key)
    requires IsFixKey(f1, k) && !IsFixKey(f2, k)
    ensures var r := Merge(Merge(snapshot, f1, line1, origin, now1), f2, line2, origin, now2);
      k in r && r[k] == FieldValue(f1, k)
  {
    MergeWrites(snapshot, f1, line1, origin, now1, k);
    MergeKeeps(Merge(snapshot, f1, line1, origin, now1), f2, line2, origin, now2, k);
  }

  /**
   * Merging a VTG fix after a GGA fix keeps the GGA position and altitude
   * and adds the VTG course and speeds; `type` becomes `VTG`.
   */
  lemma VtgAfterGga(snapshot: Snapshot, g: Fix, line1: string, now1: string,
                    v: Fix, line2: string, now2: string, origin: Origin)
    requires g.Gga? && v.Vtg?
    ensures var r := Merge(Merge(snapshot, g, line1, origin, now1), v, line2, origin, now2);
      && Lat in r && r[Lat] == Num(Finite(g.lat)) && Lon in r && r[Lon] == Num(Finite(g.lon))
      && Altitude in r && r[Altitude] == Num(g.altitude)
      && CourseTrue in r && r[CourseTrue] == Num(v.courseTrue)
      && Type in r && r[Type] == Text("VTG") && Raw in r && r[Raw] == Text(line2)
  {
    var s1 := Merge(snapshot, g, line1, origin, now1);
    EarlierFieldSurvives(snapshot, g, line1, now1, v, line2, now2, origin, Lat);
    EarlierFieldSurvives(snapshot, g, line1, now1, v, line2, now2, origin, Lon);
    EarlierFieldSurvives(snapshot, g, line1, now1, v, line2, now2, origin, Altitude);
    MergeWrites(s1, v, line2, origin, now2, CourseTrue);
    MergeWrites(s1, v, line2, origin, now2, Type);
    MergeStamps(s1, v, line2, origin, now2);
  }

  /** The line `\r?\n` left: one carriage return before the newline is dropped. */
  function DropCR(p: string): (r: string)
    ensures p != [] && p[|p| - 1] == '\r' ==> r == p[..|p| - 1]
    ensures r == p || r + "\r" == p
    ensures '\n' in r ==> '\n' in p
  {
    if p != [] && p[|p| - 1] == '\r' then p[..|p| - 1] else p
  }

  /** `data.split(/\r?\n/)`. */
  function SplitLines(data: string): (r: seq<string>)
    ensures |r| >= 1
    ensures forall i :: 0 <= i < |r| ==> '\n' !in r[i]
  {
    var pieces := Split(data, '\n');
    seq(|pieces|, i requires 0 <= i < |pieces| =>
      if i < |pieces| - 1 then DropCR(pieces[i]) else pieces[i])
  }

  /** Without carriage returns the lines are the newline-separated pieces, and joining them gives the data back. */
  lemma SplitLinesPlain(data: string)
    requires '\r' !in data
    ensures SplitLines(data) == Split(data, '\n')
    ensures Join(SplitLines(data), "\n") == data
  {
    var pieces := Split(data, '\n');
    forall i | 0 <= i < |pieces|
      ensures SplitLines(data)[i] == pieces[i]
    {
      if pieces[i] != [] {
        JoinHolds(pieces, "\n", i);
        assert pieces[i][|pieces[i]| - 1] in pieces[i];
      }
    }
  }

  /** A character of a piece is a character of the joined text. */
  lemma {:induction false} JoinHolds(fs: seq<string>, sep: string, i: nat)
    requires i < |fs|
    ensures forall c :: c in fs[i] ==> c in Join(fs, sep)
  {
    if |fs| > 1 {
      if i > 0 {
        JoinHolds(fs[1..], sep, i - 1);
      }
    }
  }

  /** `filter(s => s.trim())`: the non-blank lines, in order. */
  function NonBlank(lines: seq<string>): (r: seq<string>)
    ensures |r| <= |lines|
    ensures forall x :: x in r ==> x in lines && Trim(x) != ""
  {
    if lines == [] then []
    else if Trim(lines[|lines| - 1]) != "" then NonBlank(lines[..|lines| - 1]) + [lines[|lines| - 1]]
    else NonBlank(lines[..|lines| - 1])
  }

  /** The filter keeps every non-blank line: with the function's own contract, a line survives exactly when it is not blank. */
  lemma {:induction false} NonBlankKeeps(lines: seq<string>, x: string)
    requires x in lines && Trim(x) != ""
    ensures x in NonBlank(lines)
  {
    var last := lines[|lines| - 1];
    if x != last || Trim(last) == "" {
      assert x in lines[..|lines| - 1] by {
        assert lines == lines[..|lines| - 1] + [last];
      }
      NonBlankKeeps(lines[..|lines| - 1], x);
    }
  }

  /** Filtering two runs of lines is filtering each, in order. */
  lemma {:induction false} NonBlankAppend(a: seq<string>, b: seq<string>)
    ensures NonBlank(a + b) == NonBlank(a) + NonBlank(b)
  {
    if b == [] {
      assert a + b == a;
    } else {
      var b' := b[..|b| - 1];
      assert (a + b)[..|a + b| - 1] == a + b';
      assert (a + b)[|a + b| - 1] == b[|b| - 1];
      NonBlankAppend(a, b');
    }
  }

  /** Lines that are all non-blank pass the filter unchanged. */
  lemma {:induction false} NonBlankAll(lines: seq<string>)
    requires forall i :: 0 <= i < |lines| ==> Trim(lines[i]) != ""
    ensures NonBlank(lines) == lines
  {
    if lines != [] {
      NonBlankAll(lines[..|lines| - 1]);
      assert lines[..|lines| - 1] + [lines[|lines| - 1]] == lines;
    }
  }

  /** A sentence as a sender writes it on a line of its own: not empty, no newline, and no white space at either end. */
  predicate Clean(s: string) {
    s != "" && '\n' !in s && !IsJsSpace(s[0]) && !IsJsSpace(s[|s| - 1])
  }

  /** The lines a datagram is processed as, in payload order. */
  function Lines(payload: string): (r: seq<string>)
    ensures forall x :: x in r ==> Trim(x) != "" && '\n' !in x
  {
    NonBlank(SplitLines(Trim(payload)))
  }

  /** Clean sentences joined with newlines come back as exactly those sentences, in order. */
  lemma LinesOfJoin(ls: seq<string>)
    requires ls != [] && forall i :: 0 <= i < |ls| ==> Clean(ls[i])
    ensures Lines(Join(ls, "\n")) == ls
  {
    JoinTrimmed(ls);
    SplitLinesOfJoin(ls);
    CleanNonBlank(ls);
  }

  /** Text that starts and ends with a clean sentence is its own trim. */
  lemma JoinTrimmed(ls: seq<string>)
    requires ls != [] && forall i :: 0 <= i < |ls| ==> Clean(ls[i])
    ensures Trim(Join(ls, "\n")) == Join(ls, "\n")
  {
    assert Clean(ls[0]) && Clean(ls[|ls| - 1]);
    JoinHead(ls, "\n");
    JoinTail(ls, "\n");
    TrimUnchanged(Join(ls, "\n"));
  }

  /** No clean sentence ends in a carriage return, so the line split gives the sentences back. */
  lemma SplitLinesOfJoin(ls: seq<string>)
    requires ls != [] && forall i :: 0 <= i < |ls| ==> Clean(ls[i])
    ensures SplitLines(Join(ls, "\n")) == ls
  {
    SplitJoin(ls, '\n');
    forall i | 0 <= i < |ls|
      ensures DropCR(ls[i]) == ls[i]
    {
      assert Clean(ls[i]) && IsJsSpace('\r');
    }
  }

  /** Clean sentences all pass the blank-line filter. */
  lemma CleanNonBlank(ls: seq<string>)
    requires forall i :: 0 <= i < |ls| ==> Clean(ls[i])
    ensures NonBlank(ls) == ls
  {
    forall i | 0 <= i < |ls|
      ensures Trim(ls[i]) != ""
    {
      assert Clean(ls[i]);
      TrimUnchanged(ls[i]);
    }
    NonBlankAll(ls);
  }

  /** The sentences with the `\r` of a CRLF ending put back on every one but the last. */
  function WithCR(ls: seq<string>): (r: seq<string>)
    ensures |r| == |ls|
    ensures forall i :: 0 <= i < |ls| - 1 ==> r[i] == ls[i] + "\r"
    ensures ls != [] ==> r[|ls| - 1] == ls[|ls| - 1]
  {
    seq(|ls|, i requires 0 <= i < |ls| => if i < |ls| - 1 then ls[i] + "\r" else ls[i])
  }

  /** Joining with CRLF is joining, with a newline, the sentences that carry their `\r`. */
  lemma {:induction false} JoinCRLF(ls: seq<string>)
    requires ls != []
    ensures Join(ls, "\r\n") == Join(WithCR(ls), "\n")
  {
    if |ls| > 1 {
      JoinCRLF(ls[1..]);
      assert WithCR(ls)[1..] == WithCR(ls[1..]);
      assert ls[0] + "\r\n" == ls[0] + "\r" + "\n";
    }
  }

  /** Clean sentences joined with CRLF split back, at the newlines, into exactly those sentences. */
  lemma SplitLinesOfCRLF(ls: seq<string>)
    requires ls != [] && forall i :: 0 <= i < |ls| ==> Clean(ls[i])
    ensures SplitLines(Join(ls, "\r\n")) == ls
  {
    var data, ps := Join(ls, "\r\n"), WithCR(ls);
    assert Split(data, '\n') == ps by {
      JoinCRLF(ls);
      WithCRSplits(ls);
    }
    SplitLinesOfPieces(data, ls);
  }

  /** Pieces that are the sentences with their `\r` give back the sentences. */
  lemma SplitLinesOfPieces(data: string, ls: seq<string>)
    requires ls != [] && Split(data, '\n') == WithCR(ls)
    ensures SplitLines(data) == ls
  {
    var ps := WithCR(ls);
    SplitLinesPieces(data);
    forall i | 0 <= i < |ls|
      ensures SplitLines(data)[i] == ls[i]
    {
      if i < |ls| - 1 {
        assert ps[i][..|ps[i]| - 1] == ls[i];
      }
    }
  }

  /** The lines are the newline pieces, each but the last without a final `\r`. */
  lemma SplitLinesPieces(data: string)
    ensures var ps := Split(data, '\n');
      && |SplitLines(data)| == |ps|
      && (forall i :: 0 <= i < |ps| - 1 ==> SplitLines(data)[i] == DropCR(ps[i]))
      && SplitLines(data)[|ps| - 1] == ps[|ps| - 1]
  {
  }

  /** No piece of `WithCR` holds a newline, so splitting their newline join gives them back. */
  lemma WithCRSplits(ls: seq<string>)
    requires ls != [] && forall i :: 0 <= i < |ls| ==> Clean(ls[i])
    ensures Split(Join(WithCR(ls), "\n"), '\n') == WithCR(ls)
  {
    var ps := WithCR(ls);
    forall i | 0 <= i < |ps|
      ensures '\n' !in ps[i]
    {
      assert Clean(ls[i]);
    }
    SplitJoin(ps, '\n');
  }

  /**
   * Sentences sent as NMEA 0183 frames them, each ending in CRLF, are
   * processed as exactly those sentences, in order: the trim takes the
   * final CRLF and the split the `\r` before every newline.
   */
  lemma LinesOfCRLF(ls: seq<string>)
    requires ls != [] && forall i :: 0 <= i < |ls| ==> Clean(ls[i])
    ensures Lines(Join(ls, "\r\n")) == ls
    ensures Lines(Join(ls, "\r\n") + "\r\n") == ls
  {
    var s := Join(ls, "\r\n");
    assert Clean(ls[0]) && Clean(ls[|ls| - 1]);
    JoinHead(ls, "\r\n");
    JoinTail(ls, "\r\n");
    TrimUnchanged(s);
    TrimLineEnd(s);
    SplitLinesOfCRLF(ls);
    CleanNonBlank(ls);
  }

  /** The trim removes a CRLF after text that ends in a character other than white space. */
  lemma TrimLineEnd(s: string)
    requires s != [] && !IsJsSpace(s[0]) && !IsJsSpace(s[|s| - 1])
    ensures Trim(s + "\r\n") == s
  {
    var t := s + "\r\n";
    assert TrimStart(t) == t;
    assert t[..|t| - 1] == s + "\r";
    assert (s + "\r")[..|s|] == s;
    assert TrimEnd(s) == s;
  }

  /** The fix a line yields: only lines that start with `$` are parsed. */
  function Accept(line: string, now: string): Option<Fix> {
    if StartsWith(line, "$") then ParseNmea(line, now) else None
  }

  /** One line: an accepted line is merged; any other line changes nothing (`None`). */
  function Step(snapshot: Snapshot, line: string, origin: Origin, now: string): (r: Option<Snapshot>)
    ensures r.Some? <==> Accept(line, now).Some?
    ensures r.Some? ==> r.value == Merge(snapshot, Accept(line, now).value, line, origin, now)
  {
    match Accept(line, now)
    case Some(f) => Some(Merge(snapshot, f, line, origin, now))
    case None => None
  }

  /** The line handler of one pipeline at instant `now`. */
  function StepOf(origin: Origin, now: string): (Snapshot, string) -> Option<Snapshot> {
    (snapshot: Snapshot, line: string) => Step(snapshot, line, origin, now)
  }

  /**
   * The snapshot after a run of lines, each handled by `step`; a line the
   * handler refuses (`None`) leaves the snapshot as it was.
   */
  function Replay(snapshot: Snapshot, lines: seq<string>, step: (Snapshot, string) -> Option<Snapshot>): Snapshot {
    if lines == [] then snapshot
    else
      var before := Replay(snapshot, lines[..|lines| - 1], step);
      match step(before, lines[|lines| - 1])
      case Some(after) => after
      case None => before
  }

  /** The snapshots a run of lines broadcasts, one per line the handler takes, in order. */
  function Updates(snapshot: Snapshot, lines: seq<string>, step: (Snapshot, string) -> Option<Snapshot>): seq<Snapshot> {
    if lines == [] then []
    else
      var init := lines[..|lines| - 1];
      Updates(snapshot, init, step)
        + match step(Replay(snapshot, init, step), lines[|lines| - 1])
          case Some(after) => [after]
          case None => []
  }

  /**
   * Lines are processed one after another: a run split in two is the first
   * part followed by the second from where the first left off. So a line
   * that fails does not stop the lines after it.
   */
  lemma {:induction false} ReplayAppend(snapshot: Snapshot, a: seq<string>, b: seq<string>,
                                        step: (Snapshot, string) -> Option<Snapshot>)
    ensures Replay(snapshot, a + b, step) == Replay(Replay(snapshot, a, step), b, step)
    ensures Updates(snapshot, a + b, step) == Updates(snapshot, a, step) + Updates(Replay(snapshot, a, step), b, step)
  {
    if b == [] {
      assert a + b == a;
    } else {
      var b' := b[..|b| - 1];
      assert (a + b)[..|a + b| - 1] == a + b';
      assert (a + b)[|a + b| - 1] == b[|b| - 1];
      ReplayAppend(snapshot, a, b', step);
    }
  }

  /** One more line: the handler applied to where the run so far left off. */
  lemma ReplayStepped(snapshot: Snapshot, lines: seq<string>, i: nat, step: (Snapshot, string) -> Option<Snapshot>,
                      before: Snapshot, after: Snapshot)
    requires i < |lines| && before == Replay(snapshot, lines[..i], step)
    requires step(before, lines[i]).Some? ==> after == step(before, lines[i]).value
    requires step(before, lines[i]).None? ==> after == before
    ensures after == Replay(snapshot, lines[..i + 1], step)
    ensures Updates(snapshot, lines[..i + 1], step)
         == Updates(snapshot, lines[..i], step) + if step(before, lines[i]).Some? then [after] else []
  {
    assert lines[..i + 1][..i] == lines[..i];
  }

  /** A line that is not merged leaves the snapshot alone and broadcasts nothing. */
  lemma SkippedLine(snapshot: Snapshot, line: string, origin: Origin, now: string)
    requires !StartsWith(line, "$") || ParseNmea(line, now).None?
    ensures Replay(snapshot, [line], StepOf(origin, now)) == snapshot
    ensures Updates(snapshot, [line], StepOf(origin, now)) == []
  {
    assert [line][..0] == [];
  }

  /** Two lines the handler both takes: each result is broadcast, and the second becomes the snapshot. */
  lemma ReplayTwo(snapshot: Snapshot, a: string, b: string, step: (Snapshot, string) -> Option<Snapshot>)
    requires step(snapshot, a).Some? && step(step(snapshot, a).value, b).Some?
    ensures var m1 := step(snapshot, a).value;
      var m2 := step(m1, b).value;
      Replay(snapshot, [a, b], step) == m2 && Updates(snapshot, [a, b], step) == [m1, m2]
  {
    var m1 := step(snapshot, a).value;
    assert Replay(snapshot, [a], step) == m1 && Updates(snapshot, [a], step) == [m1] by {
      ReplayOne(snapshot, a, step);
    }
    assert [a, b][..1] == [a];
  }

  /** One line the handler takes: its result is the snapshot and the one broadcast. */
  lemma ReplayOne(snapshot: Snapshot, line: string, step: (Snapshot, string) -> Option<Snapshot>)
    requires step(snapshot, line).Some?
    ensures Replay(snapshot, [line], step) == step(snapshot, line).value
    ensures Updates(snapshot, [line], step) == [step(snapshot, line).value]
  {
    assert [line][..0] == [];
  }

  /** A line that is merged becomes the snapshot and is broadcast once. */
  lemma MergedLine(snapshot: Snapshot, line: string, origin: Origin, now: string)
    requires StartsWith(line, "$") && ParseNmea(line, now).Some?
    ensures var m := Merge(snapshot, ParseNmea(line, now).value, line, origin, now);
      Replay(snapshot, [line], StepOf(origin, now)) == m && Updates(snapshot, [line], StepOf(origin, now)) == [m]
  {
    assert StepOf(origin, now)(snapshot, line) == Step(snapshot, line, origin, now);
    ReplayOne(snapshot, line, StepOf(origin, now));
  }

  /**
   * A datagram of two sentences on two lines: both are merged, the first
   * before the second, and each resulting snapshot is broadcast.
   */
  lemma TwoSentences(snapshot: Snapshot, s1: string, s2: string, origin: Origin, now: string)
    requires Clean(s1) && Clean(s2)
    requires Accept(s1, now).Some? && Accept(s2, now).Some?
    ensures var m1 := Merge(snapshot, Accept(s1, now).value, s1, origin, now);
      var m2 := Merge(m1, Accept(s2, now).value, s2, origin, now);
      Lines(s1 + "\n" + s2) == [s1, s2]
      && Replay(snapshot, Lines(s1 + "\n" + s2), StepOf(origin, now)) == m2
      && Updates(snapshot, Lines(s1 + "\n" + s2), StepOf(origin, now)) == [m1, m2]
  {
    LinesOfTwo(s1, s2);
    var m1 := Merge(snapshot, Accept(s1, now).value, s1, origin, now);
    StepMerges(snapshot, s1, origin, now);
    StepMerges(m1, s2, origin, now);
    ReplayTwo(snapshot, s1, s2, StepOf(origin, now));
  }

  /** Two clean sentences on two lines are processed as those two lines. */
  lemma LinesOfTwo(s1: string, s2: string)
    requires Clean(s1) && Clean(s2)
    ensures Lines(s1 + "\n" + s2) == [s1, s2]
  {
    assert Join([s1, s2], "\n") == s1 + "\n" + s2 by {
      assert [s1, s2][1..] == [s2];
    }
    LinesOfJoin([s1, s2]);
  }

  /** The handler takes an accepted line and answers with the merge. */
  lemma StepMerges(snapshot: Snapshot, line: string, origin: Origin, now: string)
    requires Accept(line, now).Some?
    ensures StepOf(origin, now)(snapshot, line) == Some(Merge(snapshot, Accept(line, now).value, line, origin, now))
  {
    assert StepOf(origin, now)(snapshot, line) == Step(snapshot, line, origin, now);
  }

  /** No property is ever removed, and every broadcast snapshot carries this pipeline's origin. */
  lemma {:induction false} ReplayKeeps(snapshot: Snapshot, lines: seq<string>, origin: Origin, now: string)
    ensures snapshot.Keys <= Replay(snapshot, lines, StepOf(origin, now)).Keys
    ensures forall u :: u in Updates(snapshot, lines, StepOf(origin, now)) ==>
      Source in u && u[Source] == Text(origin.source) && Vehicle in u && u[Vehicle] == Text(origin.vehicle)
  {
    if lines != [] {
      var step := StepOf(origin, now);
      var init := lines[..|lines| - 1];
      var line := lines[|lines| - 1];
      ReplayKeeps(snapshot, init, origin, now);
      var before := Replay(snapshot, init, step);
      assert step(before, line) == Step(before, line, origin, now);
      if Accept(line, now).Some? {
        MergeKeys(before, Accept(line, now).value, line, origin, now);
        MergeStamps(before, Accept(line, now).value, line, origin, now);
      }
    }
  }

  /** The last snapshot broadcast is the snapshot the run leaves. */
  lemma {:induction false} LastUpdate(snapshot: Snapshot, lines: seq<string>, step: (Snapshot, string) -> Option<Snapshot>)
    requires Updates(snapshot, lines, step) != []
    ensures var us := Updates(snapshot, lines, step);
      us[|us| - 1] == Replay(snapshot, lines, step)
  {
    var init := lines[..|lines| - 1];
    if step(Replay(snapshot, init, step), lines[|lines| - 1]).None? {
      LastUpdate(snapshot, init, step);
    }
  }

  /** What a run of broadcasts sends: each update to every OPEN client, update after update. */
  ghost function Sends(clients: seq<Socket>, updates: seq<Snapshot>): seq<Delivery<Snapshot>>
    reads clients
  {
    if updates == [] then []
    else Sends(clients, updates[..|updates| - 1]) + Fanout(clients, updates[|updates| - 1])
  }

  /** Broadcasting one more update sends it after all the earlier ones. */
  lemma SendsAppend(clients: seq<Socket>, updates: seq<Snapshot>, u: Snapshot)
    ensures Sends(clients, updates + [u]) == Sends(clients, updates) + Fanout(clients, u)
  {
    assert (updates + [u])[..|updates|] == updates;
  }

  /** Regrouping a concatenation, kept apart so that the loop in `OnLines` stays cheap to check. */
  lemma SeqAssoc<T>(a: seq<T>, b: seq<T>, c: seq<T>)
    ensures a + b + c == a + (b + c)
  {
  }

  /** One pipeline: the ship's or the ROV's snapshot and its WebSocket clients. */
  class Channel {
    const origin: Origin
    var snapshot: Snapshot
    const hub: Registry<Snapshot>

    ghost predicate Valid()
      reads this, hub
    {
      hub.Valid()
    }

    /** A pipeline with an empty snapshot `{}` and no clients. */
    constructor (origin: Origin)
      ensures Valid() && fresh(hub)
      ensures this.origin == origin && snapshot == map[] && hub.clients == [] && hub.sent == []
    {
      this.origin := origin;
      snapshot := map[];
      hub := new Registry();
    }

    /** The UDP `message` handler: every line of the datagram, in order, merged and broadcast. */
    method OnDatagram(payload: string, now: string)
      requires Valid()
      modifies this, hub
      ensures Valid() && hub.clients == old(hub.clients)
      ensures snapshot == Replay(old(snapshot), Lines(payload), StepOf(origin, now))
      ensures hub.sent == old(hub.sent) + Sends(hub.clients, Updates(old(snapshot), Lines(payload), StepOf(origin, now)))
    {
      var lines := Lines(payload);
      OnLines(lines, now);
    }

    /** The `forEach` over the lines of one datagram. */
    method OnLines(lines: seq<string>, now: string)
      requires Valid()
      modifies this, hub
      ensures Valid() && hub.clients == old(hub.clients)
      ensures snapshot == Replay(old(snapshot), lines, StepOf(origin, now))
      ensures hub.sent == old(hub.sent) + Sends(hub.clients, Updates(old(snapshot), lines, StepOf(origin, now)))
    {
      var i := 0;
      while i < |lines|
        invariant 0 <= i <= |lines|
        invariant Valid() && hub.clients == old(hub.clients)
        invariant snapshot == Replay(old(snapshot), lines[..i], StepOf(origin, now))
        invariant hub.sent == old(hub.sent) + Sends(hub.clients, Updates(old(snapshot), lines[..i], StepOf(origin, now)))
      {
        ghost var updates := Updates(old(snapshot), lines[..i], StepOf(origin, now));
        ghost var sends := Sends(hub.clients, updates);
        ghost var before := snapshot;
        OnLine(lines[i], now);
        assert sends == Sends(hub.clients, updates);
        ReplayStepped(old(snapshot), lines, i, StepOf(origin, now), before, snapshot);
        if StepOf(origin, now)(before, lines[i]).Some? {
          SendsAppend(hub.clients, updates, snapshot);
          SeqAssoc(old(hub.sent), sends, Fanout(hub.clients, snapshot));
        } else {
          assert updates + [] == updates;
        }
        i := i + 1;
      }
      assert lines[..i] == lines;
    }

    /** One sentence: when it starts with `$` and parses, it is merged and the new snapshot broadcast. */
    method OnLine(line: string, now: string)
      requires Valid()
      modifies this, hub
      ensures Valid() && hub.clients == old(hub.clients)
      ensures StepOf(origin, now)(old(snapshot), line).Some? ==>
        snapshot == StepOf(origin, now)(old(snapshot), line).value && hub.sent == old(hub.sent) + Fanout(hub.clients, snapshot)
      ensures StepOf(origin, now)(old(snapshot), line).None? ==> snapshot == old(snapshot) && hub.sent == old(hub.sent)
    {
      ghost var result := StepOf(origin, now)(snapshot, line);
      assert result == Step(snapshot, line, origin, now);
      if StartsWith(line, "$") {
        var parsed := ParseNmea(line, now);
        if parsed.Some? {
          snapshot := Merge(snapshot, parsed.value, line, origin, now);
          assert result == Some(snapshot);
          hub.Broadcast(snapshot);
        } else {
          assert result == None;
        }
      } else {
        assert result == None;
      }
    }

    /** The WebSocket `connection` handler: the client joins and gets the snapshot if it has any property. */
    method Connect(ws: Socket)
      requires Valid()
      modifies hub
      ensures Valid() && snapshot == old(snapshot)
      ensures hub.clients == if ws in old(hub.clients) then old(hub.clients) else old(hub.clients) + [ws]
      ensures hub.sent == old(hub.sent) + if |snapshot| > 0 then [Delivery(ws, snapshot)] else []
    {
      hub.Add(ws);
      if |snapshot| > 0 {
        hub.Send(ws, snapshot);
      }
    }

    /** The `close` and `error` handlers: the client leaves; leaving twice is leaving once. */
    method Disconnect(ws: Socket)
      requires Valid()
      modifies hub
      ensures Valid() && snapshot == old(snapshot) && hub.sent == old(hub.sent)
      ensures hub.clients == Without(old(hub.clients), ws)
    {
      hub.Remove(ws);
    }
  }
}
