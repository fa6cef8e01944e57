# mapLibre-rov servers, modelled in Dafny

A model of the three Node.js services behind the mapLibre-rov map viewer, and
of the ROV position simulator that feeds one of them:

- **The GPS server** (`gps-server/server.js`). Two UDP listeners take NMEA 0183
  text from the ship and from the ROV. Each datagram is trimmed, split on
  `\r?\n`, and its blank lines are dropped. Every line that starts with `$`
  and that `parseNMEA` accepts is object-spread into a running snapshot,
  stamped with the raw line, the source, the vehicle and the receive instant.
  The new snapshot is then sent to every OPEN WebSocket client of that
  source. A client that connects gets the snapshot at once when it has any
  property.
  - `nmea.dfy` holds `parseNMEA` and `parseCoordinate`.
  - `gps_server.dfy` holds the merge and the per-source pipeline. The
    pipeline is one class parameterised by its `(source, vehicle)` origin:
    the ship handler (lines 121-157) and the ROV handler (lines 160-196) are
    the same code with different constants.
- **The ROV simulator** (`gps-server/test-moving-rov.js`), in
  `rov_simulator.dfy`. It writes an RMC sentence with an XOR checksum, the
  DDMM.MMMM / DDDMM.MMMM coordinates, the hemisphere letters and the HHMMSS
  and DDMMYY fields. The proofs connect it to the server's parser:
  - the simulator's sentence is always accepted as an RMC fix;
  - the fix carries the simulator's time, date, speed and course;
  - its position lies within 1/1200000 of a degree of the simulated one.
- **The ADCP server** (`adcp-server/server.js`), in `adcp_server.dfy`. It is a
  latest-value cache with a client set. The output of a query script becomes
  the latest value and is broadcast, but only after a clean exit, a
  non-empty output, a successful `JSON.parse` and a log line that does not
  throw. That log line throws on `null`, and on a `vectors.length` that
  cannot be turned into text.
- **The static file server** (`server.js`), in `static_server.dfy`. It serves
  the directory listing of `layers`, reads files under the served directory
  behind a path check, picks the content type by lower-cased extension and
  sets the cache headers. Its `clientError` handler is modelled too.

The shared pieces are:

- `subscribers.dfy`: a JavaScript `Set` of sockets, as an insertion-ordered
  sequence without repeats, plus a ghost log of what was sent.
- `js_text.dfy` and `js_number.dfy`: the JavaScript string and number
  conversions the code relies on, over exact integers and reals.
- `node_path.dfy`: `path.join`, `path.normalize` and `path.extname` for
  POSIX paths.
- `wrappers.dfy`: `Option`.

Where the code is looser than what it follows or says, the model follows the code:

- An NMEA 0183 address field is `$`, a two-letter talker identifier and a
  three-letter sentence formatter. `parseNMEA` checks only that the first
  field ends in `GGA`, `RMC` or `VTG` (gps-server/server.js:36, 59 and 84),
  so `$GGA`, `XYZGGA` and a longer prefix are all accepted.
- The ADCP `connection` handler sends the latest value "if available", per
  its own comment, but tests it for JavaScript truthiness
  (adcp-server/server.js:18-19). So a latest value of `0`, `false` or `""`
  is not sent.

I/O is replaced by parameters:

- the clock reading (`now`) and the UTC clock of the simulator;
- `JSON.parse`, a function that gives `None` when it throws;
- `fs.readdir` and `fs.readFile`, the results their callbacks receive;
- the served directory `__dirname`;
- the socket's `writable` flag and the error `code`.

## Model

| member | source | states |
|---|---|---|
| Nmea.Fields | gps-server/server.js:32 | the trimmed sentence always splits into at least one comma field |
| Nmea.MinutesInRange | gps-server/server.js:108-110 | the minutes taken from a DDMM value lie in [0, 100) |
| Nmea.DdmmSplit | gps-server/server.js:108-117 | for `v = 100*d + m` with whole `d` and `m` in [0, 100), the decoder gives `d + m/60`, negated for S and W |
| Nmea.ParseCoordinate | gps-server/server.js:105-118 | NaN exactly when the coordinate or the direction is missing or empty, or the coordinate does not read as a finite number; otherwise the DDMM decoding with the S/W sign |
| Nmea.ParseNmea | gps-server/server.js:30-102 | an accepted fix carries the parse instant as its timestamp |
| Nmea.KindsExclusive | gps-server/server.js:36-84 | no first field ends in two of `GGA`, `RMC`, `VTG`, so at most one branch applies |
| Nmea.ParseGga | gps-server/server.js:36-56 | a GGA sentence gives a fix exactly when both coordinates are finite, with time, position, quality, satellites and altitude from parts 1-7 and 9 |
| Nmea.ParseRmc | gps-server/server.js:59-81 | an RMC sentence gives a fix exactly when part 2 is `A` and both coordinates are finite, with time, date, position, speed and course from their parts |
| Nmea.ParseVtg | gps-server/server.js:84-96 | a VTG sentence always gives a fix, with course and both speeds, NaN included |
| Nmea.ParseKind | gps-server/server.js:30-102 | any other first field gives `null`; a fix's kind is the suffix of the first field, in both directions |
| Nmea.FixCoordinates | gps-server/server.js:37-68 | an accepted GGA or RMC fix has the coordinates decoded from its non-empty coordinate and direction fields |
| GpsServer.FixFields | gps-server/server.js:45-95 | the properties of the parsed object: exactly those of its kind, with `type` and `timestamp` set |
| GpsServer.Stamp | gps-server/server.js:139-142 | the stamp has exactly `raw`, `source`, `vehicle` and `receivedAt`, with the line, the origin and the instant |
| GpsServer.MergeIsSpread | gps-server/server.js:136-143 | the merge is the spread of the old snapshot, then the fix, then the stamp |
| GpsServer.MergeWrites | gps-server/server.js:136-143 | a property the fix has takes the fix's value |
| GpsServer.MergeKeeps | gps-server/server.js:136-143 | a property that neither the fix nor the stamp has keeps its old value |
| GpsServer.MergeStamps | gps-server/server.js:139-142 | the stamp's properties are always written with the line, the origin and the instant |
| GpsServer.MergeKeys | gps-server/server.js:136-143 | no property is removed, and the only new ones are the fix's and the stamp's |
| GpsServer.EarlierFieldSurvives | gps-server/server.js:135-143 | a property an earlier fix wrote and a later fix lacks keeps the earlier value, so the sentence kinds combine |
| GpsServer.VtgAfterGga | gps-server/server.js:135-143 | a VTG after a GGA keeps the GGA position and altitude, adds course and speeds, and sets `type` to `VTG` |
| GpsServer.DropCR | gps-server/server.js:126 | a final `\r` is removed and nothing else changes: the result is the piece itself or the piece without that `\r`, so it never gains a newline |
| GpsServer.SplitLines | gps-server/server.js:126 | the `\r?\n` split gives at least one line and no line holds a newline |
| GpsServer.SplitLinesPlain | gps-server/server.js:126 | without carriage returns the lines are the newline pieces, and joining them gives the data back |
| GpsServer.NonBlank | gps-server/server.js:126 | the filter keeps, in order, only lines of the input whose trim is non-empty |
| GpsServer.NonBlankKeeps | gps-server/server.js:126 | every line whose trim is non-empty survives the filter, so with the function's contract a line survives exactly when it is not blank |
| GpsServer.NonBlankAppend | gps-server/server.js:126 | filtering two runs of lines is filtering each, in order |
| GpsServer.NonBlankAll | gps-server/server.js:126 | lines that are all non-blank pass the filter unchanged |
| GpsServer.Lines | gps-server/server.js:122-126 | every line a datagram is processed as is non-blank and holds no newline |
| GpsServer.SplitLinesOfJoin | gps-server/server.js:126 | clean sentences joined with newlines split back into exactly those sentences |
| GpsServer.JoinCRLF | gps-server/server.js:126 | joining with CRLF is joining, with a newline, the sentences that carry their `\r` |
| GpsServer.SplitLinesOfCRLF | gps-server/server.js:126 | clean sentences joined with CRLF split back into exactly those sentences, so `\r?\n` handles CRLF |
| GpsServer.TrimLineEnd | gps-server/server.js:122 | the trim removes the final CRLF after a sentence |
| GpsServer.LinesOfCRLF | gps-server/server.js:122-126 | a datagram of clean sentences each ending in CRLF, as NMEA 0183 frames them, is processed as exactly those sentences, in order, with or without the last CRLF |
| GpsServer.LinesOfJoin | gps-server/server.js:122-126 | a datagram of clean sentences joined with newlines is processed as exactly those sentences, in order |
| GpsServer.LinesOfTwo | gps-server/server.js:122-126 | two clean sentences on two lines are processed as exactly those two lines, in order |
| GpsServer.ReplayAppend | gps-server/server.js:128-156 | processing lines in two runs equals processing them in one, so a line that fails does not stop the lines after it |
| GpsServer.SkippedLine | gps-server/server.js:129-133 | a line that is not merged leaves the snapshot alone and broadcasts nothing |
| GpsServer.ReplayOne | gps-server/server.js:128-156 | a line the handler takes becomes the snapshot and is the one broadcast |
| GpsServer.ReplayTwo | gps-server/server.js:128-156 | two lines the handler takes are broadcast in order, and the second result is the snapshot |
| GpsServer.MergedLine | gps-server/server.js:129-151 | a line that starts with `$` and parses is merged into the snapshot and broadcast once |
| GpsServer.TwoSentences | gps-server/server.js:121-157 | a datagram of two accepted sentences on two lines merges the first and then the second, and broadcasts both snapshots in that order |
| GpsServer.ReplayKeeps | gps-server/server.js:128-156 | no property is ever removed, and every broadcast snapshot carries its pipeline's source and vehicle |
| GpsServer.LastUpdate | gps-server/server.js:128-156 | the last snapshot broadcast for a datagram is the snapshot it leaves |
| GpsServer.SendsAppend | gps-server/server.js:146-151 | one more broadcast is sent after all the earlier ones |
| GpsServer.Channel.constructor | gps-server/server.js:22-27 | a source starts with the empty snapshot `{}` and no clients |
| GpsServer.Channel.OnDatagram | gps-server/server.js:121-157 | the new snapshot is the replay of the datagram's lines, and what is sent is each update to the OPEN clients, in order |
| GpsServer.Channel.OnLines | gps-server/server.js:128-156 | the `forEach` over the lines, proved against the replay by its loop invariant |
| GpsServer.Channel.OnLine | gps-server/server.js:129-154 | an accepted line replaces the snapshot by the merge and sends it to every OPEN client; any other line changes nothing |
| GpsServer.Channel.Connect | gps-server/server.js:217-224 | the client joins once, and gets the snapshot exactly when it has a property |
| GpsServer.Channel.Disconnect | gps-server/server.js:226-234 | `close` and `error` remove the client, leave the snapshot alone and send nothing |
| Subscribers.Without | adcp-server/server.js:40 | `delete` removes exactly the given client and keeps the others |
| Subscribers.WithoutAbsent | adcp-server/server.js:45 | deleting an absent client changes nothing |
| Subscribers.WithoutIdempotent | adcp-server/server.js:38-46 | a `close` after an `error`, which deletes twice, is the same as deleting once |
| Subscribers.WithoutDistinct | adcp-server/server.js:40 | the set stays without repeats |
| Subscribers.FanoutRecipients | adcp-server/server.js:54-58 | a broadcast delivers exactly the message, to exactly the OPEN clients |
| Subscribers.FanoutOnce | adcp-server/server.js:54-58 | no client gets the same broadcast twice |
| Subscribers.Registry.constructor | adcp-server/server.js:11 | an empty set, with nothing sent |
| Subscribers.Registry.Add | adcp-server/server.js:16 | `add` appends an absent client and otherwise changes nothing |
| Subscribers.Registry.Remove | adcp-server/server.js:40 | `delete` removes the client when present and is a no-op otherwise |
| Subscribers.Registry.Send | adcp-server/server.js:20 | one delivery to one client |
| Subscribers.Registry.Broadcast | adcp-server/server.js:54-58 | the loop sends the message to each OPEN client in set order, and the set is unchanged |
| AdcpServer.DefaultWindow | adcp-server/server.js:104-107 | the default query is the six hours (21 600 000 ms) up to now, over 0-25 m, from the WH300 |
| AdcpServer.DispatchQuery | adcp-server/server.js:24-36 | a message asks for a query exactly when it parses to an object with `type` `query`, and the query carries that object's four fields |
| AdcpServer.ConcatEmpty | adcp-server/server.js:75-79 | the script output is empty exactly when every stdout chunk is empty |
| AdcpServer.ConcatLength | adcp-server/server.js:75-79 | each chunk appears in the output in place, after the chunks before it |
| AdcpServer.Collect | adcp-server/server.js:75-79 | the buffer loop yields the chunks joined in arrival order |
| AdcpServer.ScriptCloseRule | adcp-server/server.js:75-97 | over the stdout chunks: a result exists exactly when the exit code is 0, some chunk is non-empty, `JSON.parse` of their concatenation succeeds with a value other than `null`, and the log line prints that value without throwing; the result is that value |
| AdcpServer.LogThrowsOn | adcp-server/server.js:89-93 | the log line throws on `null`, and on a `vectors.length` object that has its own `toString` key, so neither is broadcast |
| AdcpServer.LogPrints | adcp-server/server.js:89 | the log line prints any output other than `null` that is not an object, and any object whose `vectors` is missing or is not an object, such as an array of vectors |
| AdcpServer.Server.constructor | adcp-server/server.js:11-12 | the latest value is `null` and there are no clients |
| AdcpServer.Server.Broadcast | adcp-server/server.js:50-59 | the data becomes the latest value and is sent to every OPEN client |
| AdcpServer.Server.Connect | adcp-server/server.js:14-21 | the client joins, and gets the latest value exactly when it is truthy |
| AdcpServer.Server.Disconnect | adcp-server/server.js:38-46 | `close` and `error` remove the client and send nothing |
| AdcpServer.Server.OnScriptClose | adcp-server/server.js:85-97 | an accepted script result is broadcast as the latest value; any other outcome changes nothing, and an output on which the log line throws (`null`, or an unprintable `vectors.length`) is not broadcast |
| AdcpServer.ConnectFirst | adcp-server/server.js:12-21 | a client that connects before any result is sent nothing, because the initial `null` is falsy |
| RovSimulator.CalculateChecksum | gps-server/test-moving-rov.js:14-20 | the loop walks the UTF-16 code units, as `length` and `charCodeAt` do, and computes the XOR of those from index 1 on, in upper-case hexadecimal padded to two places |
| RovSimulator.UnitsCode | gps-server/test-moving-rov.js:17 | a character's contribution is the XOR of its one or two code units |
| RovSimulator.XorUnitsCodes | gps-server/test-moving-rov.js:16-18 | folding every code unit of a string is folding the contributions of its characters |
| RovSimulator.FoldedFront | gps-server/test-moving-rov.js:16 | starting at index 1 skips only the first code unit: a surrogate pair's low half is still folded |
| RovSimulator.CodeZero | gps-server/test-moving-rov.js:17 | only the NUL character leaves the XOR unchanged |
| RovSimulator.ChecksumShort | gps-server/test-moving-rov.js:16-19 | text of JavaScript length at most one (one code unit) has checksum `00` |
| RovSimulator.AstralChecksum | gps-server/test-moving-rov.js:16-19 | a lone character beyond the Basic Multilingual Plane has length two, so the loop folds its non-zero low surrogate and the checksum is not `00` |
| RovSimulator.XorAscii | gps-server/test-moving-rov.js:15-18 | the XOR of ASCII codes stays below 128 |
| RovSimulator.ShowHexByte | gps-server/test-moving-rov.js:19 | a value below 256 has at most two hexadecimal digits |
| RovSimulator.HexByte | gps-server/test-moving-rov.js:19 | a byte padded to two hexadecimal digits reads back as itself |
| RovSimulator.ChecksumAscii | gps-server/test-moving-rov.js:14-20 | for ASCII text the checksum is exactly two upper-case hexadecimal digits, which read back as the XOR |
| RovSimulator.ChecksumDigits | gps-server/test-moving-rov.js:19 | the checksum is at least two upper-case hexadecimal digits for any text |
| RovSimulator.ChecksumSkipsFirst | gps-server/test-moving-rov.js:16 | starting at index 1 leaves the first code unit of the data out of the NMEA 0183 checksum: the result is the standard one XOR-ed with that unit, and differs from it whenever the first character is not NUL |
| RovSimulator.Abs | gps-server/test-moving-rov.js:24 | the absolute value is non-negative and is `x` or `-x` |
| RovSimulator.Minutes | gps-server/test-moving-rov.js:25-26 | the minutes past the whole degrees lie in [0, 60) |
| RovSimulator.LatDir | gps-server/test-moving-rov.js:48 | the latitude letter is `N` or `S` |
| RovSimulator.LonDir | gps-server/test-moving-rov.js:49 | the longitude letter is `E` or `W` |
| RovSimulator.HemisphereSign | gps-server/test-moving-rov.js:48-49 | the letter is `N`/`E` exactly for a non-negative coordinate, and the decoder negates exactly the others |
| RovSimulator.ToNmeaExact | gps-server/test-moving-rov.js:23-31 | before rounding, `parseCoordinate` inverts the encoding: `100*degrees + minutes` with the letter decodes to the coordinate |
| RovSimulator.RoundedMinutes | gps-server/test-moving-rov.js:28 | the minutes rounded to four places stay in [0, 100) and within half a unit of the exact minutes |
| RovSimulator.DdmmTextDigits | gps-server/test-moving-rov.js:27-29 | for minutes in [0, 60) the text is the padded degrees followed by the rounded minute digits with their point |
| RovSimulator.ParseDdmm | gps-server/test-moving-rov.js:28 | `parseFloat` reads padded degrees and padded minutes as `100*degrees` plus the rounded minutes |
| RovSimulator.DdmmTextValue | gps-server/test-moving-rov.js:27-29 | the coordinate text reads as `100*degrees` plus the rounded minutes |
| RovSimulator.DecodeText | gps-server/server.js:105-118 | text reading as `100*a + m`, with `m` in [0, 100), decodes to `a + m/60`, with the letter's sign |
| RovSimulator.RoundingError | gps-server/test-moving-rov.js:28 | half a unit of the fourth minute decimal is 1/1200000 of a degree |
| RovSimulator.CoordinateRoundTrip | gps-server/test-moving-rov.js:23-31 | the server decodes the simulator's text and letter to within 1/1200000 of a degree of the coordinate |
| RovSimulator.TwoDigits | gps-server/test-moving-rov.js:39-41 | a padded number is all digits, at least two; below 100 exactly two, reading back as the number |
| RovSimulator.TimeFieldDigits | gps-server/test-moving-rov.js:39-41 | for a valid clock the time field is six digits: hours, minutes, seconds |
| RovSimulator.LastTwoDigits | gps-server/test-moving-rov.js:46 | the last two of four digits are the number modulo 100 |
| RovSimulator.FourDigitYear | gps-server/test-moving-rov.js:46 | a year from 1000 to 9999 is four digits |
| RovSimulator.YearDigits | gps-server/test-moving-rov.js:46 | the year part has at most two characters, and for a four-digit year is `year % 100` in two digits |
| RovSimulator.DdMmYy | gps-server/test-moving-rov.js:44-46 | a day, a month and a four-digit year written side by side read back as each |
| RovSimulator.DateFieldDigits | gps-server/test-moving-rov.js:44-46 | for a valid clock with a four-digit year the date field is six digits: day, month counted from 1, year modulo 100 |
| RovSimulator.SpeedText | gps-server/test-moving-rov.js:54 | the speed is written `2.0` and reads back as 2 |
| RovSimulator.CourseText | gps-server/test-moving-rov.js:54 | the course is written `135.0` and reads back as 135 |
| RovSimulator.ToNmeaNoComma | gps-server/test-moving-rov.js:23-31 | the coordinate text never holds a comma, so it stays one field |
| RovSimulator.ClockNoComma | gps-server/test-moving-rov.js:39-46 | the time and date fields never hold a comma, whatever the clock reads |
| RovSimulator.SplitFramed | gps-server/test-moving-rov.js:56 | splitting the framed sentence on commas gives the data fields back, with `$` and `*checksum` attached |
| RovSimulator.FramedJoinFields | gps-server/test-moving-rov.js:54-56 | the fields the parser sees in a framed sentence are the data fields, with `$` and `*checksum` attached |
| RovSimulator.SendGps | gps-server/test-moving-rov.js:34-56 | the sentence is `$`, the RMC data, `*` and the checksum the loop computes |
| RovSimulator.AcceptedRmc | gps-server/server.js:59-81 | twelve framed RMC fields with status `A` give an RMC fix exactly when both coordinates decode, with time and date from fields 1 and 9 |
| RovSimulator.TemplateAccepted | gps-server/test-moving-rov.js:54-56 | the simulator's RMC template is accepted exactly when both coordinate pairs decode, and the fix carries its time, date, speed and course |
| RovSimulator.SentenceAccepted | gps-server/test-moving-rov.js:54-56 | every sentence the simulator sends parses as an RMC fix with its time, date, speed and course, and a position within 1/1200000 of a degree |
| StaticServer.ContentTypeDefault | server.js:61-62 | the default type applies exactly to extensions outside the table; the table's entries are kept |
| StaticServer.VisibleMembers | server.js:36-37 | a name is listed exactly when it is in the directory and does not start with `.` |
| StaticServer.VisibleAppend | server.js:36-37 | the filter keeps `readdir` order |
| StaticServer.Links | server.js:38 | one link per listed name, in order |
| StaticServer.ListingOfHidden | server.js:36-45 | a directory of dot files only gives the empty page frame |
| StaticServer.ServeOutcome | server.js:65-90 | status 200 with the bytes exactly when the read succeeds, 404 for `ENOENT`, 500 with the code otherwise |
| StaticServer.CacheHeaders | server.js:76-88 | HTML gets exactly the three no-cache headers, any other file exactly `no-cache`, and both get their type and any origin |
| StaticServer.Statuses | server.js:22-92 | every response is 200, 403, 404 or 500, each with the condition that decides it, in both directions, and its body |
| StaticServer.RefusedReadsNothing | server.js:51-65 | a listing or a refused path does not depend on what `readFile` would answer |
| StaticServer.ListingOnlyForLayers | server.js:26-48 | a listing page is answered exactly for `/layers` and `/layers/` when `readdir` succeeds, with no path check |
| StaticServer.OkHeaders | server.js:41-89 | every 200 allows any origin and names a content type; a file's type comes from its lower-cased extension |
| StaticServer.ServeHeaders | server.js:61-90 | a file sent with 200 has the headers of its lower-cased extension and its bytes |
| StaticServer.RouteFile | server.js:51-65 | outside the listing, an admitted path is read and served, and a refused one gets 403 |
| StaticServer.RootPaths | server.js:51 | `/` names `index.html` in the served directory, whose extension is `.html`; the listing reads `layers` in it |
| StaticServer.RootIsIndex | server.js:51-65 | `/` serves `index.html` from the served directory when the check admits it |
| StaticServer.HtmlExtension | server.js:61 | the extension of `dir/index.html` is `.html` |
| StaticServer.ExtensionIgnoresCase | server.js:61-62 | the extension is lower-cased before the lookup, so `x.HTML` is served as HTML |
| StaticServer.PrefixGuardAdmitsSibling | server.js:54-58 | the check as written admits the sibling `dir + tail` reached by `/../` and serves it, though it is outside the directory |
| StaticServer.InsideGuardExact | server.js:54 | the corrected check admits exactly the paths inside the directory, segment by segment |
| StaticServer.InsideGuardStricter | server.js:54 | the corrected check refuses everything the written one refuses |
| StaticServer.HandleInsideReadsInside | server.js:54-58 | with the corrected check every file read lies inside the served directory |
| StaticServer.HandleInsideRefusesSibling | server.js:54-58 | with the corrected check the sibling escape gets 403 |
| StaticServer.ClientErrorRule | server.js:95-101 | nothing is written for `ECONNRESET` or an unwritable socket; otherwise exactly `HTTP/1.1 400 Bad Request` followed by an empty header block |
| NodePath.NormalizeAbsolute | server.js:51 | a normalised absolute path is `/` followed by plain names, with at most a trailing `/` |
| NodePath.JoinName | server.js:51 | joining a plain name onto a normalised directory is concatenation with `/` |
| NodePath.EscapeJoin | server.js:51 | joining `/../` and `last + tail` onto a directory whose last name is `last` gives the sibling `dir + tail` |
| NodePath.SiblingOutside | server.js:54 | that sibling does not lie inside the directory |
| NodePath.ExtName | server.js:61 | the extension is empty or a `.` and no other dot, at the end of the base name and shorter than it |
| NodePath.ExtNameOf | server.js:61 | the extension of `dir/stem.e` is `.e` |
| JsText.Split | gps-server/server.js:32 | the comma pieces hold no comma, and joining them gives the text back |
| JsText.SplitJoin | gps-server/server.js:32 | splitting undoes joining when no piece holds the separator |
| JsText.PadStart | gps-server/test-moving-rov.js:28 | padding gives the longer of `n` and the input, ends with the input, and fills the front with the filler |
| JsText.Substr | gps-server/test-moving-rov.js:46 | the part has at most the requested length, and is the slice when it fits |
| JsText.ToLower | server.js:61 | lower-casing keeps the length and maps each character on its own |
| JsNumber.Show | gps-server/test-moving-rov.js:28 | `toString` of a whole number is its digits without a leading zero, reading back as the number |
| JsNumber.ShowHex | gps-server/test-moving-rov.js:19 | the upper-case hexadecimal digits read back as the number; one digit exactly below 16 |
| JsNumber.RoundScaled | gps-server/test-moving-rov.js:28 | the `toFixed` rounding is within half a unit of the scaled value |
| JsNumber.ToFixedRoundTrip | gps-server/test-moving-rov.js:28 | `parseFloat` reads back what `toFixed` wrote as the rounded value |
| JsNumber.ParseFloatDecimal | gps-server/server.js:108 | `parseFloat` of a plain `D.F` is exactly `D + 0.F` |
| JsNumber.ParseIntWhole | gps-server/server.js:40-41 | `parseInt` of a number's digits is that number |

## Left out

- Sockets: the UDP, WebSocket and HTTP transports, port configuration, `bind`, `listen` and the `listening` handlers. The handlers are modelled from the data they receive.
- Buffers: `msg.toString()` of a datagram and `data.toString()` of a stdout chunk are taken as already-decoded text. UTF-8 decoding across chunks is not modelled.
- Logging: every `console.log` and `console.error` is left out, along with the UDP `error` handlers, which only log.
- Floating point: numbers are exact reals and integers. IEEE rounding, overflow to Infinity and `-0` are not modelled. `Infinity` still appears where `parseFloat` reads it.
- Timers and processes: `setInterval` and the spawn of the Python script are left out. A script run is modelled by its exit code and its stdout chunks, and the query arguments passed on its command line are not.
- The ROV motion update (`gps-server/test-moving-rov.js:74-85`) is left out. It uses `Math.sin`, `Math.cos` and π, which have no exact model. The position is a parameter of `SendGps`.
- The datagram send in `sendGPS` and its callback are left out. `SendGps` returns the sentence it would send.
- `JSON.stringify`: a delivery records the value whose serialisation was sent, not the text.
- `new Date().toISOString()` is a string parameter. One instant is used per datagram, for both `timestamp` and `receivedAt`.
- Clocks: `getUTCHours` and the other clock readings come from a `UtcClock` parameter.
- The file system: `fs.readdir` and `fs.readFile` are functions in `Host`, and the read error is its `code` string.
- Response headers are a map. The order in which `writeHead` sends them is not kept.
- JsText.ToLower: lower-cases only the ASCII letters. Unicode case mapping, such as the Kelvin sign turning into `k`, is not modelled. It can only matter for an extension outside the table, which gets the default type either way.
- JsText.Substr: modelled for non-negative `start` and `length`, which is all the source uses (`substr(2, 2)`).
- NodePath: only POSIX paths are modelled, and `__dirname` is taken as an absolute path. URL decoding is not modelled: Node passes `req.url` to `path.join` undecoded. Query strings are not modelled either: they stay in the file path, as in the source.
- The checksum is modelled as written, over UTF-16 code units as `length` and `charCodeAt` see them: it starts at index 1 of the data, which has no `$`. `RovSimulator.ChecksumSkipsFirst` states how this differs from the NMEA 0183 checksum. The server never verifies checksums, so no behaviour depends on it.
- `SentenceAccepted` covers any clock. `DateFieldDigits` also states the digit layout of the date field, but only for four-digit years.

## Findings

| source | as written | input that shows it | evidently intended | confidence | as-written member | corrected member |
|---|---|---|---|---|---|---|
| server.js:54 | the traversal check tests whether the joined path begins with the text of the served directory | served directory `/srv/app`, URL `/../app.env`: it joins to `/srv/app.env`, which begins with `/srv/app`, so the sibling file is read and sent | admit only the directory itself or paths below `dir + "/"` | high (proved over the model, not executed) | StaticServer.PrefixGuardAdmitsSibling | StaticServer.HandleInsideRefusesSibling |
