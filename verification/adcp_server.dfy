/**
 * The ADCP (current profiler) WebSocket server: a latest-value cache with a
 * set of subscribers. A query runs an external script; its output, once the
 * script exits cleanly, the output parses as JSON and the log line about it
 * does not throw, becomes the latest value and is broadcast to every OPEN
 * client. A client that connects gets
 * the latest value at once, but only when that value is truthy.
 *
 * `JSON.parse` is a parameter of the handlers that use it (`None` when it
 * throws); `JSON.stringify` is left abstract: a delivery records the value
 * whose serialisation was sent, which is the same text for every client.
 */
module AdcpServer {
  import opened Wrappers
  import opened Subscribers

  /** A JSON value as `JSON.parse` returns it. */
  datatype Json =
    | JNull
    | JBool(b: bool)
    | JNumber(n: real)
    | JString(s: string)
    | JArray(items: seq<Json>)
    | JObject(members: map<string, Json>)

  /** JavaScript truthiness: `null`, `false`, `0` and `""` are falsy; every array and object is truthy. */
  predicate Truthy(v: Json) {
    match v
    case JNull => false
    case JBool(b) => b
    case JNumber(n) => n != 0.0
    case JString(s) => s != ""
    case _ => true
  }

  /** `v[key]` for a value that is not `null`: `None` stands for `undefined`. */
  function Member(v: Json, key: string): (r: Option<Json>)
    ensures r.Some? <==> v.JObject? && key in v.members
    ensures r.Some? ==> r.value == v.members[key]
  {
    if v.JObject? && key in v.members then Some(v.members[key]) else None
  }

  /** The arguments `queryADCPData` passes to the script; `None` is `undefined`. */
  datatype Query = Query(timeStart: Option<Json>, timeEnd: Option<Json>, depthRange: Option<Json>, instrument: Option<Json>)

  /** Six hours in milliseconds: `6 * 60 * 60 * 1000`. */
  const Window: int := 6 * 60 * 60 * 1000

  /** The query of the timer and of start-up: the six hours up to `now`, the 0-25 m layer, the WH300 instrument. */
  function DefaultQuery(now: int): Query {
    Query(Some(JNumber((now - Window) as real)), Some(JNumber(now as real)), Some(JString("0-25")), Some(JString("WH300")))
  }

  /** The default query is a window of numbers that ends at `now` and is 21 600 000 ms long, over 0-25 m from the WH300. */
  lemma DefaultWindow(now: int)
    ensures var q := DefaultQuery(now);
      && q.timeStart.Some? && q.timeStart.value.JNumber? && q.timeEnd.Some? && q.timeEnd.value.JNumber?
      && q.timeEnd.value.n == now as real && q.timeEnd.value.n - q.timeStart.value.n == 21600000.0
      && q.depthRange == Some(JString("0-25")) && q.instrument == Some(JString("WH300"))
  {
  }

  /**
   * The `message` handler, which changes nothing on the server: what a
   * client message asks for is a query when it parses and is an object
   * whose `type` is the string `query`, with the four arguments read from it;
   * nothing otherwise. A parse error and the `TypeError` of `null.type` are
   * caught, so they also give nothing.
   */
  function Dispatch(message: string, parse: string -> Option<Json>): Option<Query> {
    match parse(message)
    case None => None
    case Some(request) =>
      if Member(request, "type") == Some(JString("query")) then
        Some(Query(Member(request, "timeStart"), Member(request, "timeEnd"),
                   Member(request, "depthRange"), Member(request, "instrument")))
      else None
  }

  /** A message asks for a query exactly when it parses to an object with `type: "query"`, and the query carries that object's fields. */
  lemma DispatchQuery(message: string, parse: string -> Option<Json>)
    ensures Dispatch(message, parse).Some? <==>
      parse(message).Some? && parse(message).value.JObject?
      && "type" in parse(message).value.members && parse(message).value.members["type"] == JString("query")
    ensures Dispatch(message, parse).Some? ==>
      var m := parse(message).value.members;
      var q := Dispatch(message, parse).value;
      && (q.timeStart.Some? <==> "timeStart" in m) && (q.timeStart.Some? ==> q.timeStart.value == m["timeStart"])
      && (q.timeEnd.Some? <==> "timeEnd" in m) && (q.timeEnd.Some? ==> q.timeEnd.value == m["timeEnd"])
      && (q.depthRange.Some? <==> "depthRange" in m) && (q.depthRange.Some? ==> q.depthRange.value == m["depthRange"])
      && (q.instrument.Some? <==> "instrument" in m) && (q.instrument.Some? ==> q.instrument.value == m["instrument"])
  {
  }

  /** The script's output: its stdout chunks joined in the order they arrived. */
  function Concat(chunks: seq<string>): string {
    if chunks == [] then "" else Concat(chunks[..|chunks| - 1]) + chunks[|chunks| - 1]
  }

  /** The output is empty exactly when every chunk is. */
  lemma {:induction false} ConcatEmpty(chunks: seq<string>)
    ensures Concat(chunks) == "" <==> forall i :: 0 <= i < |chunks| ==> chunks[i] == ""
  {
    if chunks != [] {
      var init := chunks[..|chunks| - 1];
      ConcatEmpty(init);
      assert forall i :: 0 <= i < |init| ==> init[i] == chunks[i];
    }
  }

  /** Each chunk appears in the output in place, after all the chunks before it. */
  lemma {:induction false} ConcatLength(chunks: seq<string>, i: nat)
    requires i < |chunks|
    ensures |Concat(chunks[..i])| + |chunks[i]| <= |Concat(chunks)|
    ensures Concat(chunks)[|Concat(chunks[..i])|..|Concat(chunks[..i])| + |chunks[i]|] == chunks[i]
  {
    var n := |chunks|;
    if i == n - 1 {
      assert chunks[..n - 1] == chunks[..i];
    } else {
      var init := chunks[..n - 1];
      assert init[..i] == chunks[..i] && init[i] == chunks[i];
      ConcatLength(init, i);
    }
  }

  /** `dataBuffer += data.toString()` for each stdout chunk, in order. */
  method Collect(chunks: seq<string>) returns (buffer: string)
    ensures buffer == Concat(chunks)
  {
    buffer := "";
    var i := 0;
    while i < |chunks|
      invariant 0 <= i <= |chunks|
      invariant buffer == Concat(chunks[..i])
    {
      assert chunks[..i + 1][..i] == chunks[..i];
      buffer := buffer + chunks[i];
      i := i + 1;
    }
    assert chunks[..i] == chunks;
  }

  /**
   * Whether JavaScript's `String(v)` throws for a parsed value. An object
   * holding its own `toString` key has a value there that is not callable,
   * so the conversion falls back to `valueOf`, which gives the object
   * itself, and a `TypeError` follows. Any other object prints as
   * `[object Object]`. An array prints by joining its elements, so it
   * throws when one of them does. Primitives never throw.
   */
  predicate ToStringThrows(v: Json) {
    match v
    case JObject(m) => "toString" in m
    case JArray(items) => exists i :: 0 <= i < |items| && ToStringThrows(items[i])
    case _ => false
  }

  /**
   * Whether the log line `adcpData.vectors ? adcpData.vectors.length : 0`
   * in a template literal throws. Reading `.vectors` of `null` throws. For
   * a truthy `vectors`, `.length` is a number for an array or a string and
   * `undefined` for a number or a boolean. Only an object can supply a
   * `length` of its own, and printing that `length` can throw.
   */
  predicate LogThrows(data: Json) {
    || data.JNull?
    || match Member(data, "vectors")
       case Some(JObject(m)) => "length" in m && ToStringThrows(m["length"])
       case _ => false
  }

  /**
   * The `close` rule for the script: its result is the parsed output when
   * the exit code is 0 (not a signal's `null`), the output is not empty, it
   * parses, and the log line after the parse does not throw. A throw there
   * comes before the broadcast, and the `catch` swallows it.
   */
  function ScriptResult(code: Option<int>, output: string, parse: string -> Option<Json>): Option<Json> {
    if code == Some(0) && output != "" then
      match parse(output)
      case Some(data) => if LogThrows(data) then None else Some(data)
      case None => None
    else None
  }

  /** The log line throws on `null`, and on a `vectors.length` object with its own `toString`. */
  lemma LogThrowsOn(inner: Json)
    ensures LogThrows(JNull)
    ensures var length := JObject(map["toString" := inner]);
      LogThrows(JObject(map["vectors" := JObject(map["length" := length])]))
  {
    var length := JObject(map["toString" := inner]);
    var data := JObject(map["vectors" := JObject(map["length" := length])]);
    assert Member(data, "vectors") == Some(JObject(map["length" := length]));
  }

  /**
   * The log line prints every output other than `null` that is not an
   * object, and every object whose `vectors` is missing or is not itself
   * an object, such as the array of vectors the script writes.
   */
  lemma LogPrints(data: Json)
    ensures !data.JNull? && !data.JObject? ==> !LogThrows(data)
    ensures data.JObject? && ("vectors" !in data.members || !data.members["vectors"].JObject?) ==> !LogThrows(data)
  {
  }

  /**
   * In terms of the stdout chunks: a result is broadcast exactly when the
   * exit code is 0, some chunk is not empty and the joined output parses to
   * a value other than `null` that the log line prints; the result is that
   * value.
   */
  lemma ScriptCloseRule(code: Option<int>, chunks: seq<string>, parse: string -> Option<Json>)
    ensures ScriptResult(code, Concat(chunks), parse).Some? <==>
      && code == Some(0)
      && (exists i :: 0 <= i < |chunks| && chunks[i] != "")
      && parse(Concat(chunks)).Some? && parse(Concat(chunks)).value != JNull
      && !LogThrows(parse(Concat(chunks)).value)
    ensures ScriptResult(code, Concat(chunks), parse).Some? ==>
      ScriptResult(code, Concat(chunks), parse).value == parse(Concat(chunks)).value
  {
    ConcatEmpty(chunks);
  }

  /** The server: the latest value (initially `null`) and the subscribed clients. */
  class Server {
    var latest: Json
    const hub: Registry<Json>

    ghost predicate Valid()
      reads this, hub
    {
      hub.Valid()
    }

    /** `latestADCPData = null` and an empty client set. */
    constructor ()
      ensures Valid() && fresh(hub)
      ensures latest == JNull && hub.clients == [] && hub.sent == []
    {
      latest := JNull;
      hub := new Registry();
    }

    /** `broadcastADCPData(data)`: `data` becomes the latest value, then goes to every OPEN client. */
    method Broadcast(data: Json)
      requires Valid()
      modifies this, hub
      ensures Valid() && latest == data && hub.clients == old(hub.clients)
      ensures hub.sent == old(hub.sent) + Fanout(hub.clients, data)
    {
      latest := data;
      hub.Broadcast(data);
    }

    /** The `connection` handler: the client joins, and gets the latest value when it is truthy. */
    method Connect(ws: Socket)
      requires Valid()
      modifies hub
      ensures Valid() && latest == old(latest)
      ensures hub.clients == if ws in old(hub.clients) then old(hub.clients) else old(hub.clients) + [ws]
      ensures hub.sent == old(hub.sent) + if Truthy(latest) then [Delivery(ws, latest)] else []
    {
      hub.Add(ws);
      if Truthy(latest) {
        hub.Send(ws, latest);
      }
    }

    /** The `close` and `error` handlers: the client leaves; leaving twice is leaving once. */
    method Disconnect(ws: Socket)
      requires Valid()
      modifies hub
      ensures Valid() && latest == old(latest) && hub.sent == old(hub.sent)
      ensures hub.clients == Without(old(hub.clients), ws)
    {
      hub.Remove(ws);
    }

    /**
     * The script's `close` event with its exit code and the chunks its
     * stdout produced: an accepted result is broadcast; anything else
     * changes nothing.
     */
    method OnScriptClose(code: Option<int>, chunks: seq<string>, parse: string -> Option<Json>)
      requires Valid()
      modifies this, hub
      ensures Valid() && hub.clients == old(hub.clients)
      ensures ScriptResult(code, Concat(chunks), parse).Some? ==>
        var data := ScriptResult(code, Concat(chunks), parse).value;
        latest == data && hub.sent == old(hub.sent) + Fanout(hub.clients, data)
      ensures ScriptResult(code, Concat(chunks), parse).None? ==> latest == old(latest) && hub.sent == old(hub.sent)
      ensures parse(Concat(chunks)) == Some(JNull) ==> latest == old(latest) && hub.sent == old(hub.sent)
      ensures parse(Concat(chunks)).Some? && LogThrows(parse(Concat(chunks)).value) ==>
        latest == old(latest) && hub.sent == old(hub.sent)
    {
      var dataBuffer := Collect(chunks);
      if code == Some(0) && dataBuffer != "" {
        var adcpData := parse(dataBuffer);
        // The log line throws before the broadcast on `null` and on an unprintable `vectors.length`.
        if adcpData.Some? && !LogThrows(adcpData.value) {
          Broadcast(adcpData.value);
        }
      }
    }
  }

  /** Nothing is sent to a client that connects before the first broadcast: the initial `null` is falsy. */
  method ConnectFirst(ws: Socket) returns (server: Server)
    ensures server.Valid() && server.hub.clients == [ws] && server.hub.sent == []
  {
    server := new Server();
    server.Connect(ws);
  }
}
