/**
 * The static file server that serves the map application: one request
 * handler and one `clientError` handler.
 *
 * A request for `/layers` or `/layers/` lists the `layers` directory; any
 * other URL names a file under the served directory (`/` names
 * `index.html`), which is refused with 403 when the joined path does not
 * begin with the directory, and otherwise read and sent with a content type
 * taken from its extension.
 *
 * The file system is a parameter: `readdir` and `readFile` are the results
 * the two callbacks receive for a path. A handler runs to completion once
 * its callback fires, so a request is one function from the URL and those
 * results to the response.
 */
module StaticServer {
  import opened Wrappers
  import opened JsText
  import opened NodePath

  /** The content types by lower-case extension. */
  const MimeTypes: map<string, string> := map[
    ".html" := "text/html",
    ".css" := "text/css",
    ".js" := "application/javascript",
    ".json" := "application/json",
    ".png" := "image/png",
    ".jpg" := "image/jpeg",
    ".gif" := "image/gif",
    ".svg" := "image/svg+xml",
    ".csv" := "text/csv",
    ".txt" := "text/plain",
    ".geojson" := "application/geo+json",
    ".mbtiles" := "application/x-sqlite3"
  ]

  const DefaultType := "application/octet-stream"

  /** `MIME_TYPES[ext] || 'application/octet-stream'`: every entry is a non-empty string. */
  function ContentType(ext: string): string {
    if ext in MimeTypes then MimeTypes[ext] else DefaultType
  }

  /** The default applies exactly to the extensions the table lacks; the table's own entries are kept. */
  lemma ContentTypeDefault(ext: string)
    ensures ContentType(ext) == DefaultType <==> ext !in MimeTypes
    ensures ext in MimeTypes ==> ContentType(ext) == MimeTypes[ext]
  {
  }

  /** The result of `fs.readFile`: the bytes, or the error's `code`. */
  datatype ReadResult = Loaded(content: seq<bv8>) | Failed(code: string)

  datatype Body = Text(text: string) | Bytes(content: seq<bv8>)

  /** What `writeHead` and `end` send: the status, the header object, the body. */
  datatype Response = Response(status: int, headers: map<string, string>, body: Body)

  /** The served directory (`__dirname`) and what the file system answers for each path. */
  datatype Host = Host(dirname: string, readdir: string -> Option<seq<string>>, readFile: string -> ReadResult)

  predicate IsListing(url: string) {
    url == "/layers/" || url == "/layers"
  }

  // ----- The directory listing -----

  /** The names the listing shows: those not starting with `.`, in `readdir` order. */
  function Visible(names: seq<string>): seq<string> {
    if names == [] then []
    else (if StartsWith(names[0], ".") then [] else [names[0]]) + Visible(names[1..])
  }

  /** A name is shown exactly when it is in the directory and does not start with `.`. */
  lemma {:induction false} VisibleMembers(names: seq<string>, f: string)
    ensures f in Visible(names) <==> f in names && !StartsWith(f, ".")
  {
    if names != [] {
      VisibleMembers(names[1..], f);
      assert names == [names[0]] + names[1..];
    }
  }

  /** Filtering keeps order: the names of a longer listing follow those of its beginning. */
  lemma {:induction false} VisibleAppend(xs: seq<string>, ys: seq<string>)
    ensures Visible(xs + ys) == Visible(xs) + Visible(ys)
  {
    if xs == [] {
      assert xs + ys == ys;
    } else {
      assert (xs + ys)[0] == xs[0] && (xs + ys)[1..] == xs[1..] + ys;
      VisibleAppend(xs[1..], ys);
    }
  }

  /** One link: `<a href="f">f</a>`, the name inserted as it is. */
  function Link(f: string): string {
    "<a href=\"" + f + "\">" + f + "</a>"
  }

  function Links(names: seq<string>): (r: seq<string>)
    ensures |r| == |names| && forall i :: 0 <= i < |names| ==> r[i] == Link(names[i])
  {
    if names == [] then [] else [Link(names[0])] + Links(names[1..])
  }

  const PageStart := "<!DOCTYPE html><html><body>"
  const PageEnd := "</body></html>"

  /** The listing page: the links of the shown names, one per line, in the fixed frame. */
  function ListingPage(names: seq<string>): string {
    PageStart + Join(Links(Visible(names)), "<br>\n") + PageEnd
  }

  /** A directory with nothing to show gives the empty frame. */
  lemma ListingOfHidden(names: seq<string>)
    requires forall i :: 0 <= i < |names| ==> StartsWith(names[i], ".")
    ensures ListingPage(names) == "<!DOCTYPE html><html><body></body></html>"
  {
    assert Visible(names) == [] by {
      if Visible(names) != [] {
        VisibleMembers(names, Visible(names)[0]);
      }
    }
  }

  /** The `readdir` callback: 500 on an error, else the page with the listing headers. */
  function Listing(files: Option<seq<string>>): Response {
    match files
    case None => Response(500, map[], Text("Error reading directory"))
    case Some(names) =>
      Response(200, map["Content-Type" := "text/html", "Access-Control-Allow-Origin" := "*"], Text(ListingPage(names)))
  }

  // ----- Files -----

  /** The path a URL names: `/` is `index.html`; any other URL is joined as it is. */
  function FilePath(dir: string, url: string): string {
    PathJoin(dir, if url == "/" then "index.html" else url)
  }

  /** The headers of a file sent with 200: its type, any origin, and caching by extension. */
  function FileHeaders(ext: string): map<string, string> {
    var headers := map["Content-Type" := ContentType(ext), "Access-Control-Allow-Origin" := "*"];
    if ext == ".html" then
      headers["Cache-Control" := "no-cache, no-store, must-revalidate"]["Pragma" := "no-cache"]["Expires" := "0"]
    else
      headers["Cache-Control" := "no-cache"]
  }

  /** The `readFile` callback for `filePath`. */
  function Serve(filePath: string, read: ReadResult): Response {
    var ext := ToLower(ExtName(filePath));
    match read
    case Failed(code) =>
      if code == "ENOENT" then Response(404, map[], Text("404 Not Found"))
      else Response(500, map[], Text("Server Error: " + code))
    case Loaded(content) => Response(200, FileHeaders(ext), Bytes(content))
  }

  /** The outcome of a read: 200 with the bytes exactly when it succeeds, 404 for a missing file, 500 with the code otherwise. */
  lemma ServeOutcome(filePath: string, read: ReadResult)
    ensures var r := Serve(filePath, read);
      && (r.status == 200 <==> read.Loaded?)
      && (read.Loaded? ==> r.body == Bytes(read.content))
      && (read == Failed("ENOENT") ==> r == Response(404, map[], Text("404 Not Found")))
      && (read.Failed? && read.code != "ENOENT" ==> r == Response(500, map[], Text("Server Error: " + read.code)))
  {
  }

  /** An HTML file is never cached; any other file is revalidated and has no other cache header. Every file carries its type and any origin. */
  lemma CacheHeaders(ext: string)
    ensures var h := FileHeaders(ext);
      && "Content-Type" in h && h["Content-Type"] == ContentType(ext)
      && "Access-Control-Allow-Origin" in h && h["Access-Control-Allow-Origin"] == "*"
      && (ext == ".html" ==>
            && h.Keys == {"Content-Type", "Access-Control-Allow-Origin", "Cache-Control", "Pragma", "Expires"}
            && h["Cache-Control"] == "no-cache, no-store, must-revalidate"
            && h["Pragma"] == "no-cache" && h["Expires"] == "0")
      && (ext != ".html" ==>
            && h.Keys == {"Content-Type", "Access-Control-Allow-Origin", "Cache-Control"}
            && h["Cache-Control"] == "no-cache")
  {
  }

  // ----- The request handler -----

  /**
   * The request handler, with the check on the joined path as a parameter:
   * `admits(filePath, dirname)` decides whether the file may be read.
   */
  function Route(url: string, host: Host, admits: (string, string) -> bool): Response {
    if IsListing(url) then Listing(host.readdir(PathJoin(host.dirname, "layers")))
    else
      var filePath := FilePath(host.dirname, url);
      if !admits(filePath, host.dirname) then Response(403, map[], Text("Forbidden"))
      else Serve(filePath, host.readFile(filePath))
  }

  /** The check as written: the joined path begins with the text of the directory. */
  predicate PrefixGuard(filePath: string, dir: string) {
    StartsWith(filePath, dir)
  }

  /** The server as written. */
  function Handle(url: string, host: Host): Response {
    Route(url, host, PrefixGuard)
  }

  /**
   * The status of every response, and what decides it: 403 for a refused
   * path, 404 when the file does not exist, 500 for a failed directory read
   * and for any other read error, with the error code in the body; 200
   * otherwise.
   */
  lemma Statuses(url: string, host: Host, admits: (string, string) -> bool)
    ensures var r := Route(url, host, admits);
      var filePath := FilePath(host.dirname, url);
      var read := host.readFile(filePath);
      var reading := !IsListing(url) && admits(filePath, host.dirname);
      && r.status in {200, 403, 404, 500}
      && (r.status == 403 <==> !IsListing(url) && !admits(filePath, host.dirname))
      && (r.status == 403 ==> r == Response(403, map[], Text("Forbidden")))
      && (r.status == 404 <==> reading && read == Failed("ENOENT"))
      && (r.status == 404 ==> r == Response(404, map[], Text("404 Not Found")))
      && (r.status == 500 <==>
            (IsListing(url) && host.readdir(PathJoin(host.dirname, "layers")).None?)
            || (reading && read.Failed? && read.code != "ENOENT"))
      && (r.status == 500 && IsListing(url) ==> r.body == Text("Error reading directory"))
      && (r.status == 500 && !IsListing(url) ==> r.body == Text("Server Error: " + read.code))
  {
    if !IsListing(url) {
      var filePath := FilePath(host.dirname, url);
      RouteFile(url, host, admits);
      ServeOutcome(filePath, host.readFile(filePath));
    }
  }

  /** No file is read for a listing or a refused path: the response is the same whatever `readFile` answers. */
  lemma RefusedReadsNothing(url: string, host: Host, admits: (string, string) -> bool, other: string -> ReadResult)
    requires IsListing(url) || !admits(FilePath(host.dirname, url), host.dirname)
    ensures Route(url, host.(readFile := other), admits) == Route(url, host, admits)
  {
  }

  /** A listing is answered only for the two listing URLs, and for them no path check is made. */
  lemma ListingOnlyForLayers(url: string, host: Host, admits: (string, string) -> bool)
    ensures Route(url, host, admits).body.Text? && Route(url, host, admits).status == 200 <==> IsListing(url) && host.readdir(PathJoin(host.dirname, "layers")).Some?
    ensures IsListing(url) && host.readdir(PathJoin(host.dirname, "layers")).Some? ==>
      Route(url, host, admits).body == Text(ListingPage(host.readdir(PathJoin(host.dirname, "layers")).value))
  {
    if !IsListing(url) {
      var filePath := FilePath(host.dirname, url);
      RouteFile(url, host, admits);
      ServeOutcome(filePath, host.readFile(filePath));
    }
  }

  /** Every 200 response allows any origin and names a content type; a file's type comes from its lower-cased extension. */
  lemma OkHeaders(url: string, host: Host, admits: (string, string) -> bool)
    ensures var r := Route(url, host, admits);
      r.status == 200 ==>
        && "Access-Control-Allow-Origin" in r.headers && r.headers["Access-Control-Allow-Origin"] == "*"
        && "Content-Type" in r.headers
        && (!IsListing(url) ==>
              r.headers["Content-Type"] == ContentType(ToLower(ExtName(FilePath(host.dirname, url)))))
  {
    if !IsListing(url) {
      var filePath := FilePath(host.dirname, url);
      RouteFile(url, host, admits);
      if admits(filePath, host.dirname) {
        ServeHeaders(filePath, host.readFile(filePath));
      }
    }
  }

  /** A file sent with 200 has the headers of its lower-cased extension, with its content type and any origin. */
  lemma ServeHeaders(filePath: string, read: ReadResult)
    ensures var r := Serve(filePath, read);
      var ext := ToLower(ExtName(filePath));
      r.status == 200 ==>
        && r.headers == FileHeaders(ext) && r.body == Bytes(read.content)
        && "Access-Control-Allow-Origin" in r.headers && r.headers["Access-Control-Allow-Origin"] == "*"
        && "Content-Type" in r.headers && r.headers["Content-Type"] == ContentType(ext)
  {
    if read.Loaded? {
      var ext := ToLower(ExtName(filePath));
      assert Serve(filePath, read) == Response(200, FileHeaders(ext), Bytes(read.content));
      CacheHeaders(ext);
    }
  }

  /** `/` names `index.html` in the served directory, whose extension is `.html`; the listing reads its `layers` directory. */
  lemma RootPaths(dir: string)
    requires IsDirectory(dir)
    ensures FilePath(dir, "/") == dir + "/" + "index.html"
    ensures PathJoin(dir, "layers") == dir + "/" + "layers"
    ensures ToLower(ExtName(dir + "/" + "index.html")) == ".html"
  {
    IndexNames();
    assert FilePath(dir, "/") == dir + "/" + "index.html" by {
      JoinName(dir, "index.html");
    }
    assert PathJoin(dir, "layers") == dir + "/" + "layers" by {
      JoinName(dir, "layers");
    }
    HtmlExtension(dir);
  }

  /** `/` serves `index.html` from the served directory when the guard admits it. */
  lemma RootIsIndex(host: Host, admits: (string, string) -> bool)
    requires IsDirectory(host.dirname)
    ensures var index := host.dirname + "/" + "index.html";
      admits(index, host.dirname) ==> Route("/", host, admits) == Serve(index, host.readFile(index))
  {
    assert FilePath(host.dirname, "/") == host.dirname + "/" + "index.html" by {
      RootPaths(host.dirname);
    }
    RouteFile("/", host, admits);
  }

  /** Outside the listing, an admitted path is read and served; a refused one is not. */
  lemma RouteFile(url: string, host: Host, admits: (string, string) -> bool)
    requires !IsListing(url)
    ensures var filePath := FilePath(host.dirname, url);
      Route(url, host, admits)
        == if admits(filePath, host.dirname) then Serve(filePath, host.readFile(filePath))
           else Response(403, map[], Text("Forbidden"))
  {
  }

  /** The extension of `dir/index.html` is `.html`, in lower case already. */
  lemma HtmlExtension(dir: string)
    ensures ToLower(ExtName(dir + "/" + "index.html")) == ".html"
  {
    IndexNames();
    NamedExtName(dir, "index.html", "index", "html");
    ToLowerUnchanged(".html");
  }

  /** The two names the server joins to its directory are plain names, and `index.html` is `index` with extension `html`. */
  lemma IndexNames()
    ensures IsName("index.html") && IsName("layers")
    ensures "index.html" == "index" + "." + "html" && "." + "html" == ".html"
    ensures '/' !in "index" && '.' !in "html" && '/' !in "html"
  {
  }

  /** The extension is lower-cased before the lookup: `name.HTML` is served as HTML, with the HTML headers. */
  lemma ExtensionIgnoresCase(dir: string, stem: string, e: string)
    requires stem != "" && '/' !in stem && e != "" && '.' !in e && '/' !in e
    ensures ToLower(ExtName(dir + "/" + stem + "." + e)) == "." + ToLower(e)
  {
    ExtNameOf(dir, stem, e);
    assert ToLower("." + e) == "." + ToLower(e) by {
      assert ("." + e)[1..] == e;
    }
  }

  // ----- The path check: as written, and corrected -----

  /**
   * The check as written lets a URL climb to a sibling of the served
   * directory whose name begins with the directory's own name: for
   * `/srv/app`, the URL `/../app.env` joins to `/srv/app.env`, which begins
   * with `/srv/app`, so that file is read and sent.
   */
  lemma PrefixGuardAdmitsSibling(names: seq<string>, last: string, tail: string, host: Host)
    requires AllNames(names + [last]) && IsName(last + tail) && tail != ""
    requires host.dirname == "/" + Join(names + [last], "/")
    ensures var sibling := host.dirname + tail;
      && !Within(sibling, host.dirname)
      && Handle("/../" + last + tail, host) == Serve(sibling, host.readFile(sibling))
  {
    var url := "/../" + last + tail;
    assert FilePath(host.dirname, url) == host.dirname + tail by {
      EscapeJoin(names, last, tail);
      ClimbNotListing(last + tail);
      assert url == "/../" + (last + tail);
    }
    assert !Within(host.dirname + tail, host.dirname) by {
      SiblingOutside(names, last, tail);
    }
    assert PrefixGuard(host.dirname + tail, host.dirname) by {
      assert (host.dirname + tail)[..|host.dirname|] == host.dirname;
    }
    assert !IsListing(url) by {
      ClimbNotListing(last + tail);
      assert url == "/../" + (last + tail);
    }
    RouteFile(url, host, PrefixGuard);
  }

  /** A URL that starts by climbing is neither `/` nor a listing URL. */
  lemma ClimbNotListing(s: string)
    ensures !IsListing("/../" + s) && "/../" + s != "/"
  {
    var url := "/../" + s;
    assert url[1] == '.' && "/layers"[1] == 'l' && "/layers/"[1] == 'l';
  }

  /** The check that was meant: the path is the directory itself or lies below it. */
  predicate InsideGuard(filePath: string, dir: string) {
    filePath == dir || StartsWith(filePath, dir + "/")
  }

  /** The corrected check admits exactly the paths that lie inside the directory, component by component. */
  lemma InsideGuardExact(filePath: string, dir: string)
    ensures InsideGuard(filePath, dir) <==> Within(filePath, dir)
  {
    var inner, outer := Split(dir, '/'), Split(filePath, '/');
    if filePath != dir && StartsWith(filePath, dir + "/") {
      var rest := filePath[|dir| + 1..];
      assert filePath == dir + ['/'] + rest;
      SplitAppend(dir, rest, '/');
    }
    assert Join(outer, "/") == filePath && Join(inner, "/") == dir;
    if inner <= outer && filePath != dir {
      var more := outer[|inner|..];
      assert outer == inner + more;
      assert more == [] ==> outer == inner;
      if more != [] {
        JoinAppend(inner, more, "/");
        assert filePath == dir + "/" + Join(more, "/");
      }
    }
  }

  /** The corrected check refuses everything the written one refuses, and more. */
  lemma InsideGuardStricter(filePath: string, dir: string)
    ensures InsideGuard(filePath, dir) ==> PrefixGuard(filePath, dir)
  {
  }

  /** The server with the corrected check. */
  function HandleInside(url: string, host: Host): Response {
    Route(url, host, InsideGuard)
  }

  /** With the corrected check, every file the server reads lies inside the served directory. */
  lemma HandleInsideReadsInside(url: string, host: Host)
    ensures !IsListing(url) && HandleInside(url, host).status != 403 ==>
      Within(FilePath(host.dirname, url), host.dirname)
  {
    InsideGuardExact(FilePath(host.dirname, url), host.dirname);
  }

  /** With the corrected check the sibling of the written one's escape is refused, and nothing is read. */
  lemma HandleInsideRefusesSibling(names: seq<string>, last: string, tail: string, host: Host)
    requires AllNames(names + [last]) && IsName(last + tail) && tail != ""
    requires host.dirname == "/" + Join(names + [last], "/")
    ensures HandleInside("/../" + last + tail, host) == Response(403, map[], Text("Forbidden"))
  {
    var url := "/../" + last + tail;
    var sibling := host.dirname + tail;
    assert FilePath(host.dirname, url) == sibling by {
      EscapeJoin(names, last, tail);
      ClimbNotListing(last + tail);
      assert url == "/../" + (last + tail);
    }
    assert !Within(sibling, host.dirname) by {
      SiblingOutside(names, last, tail);
    }
    assert !IsListing(url) by {
      ClimbNotListing(last + tail);
      assert url == "/../" + (last + tail);
    }
    assert !InsideGuard(sibling, host.dirname) by {
      InsideGuardExact(sibling, host.dirname);
    }
    RouteFile(url, host, InsideGuard);
  }

  // ----- Client errors -----

  /** The `clientError` handler: the reply written to the socket, if any. */
  function ClientErrorReply(code: string, writable: bool): Option<string> {
    if code == "ECONNRESET" || !writable then None else Some("HTTP/1.1 400 Bad Request\r\n\r\n")
  }

  /** A reset connection or an unwritable socket gets nothing; any other client error gets a bare HTTP/1.1 400 status line and an empty header block. */
  lemma ClientErrorRule(code: string, writable: bool)
    ensures ClientErrorReply(code, writable).None? <==> code == "ECONNRESET" || !writable
    ensures ClientErrorReply(code, writable).Some? ==>
      ClientErrorReply(code, writable).value == "HTTP/1.1 400 Bad Request\r\n\r\n"
    ensures ClientErrorReply(code, writable).Some? ==>
      StartsWith(ClientErrorReply(code, writable).value, "HTTP/1.1 400 ")
      && EndsWith(ClientErrorReply(code, writable).value, "\r\n\r\n")
  {
  }
}
