/**
 * The parts of Node's POSIX `path` module the static file server relies on:
 * `path.join`, the `path.normalize` it ends with, and `path.extname`.
 *
 * A path is read as its `/`-separated segments. Normalising walks them left
 * to right with a stack: empty segments and `.` vanish, `..` removes the
 * last name (above the root of an absolute path it vanishes; at the start
 * of a relative path it stays), and any other segment is pushed.
 */
module NodePath {
  import opened JsText

  /** A segment that normalising keeps as it is: not empty, not `.` or `..`, no `/`. */
  predicate IsName(seg: string) {
    seg != "" && seg != "." && seg != ".." && '/' !in seg
  }

  predicate AllNames(segs: seq<string>) {
    forall i :: 0 <= i < |segs| ==> IsName(segs[i])
  }

  /** One step of the segment walk. */
  function Push(stack: seq<string>, seg: string, aboveRoot: bool): seq<string> {
    if seg == "" || seg == "." then stack
    else if seg == ".." then
      if stack != [] && stack[|stack| - 1] != ".." then stack[..|stack| - 1]
      else if aboveRoot then stack + [".."]
      else stack
    else stack + [seg]
  }

  /** The walk over `segs`, starting from `stack`. */
  function Resolve(stack: seq<string>, segs: seq<string>, aboveRoot: bool): seq<string>
    decreases |segs|
  {
    if segs == [] then stack else Resolve(Push(stack, segs[0], aboveRoot), segs[1..], aboveRoot)
  }

  /** Without `aboveRoot` (an absolute path) the walk of slash-free segments leaves only names. */
  lemma {:induction false} ResolveNames(stack: seq<string>, segs: seq<string>)
    requires AllNames(stack)
    requires forall i :: 0 <= i < |segs| ==> '/' !in segs[i]
    ensures AllNames(Resolve(stack, segs, false))
    decreases |segs|
  {
    if segs != [] {
      var next := Push(stack, segs[0], false);
      assert AllNames(next) by {
        if stack != [] && next == stack[..|stack| - 1] {
          assert forall i :: 0 <= i < |next| ==> next[i] == stack[i];
        }
      }
      ResolveNames(next, segs[1..]);
    }
  }

  /** Names pass through the walk unchanged. */
  lemma {:induction false} ResolveKeepsNames(stack: seq<string>, segs: seq<string>, aboveRoot: bool)
    requires AllNames(segs)
    ensures Resolve(stack, segs, aboveRoot) == stack + segs
    decreases |segs|
  {
    if segs != [] {
      ResolveKeepsNames(stack + [segs[0]], segs[1..], aboveRoot);
      assert stack + [segs[0]] + segs[1..] == stack + segs;
    }
  }

  /** Walking two runs of segments is walking the second from where the first ends. */
  lemma {:induction false} ResolveAppend(stack: seq<string>, xs: seq<string>, ys: seq<string>, aboveRoot: bool)
    ensures Resolve(stack, xs + ys, aboveRoot) == Resolve(Resolve(stack, xs, aboveRoot), ys, aboveRoot)
    decreases |xs|
  {
    if xs != [] {
      assert (xs + ys)[0] == xs[0] && (xs + ys)[1..] == xs[1..] + ys;
      ResolveAppend(Push(stack, xs[0], aboveRoot), xs[1..], ys, aboveRoot);
    } else {
      assert xs + ys == ys;
    }
  }

  /**
   * `path.normalize(p)`: `.` for the empty path; otherwise the walked
   * segments joined by `/`, with the leading `/` of an absolute path and the
   * trailing `/` of the input kept. An empty walk gives `/`, `./` or `.`.
   */
  function Normalize(p: string): string {
    if p == "" then "."
    else
      var absolute := p[0] == '/';
      var trailing := p[|p| - 1] == '/';
      var body := Join(Resolve([], Split(p, '/'), !absolute), "/");
      if body == "" then
        if absolute then "/" else if trailing then "./" else "."
      else
        (if absolute then "/" else "") + body + (if trailing then "/" else "")
  }

  /** `path.join(a, b)`: the non-empty arguments joined by `/`, then normalised. */
  function PathJoin(a: string, b: string): string {
    Normalize(if a == "" then b else if b == "" then a else a + "/" + b)
  }

  /** A normalised absolute path is `/` followed by names, with at most a trailing `/`. */
  lemma NormalizeAbsolute(p: string)
    requires p != [] && p[0] == '/'
    ensures var r := Normalize(p);
      var names := Resolve([], Split(p, '/'), false);
      AllNames(names) && r[0] == '/'
      && (r == "/" + Join(names, "/") || r == "/" + Join(names, "/") + "/")
  {
    ResolveNames([], Split(p, '/'));
  }

  /** An absolute directory in normal form: `/` and one or more names. */
  ghost predicate IsDirectory(dir: string) {
    exists names: seq<string> {:trigger Join(names, "/")} :: names != [] && AllNames(names) && dir == "/" + Join(names, "/")
  }

  /** The segments of such a directory are the empty root segment, then its names. */
  lemma DirectorySegments(dir: string, names: seq<string>)
    requires names != [] && AllNames(names) && dir == "/" + Join(names, "/")
    ensures Split(dir, '/') == [""] + names
  {
    assert dir == [] + ['/'] + Join(names, "/");
    SplitAppend([], Join(names, "/"), '/');
    SplitJoin(names, '/');
  }

  /** An absolute path without a trailing `/` whose walk is not empty normalises to `/` and the walk. */
  lemma NormalizeWalked(p: string, walked: seq<string>)
    requires p != [] && p[0] == '/' && p[|p| - 1] != '/'
    requires Resolve([], Split(p, '/'), false) == walked && Join(walked, "/") != ""
    ensures Normalize(p) == "/" + Join(walked, "/")
  {
  }

  /** Joining a name onto a directory in normal form is plain concatenation with `/`. */
  lemma JoinName(dir: string, name: string)
    requires IsDirectory(dir) && IsName(name)
    ensures PathJoin(dir, name) == dir + "/" + name
  {
    var names :| names != [] && AllNames(names) && dir == "/" + Join(names, "/");
    var p := dir + "/" + name;
    var walked := names + [name];
    assert Resolve([], Split(p, '/'), false) == walked by {
      NameSegments(dir, names, name);
      NameWalk(names, name);
    }
    assert "/" + Join(walked, "/") == p by {
      JoinAppend(names, [name], "/");
    }
    assert p[0] == '/' && p[|p| - 1] != '/' by {
      assert p[|p| - 1] == name[|name| - 1];
    }
    NormalizeWalked(p, walked);
  }

  /** The segments of `dir/name`: the root, the names of `dir`, then `name`. */
  lemma NameSegments(dir: string, names: seq<string>, name: string)
    requires names != [] && AllNames(names) && dir == "/" + Join(names, "/") && IsName(name)
    ensures Split(dir + "/" + name, '/') == [""] + names + [name]
  {
    assert dir + "/" + name == dir + ['/'] + name;
    DirectorySegments(dir, names);
    SplitAppend(dir, name, '/');
    assert Split(name, '/') == [name];
  }

  /** Walking the root and plain names keeps the names. */
  lemma NameWalk(names: seq<string>, name: string)
    requires AllNames(names) && IsName(name)
    ensures Resolve([], [""] + names + [name], false) == names + [name]
  {
    var walked := names + [name];
    assert ([""] + names + [name])[1..] == walked;
    ResolveKeepsNames([], walked, false);
  }

  /** `p` without its trailing slashes. */
  function TrimSlashes(p: string): (r: string)
    ensures |r| <= |p| && r == p[..|r|] && (r != [] ==> r[|r| - 1] != '/')
    ensures forall i :: |r| <= i < |p| ==> p[i] == '/'
  {
    if p != [] && p[|p| - 1] == '/' then TrimSlashes(p[..|p| - 1]) else p
  }

  /** The last segment of `p` once trailing slashes are dropped. */
  function BaseName(p: string): (b: string)
    ensures '/' !in b
  {
    var parts := Split(TrimSlashes(p), '/');
    parts[|parts| - 1]
  }

  /** The last position of `c` in `s`. */
  function LastIndexOf(s: string, c: char): (i: nat)
    requires c in s
    ensures i < |s| && s[i] == c && c !in s[i + 1..]
  {
    if s[|s| - 1] == c then |s| - 1
    else
      assert c in s[..|s| - 1] by {
        var k :| 0 <= k < |s| && s[k] == c;
        assert s[..|s| - 1][k] == c;
      }
      LastIndexOf(s[..|s| - 1], c)
  }

  /**
   * `path.extname(p)`: from the last `.` of the base name to its end; empty
   * when the base name has no `.`, has its last `.` as its first character
   * (a dot file), or is `..`.
   */
  function ExtName(p: string): (e: string)
    ensures e == "" || (e[0] == '.' && '.' !in e[1..] && '/' !in e && EndsWith(BaseName(p), e) && |e| < |BaseName(p)|)
  {
    Extension(BaseName(p))
  }

  /** The extension of a base name `b`. */
  function Extension(b: string): (e: string)
    ensures e == "" || (e[0] == '.' && '.' !in e[1..] && EndsWith(b, e) && |e| < |b|)
  {
    if '.' !in b || b == ".." then ""
    else
      var d := LastIndexOf(b, '.');
      if d == 0 then ""
      else
        assert b[d..][1..] == b[d + 1..];
        b[d..]
  }

  /** The base name of `dir/b`, for a non-empty `b` without slashes, is `b`. */
  lemma BaseNameOf(dir: string, b: string)
    requires b != "" && '/' !in b
    ensures BaseName(dir + "/" + b) == b
  {
    var p := dir + "/" + b;
    assert p[|p| - 1] == b[|b| - 1] != '/';
    assert TrimSlashes(p) == p;
    assert Split(p, '/') == Split(dir, '/') + [b] by {
      assert p == dir + ['/'] + b;
      SplitAppend(dir, b, '/');
    }
  }

  /** The extension of `stem.e`, for a non-empty stem and an `e` without dots, is `.e`. */
  lemma ExtensionOf(stem: string, e: string)
    requires stem != "" && e != "" && '.' !in e
    ensures Extension(stem + "." + e) == "." + e
  {
    var b := stem + "." + e;
    assert b[|stem|] == '.' && b[|stem| + 1..] == e;
    var d := LastIndexOf(b, '.');
    assert b[d..] == "." + e;
  }

  /** The extension of `dir/stem.e`, for a stem and an `e` without slashes and `e` without dots, is `.e`. */
  lemma ExtNameOf(dir: string, stem: string, e: string)
    requires stem != "" && '/' !in stem
    requires e != "" && '.' !in e && '/' !in e
    ensures ExtName(dir + "/" + stem + "." + e) == "." + e
  {
    var b := stem + "." + e;
    assert '/' !in b by {
      forall i | 0 <= i < |b|
        ensures b[i] != '/'
      {
        if i < |stem| { assert b[i] == stem[i]; }
        else if i > |stem| { assert b[i] == e[i - |stem| - 1]; }
      }
    }
    assert dir + "/" + stem + "." + e == dir + "/" + b;
    BaseNameOf(dir, b);
    ExtensionOf(stem, e);
  }

  /** The same, for a file name given whole. */
  lemma NamedExtName(dir: string, name: string, stem: string, e: string)
    requires stem != "" && '/' !in stem
    requires e != "" && '.' !in e && '/' !in e
    requires name == stem + "." + e
    ensures ExtName(dir + "/" + name) == "." + e
  {
    assert dir + "/" + name == dir + "/" + stem + "." + e;
    ExtNameOf(dir, stem, e);
  }

  /** `p` lies inside `dir` component by component: the segments of `dir` begin those of `p`. */
  predicate Within(p: string, dir: string) {
    Split(dir, '/') <= Split(p, '/')
  }

  /** An empty segment, then `..`, then a name: the last name is replaced by the new one. */
  lemma ClimbOne(names: seq<string>, last: string, sib: string)
    requires IsName(last) && IsName(sib)
    ensures Resolve(names + [last], ["", "..", sib], false) == names + [sib]
  {
    var ns := names + [last];
    var back: seq<string> := ["", "..", sib];
    var rest: seq<string> := ["..", sib];
    assert back[0] == "" && back[1..] == rest;
    assert rest[0] == ".." && rest[1..] == [sib];
    var one: seq<string> := [sib];
    assert one[0] == sib && one[1..] == [];
    assert Push(ns, "..", false) == names by {
      assert ns[..|ns| - 1] == names;
    }
    assert Resolve(ns, back, false) == Resolve(ns, rest, false);
    assert Resolve(ns, rest, false) == Resolve(names, one, false);
    assert Resolve(names, one, false) == Resolve(names + [sib], [], false);
  }

  /** The text `//../sib` after the names `ns` is the join of `ns`, an empty segment, `..` and `sib`. */
  lemma EscapeText(ns: seq<string>, sib: string)
    requires ns != []
    ensures Join([""] + (ns + ["", "..", sib]), "/") == "/" + Join(ns, "/") + "/" + "/../" + sib
  {
    var back: seq<string> := ["", "..", sib];
    var segs := [""] + (ns + back);
    assert Join(back, "/") == "/../" + sib by {
      var rest: seq<string> := ["..", sib];
      assert back[1..] == rest && rest[1..] == [sib];
      assert Join(rest, "/") == ".." + "/" + sib;
      assert Join(back, "/") == "" + "/" + Join(rest, "/");
    }
    assert Join(ns + back, "/") == Join(ns, "/") + "/" + "/../" + sib by {
      JoinAppend(ns, back, "/");
    }
    assert segs[1..] == ns + back;
  }

  /** The segments of `dir//../sib`: those of `dir`, an empty one, `..` and `sib`. */
  lemma EscapeSegments(dir: string, ns: seq<string>, sib: string)
    requires ns != [] && AllNames(ns) && dir == "/" + Join(ns, "/") && '/' !in sib
    ensures Split(dir + "/" + "/../" + sib, '/') == ([""] + ns) + ["", "..", sib]
  {
    var back: seq<string> := ["", "..", sib];
    var segs := [""] + (ns + back);
    var text := dir + "/" + "/../" + sib;
    assert Join(segs, "/") == text by {
      EscapeText(ns, sib);
    }
    assert forall i :: 0 <= i < |segs| ==> '/' !in segs[i] by {
      SlashFree(ns, back);
    }
    assert Split(text, '/') == segs by {
      SplitJoin(segs, '/');
    }
    assert segs == ([""] + ns) + back;
  }

  /** Names, then segments without a slash, after an empty segment: no segment holds a slash. */
  lemma SlashFree(ns: seq<string>, back: seq<string>)
    requires AllNames(ns) && forall i :: 0 <= i < |back| ==> '/' !in back[i]
    ensures var segs := [""] + (ns + back);
      forall i :: 0 <= i < |segs| ==> '/' !in segs[i]
  {
    var segs := [""] + (ns + back);
    forall i | 0 <= i < |segs|
      ensures '/' !in segs[i]
    {
      if 1 <= i <= |ns| {
        assert segs[i] == ns[i - 1];
      } else if i > |ns| {
        assert segs[i] == back[i - 1 - |ns|];
      }
    }
  }

  /** Walking those segments replaces the last name of `dir` by `sib`. */
  lemma EscapeWalk(names: seq<string>, last: string, sib: string)
    requires AllNames(names + [last]) && IsName(sib)
    ensures Resolve([], ([""] + (names + [last])) + ["", "..", sib], false) == names + [sib]
  {
    var ns := names + [last];
    var front, back := [""] + ns, ["", "..", sib];
    assert Resolve([], front, false) == ns by {
      assert front[0] == "" && front[1..] == ns;
      ResolveKeepsNames([], ns, false);
    }
    assert Resolve(ns, back, false) == names + [sib] by {
      assert IsName(last) by {
        assert ns[|names|] == last;
      }
      ClimbOne(names, last, sib);
    }
    ResolveAppend([], front, back, false);
  }

  /** Text after the last name of a join extends that name. */
  lemma SiblingJoin(names: seq<string>, last: string, tail: string)
    ensures Join(names + [last + tail], "/") == Join(names + [last], "/") + tail
  {
    var ns := names + [last];
    JoinSuffix(ns, "/", tail);
    assert ns[..|ns| - 1] + [ns[|ns| - 1] + tail] == names + [last + tail];
  }

  /** The same for the absolute path: `/names/last` followed by `tail` is `/names/last+tail`. */
  lemma SiblingPath(names: seq<string>, last: string, tail: string)
    ensures "/" + Join(names + [last + tail], "/") == "/" + Join(names + [last], "/") + tail
  {
    SiblingJoin(names, last, tail);
  }

  /** A sibling `dir + tail` of `dir` does not lie inside it. */
  lemma SiblingOutside(names: seq<string>, last: string, tail: string)
    requires AllNames(names + [last]) && IsName(last + tail) && tail != ""
    ensures var dir := "/" + Join(names + [last], "/");
      !Within(dir + tail, dir)
  {
    var ns := names + [last];
    var walked := names + [last + tail];
    var dir := "/" + Join(ns, "/");
    assert dir + tail == "/" + Join(walked, "/") by {
      SiblingPath(names, last, tail);
    }
    assert AllNames(walked) by {
      assert forall i :: 0 <= i < |names| ==> walked[i] == ns[i];
    }
    var inner, outer := Split(dir, '/'), Split(dir + tail, '/');
    assert inner == [""] + ns by {
      DirectorySegments(dir, ns);
    }
    assert outer == [""] + walked by {
      DirectorySegments(dir + tail, walked);
    }
    assert |inner| == |outer| && outer[..|inner|] == outer;
    assert inner[|ns|] == last && outer[|ns|] == last + tail;
    assert |last + tail| != |last|;
  }

  /** The text `dir//../last+tail` normalises to the sibling `dir + tail`. */
  lemma EscapeNormal(names: seq<string>, last: string, tail: string)
    requires AllNames(names + [last]) && IsName(last + tail) && tail != ""
    ensures var dir := "/" + Join(names + [last], "/");
      Normalize(dir + "/" + "/../" + (last + tail)) == dir + tail
  {
    var ns := names + [last];
    var sib := last + tail;
    var dir := "/" + Join(ns, "/");
    var p := dir + "/" + "/../" + sib;
    var walked := names + [sib];
    assert Resolve([], Split(p, '/'), false) == walked by {
      EscapeSegments(dir, ns, sib);
      EscapeWalk(names, last, sib);
    }
    assert "/" + Join(walked, "/") == dir + tail by {
      SiblingPath(names, last, tail);
    }
    assert p[0] == '/' && p[|p| - 1] != '/' by {
      assert p[|p| - 1] == sib[|sib| - 1];
    }
    assert Join(walked, "/") != "" by {
      assert |dir + tail| >= 2;
    }
    NormalizeWalked(p, walked);
  }

  /**
   * `..` climbs one name: joining `/../` and a name `last + tail` onto a
   * directory whose last name is `last` gives the sibling `dir + tail`.
   */
  lemma EscapeJoin(names: seq<string>, last: string, tail: string)
    requires AllNames(names + [last]) && IsName(last + tail) && tail != ""
    ensures var dir := "/" + Join(names + [last], "/");
      PathJoin(dir, "/../" + (last + tail)) == dir + tail
  {
    var dir := "/" + Join(names + [last], "/");
    var url := "/../" + (last + tail);
    assert PathJoin(dir, url) == Normalize(dir + "/" + url);
    assert dir + "/" + url == dir + "/" + "/../" + (last + tail);
    EscapeNormal(names, last, tail);
  }
}
