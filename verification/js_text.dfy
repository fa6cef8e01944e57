/**
 * The JavaScript string operations the servers and the simulator rely on:
 * `trim`, `split` on one character, `join`, `startsWith`/`endsWith`,
 * `padStart` with one filler character, `substr` and an ASCII `toLowerCase`.
 */
module JsText {

  /** White space and line terminators, the characters `String.prototype.trim` and `parseFloat` skip. */
  predicate IsJsSpace(c: char) {
    || c == ' ' || c == '\t' || c == '\n' || c == '\r' || c == '\U{B}' || c == '\U{C}'
    || c == '\U{A0}' || c == '\U{FEFF}' || c == '\U{1680}' || ('\U{2000}' <= c <= '\U{200A}')
    || c == '\U{2028}' || c == '\U{2029}' || c == '\U{202F}' || c == '\U{205F}' || c == '\U{3000}'
  }

  /** Drops the leading white space. */
  function TrimStart(s: string): (r: string)
    ensures |r| <= |s| && r == s[|s| - |r|..]
    ensures forall i :: 0 <= i < |s| - |r| ==> IsJsSpace(s[i])
    ensures r != [] ==> !IsJsSpace(r[0])
  {
    if s != [] && IsJsSpace(s[0]) then TrimStart(s[1..]) else s
  }

  /** Drops the trailing white space. */
  function TrimEnd(s: string): (r: string)
    ensures |r| <= |s| && r == s[..|r|]
    ensures forall i :: |r| <= i < |s| ==> IsJsSpace(s[i])
    ensures r != [] ==> !IsJsSpace(r[|r| - 1])
  {
    if s != [] && IsJsSpace(s[|s| - 1]) then TrimEnd(s[..|s| - 1]) else s
  }

  /** `s.trim()`. */
  function Trim(s: string): string {
    TrimEnd(TrimStart(s))
  }

  /** A string that neither starts nor ends with white space is its own trim. */
  lemma TrimUnchanged(s: string)
    requires s != [] ==> !IsJsSpace(s[0]) && !IsJsSpace(s[|s| - 1])
    ensures Trim(s) == s
  {
  }

  predicate StartsWith(s: string, prefix: string) {
    |prefix| <= |s| && s[..|prefix|] == prefix
  }

  predicate EndsWith(s: string, suffix: string) {
    |suffix| <= |s| && s[|s| - |suffix|..] == suffix
  }

  /** A suffix's first character sits `|suffix|` places from the end. */
  lemma EndsWithFirst(s: string, suffix: string)
    requires suffix != ""
    ensures EndsWith(s, suffix) ==> s[|s| - |suffix|] == suffix[0]
  {
    if EndsWith(s, suffix) {
      assert s[|s| - |suffix|..][0] == suffix[0];
    }
  }

  /** The first position of `c` in `s`. */
  function IndexOf(s: string, c: char): (i: nat)
    requires c in s
    ensures i < |s| && s[i] == c && c !in s[..i]
  {
    if s[0] == c then 0 else 1 + IndexOf(s[1..], c)
  }

  /** `fs.join(sep)`. */
  function Join(fs: seq<string>, sep: string): string {
    if fs == [] then ""
    else if |fs| == 1 then fs[0]
    else fs[0] + sep + Join(fs[1..], sep)
  }

  /** `s.split(sep)` for a one-character separator: the pieces between the separators, in order. */
  function Split(s: string, sep: char): (r: seq<string>)
    ensures |r| >= 1
    ensures forall i :: 0 <= i < |r| ==> sep !in r[i]
    ensures Join(r, [sep]) == s
    decreases |s|
  {
    if sep !in s then [s]
    else
      var i := IndexOf(s, sep);
      assert s == s[..i] + [sep] + s[i + 1..];
      [s[..i]] + Split(s[i + 1..], sep)
  }

  /** Splitting undoes joining, as long as no piece holds the separator. */
  lemma {:induction false} SplitJoin(fs: seq<string>, sep: char)
    requires fs != []
    requires forall i :: 0 <= i < |fs| ==> sep !in fs[i]
    ensures Split(Join(fs, [sep]), sep) == fs
  {
    if |fs| > 1 {
      var s := Join(fs, [sep]);
      var rest := Join(fs[1..], [sep]);
      assert s == fs[0] + [sep] + rest;
      assert s[..|fs[0]|] == fs[0];
      assert s[|fs[0]|] == sep;
      assert sep in s;
      var i := IndexOf(s, sep);
      assert i == |fs[0]|;
      assert s[i + 1..] == rest;
      SplitJoin(fs[1..], sep);
      assert Split(s, sep) == [fs[0]] + fs[1..];
    }
  }

  /** Joining two non-empty runs of pieces puts one separator between their joins. */
  lemma {:induction false} JoinAppend(xs: seq<string>, ys: seq<string>, sep: string)
    requires xs != [] && ys != []
    ensures Join(xs + ys, sep) == Join(xs, sep) + sep + Join(ys, sep)
  {
    if |xs| > 1 {
      assert (xs + ys)[1..] == xs[1..] + ys;
      JoinAppend(xs[1..], ys, sep);
    }
  }

  /** Splitting text at a separator splits the two sides apart. */
  lemma SplitAppend(a: string, b: string, sep: char)
    ensures Split(a + [sep] + b, sep) == Split(a, sep) + Split(b, sep)
  {
    var xs, ys := Split(a, sep), Split(b, sep);
    JoinAppend(xs, ys, [sep]);
    assert forall i :: 0 <= i < |xs + ys| ==> sep !in (xs + ys)[i] by {
      forall i | 0 <= i < |xs + ys|
        ensures sep !in (xs + ys)[i]
      {
        if i >= |xs| {
          assert (xs + ys)[i] == ys[i - |xs|];
        }
      }
    }
    SplitJoin(xs + ys, sep);
  }

  /** A join starts with the first character of a non-empty first piece. */
  lemma JoinHead(fs: seq<string>, sep: string)
    requires fs != [] && fs[0] != ""
    ensures Join(fs, sep) != "" && Join(fs, sep)[0] == fs[0][0]
  {
  }

  /** A join ends with the last character of a non-empty last piece. */
  lemma {:induction false} JoinTail(fs: seq<string>, sep: string)
    requires fs != [] && fs[|fs| - 1] != ""
    ensures var s := Join(fs, sep); s != "" && s[|s| - 1] == fs[|fs| - 1][|fs[|fs| - 1]| - 1]
  {
    if |fs| > 1 {
      JoinTail(fs[1..], sep);
    }
  }

  /** Text put in front of a join goes in front of its first piece. */
  lemma JoinPrefix(p: string, fs: seq<string>, sep: string)
    requires fs != []
    ensures p + Join(fs, sep) == Join([p + fs[0]] + fs[1..], sep)
  {
    var gs := [p + fs[0]] + fs[1..];
    if |fs| > 1 {
      assert gs[1..] == fs[1..];
    }
  }

  /** Text put after a join goes after its last piece. */
  lemma {:induction false} JoinSuffix(fs: seq<string>, sep: string, t: string)
    requires fs != []
    ensures Join(fs, sep) + t == Join(fs[..|fs| - 1] + [fs[|fs| - 1] + t], sep)
  {
    var gs := fs[..|fs| - 1] + [fs[|fs| - 1] + t];
    if |fs| > 1 {
      JoinSuffix(fs[1..], sep, t);
      assert gs[1..] == fs[1..][..|fs[1..]| - 1] + [fs[1..][|fs[1..]| - 1] + t];
    }
  }

  /** `n` copies of `c`. */
  function Repeat(c: char, n: nat): (r: string)
    ensures |r| == n && forall i :: 0 <= i < n ==> r[i] == c
  {
    if n == 0 then "" else [c] + Repeat(c, n - 1)
  }

  /** `s.padStart(n, c)`: fillers in front up to length `n`; a longer string is kept whole. */
  function PadStart(s: string, n: nat, c: char): (r: string)
    ensures |r| == if |s| < n then n else |s|
    ensures EndsWith(r, s)
    ensures forall i :: 0 <= i < |r| - |s| ==> r[i] == c
  {
    if |s| < n then Repeat(c, n - |s|) + s else s
  }

  /** `s.substr(start, length)` for non-negative arguments: both ends are clamped to the string. */
  function Substr(s: string, start: nat, length: nat): (r: string)
    ensures |r| <= length
    ensures start + length <= |s| ==> r == s[start..start + length]
  {
    var from := if start < |s| then start else |s|;
    var to := if from + length < |s| then from + length else |s|;
    s[from..to]
  }

  function ToLowerChar(c: char): char {
    if 'A' <= c <= 'Z' then (c as int + 32) as char else c
  }

  /** `s.toLowerCase()` on the ASCII letters; other characters are kept. */
  function ToLower(s: string): (r: string)
    ensures |r| == |s| && forall i :: 0 <= i < |s| ==> r[i] == ToLowerChar(s[i])
  {
    if s == [] then "" else [ToLowerChar(s[0])] + ToLower(s[1..])
  }

  /** Text without upper-case ASCII letters is its own lower case. */
  lemma ToLowerUnchanged(s: string)
    requires forall i :: 0 <= i < |s| ==> !('A' <= s[i] <= 'Z')
    ensures ToLower(s) == s
  {
  }
}
