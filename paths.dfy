/**
 * POSIX path handling used to canonicalise `ProjectReference` paths:
 * Node's `path.dirname` and `path.resolve`, and the `normalize-path`
 * package, stated on strings split into '/'-separated segments.
 */
module Paths {

  predicate IsAbsolute(p: string) {
    |p| > 0 && p[0] == '/'
  }

  // ---------------------------------------------------------------------
  // Segments
  // ---------------------------------------------------------------------

  /** Splits at every '/', as `s.split('/')` does: n separators give n + 1 segments. */
  function Split(s: string): (segs: seq<string>)
    ensures |segs| >= 1
    decreases |s|
  {
    if s == [] then [""]
    else if s[0] == '/' then [""] + Split(s[1..])
    else
      var rest := Split(s[1..]);
      [[s[0]] + rest[0]] + rest[1..]
  }

  /** No segment holds a '/', and every character of a segment comes from `s`. */
  lemma {:induction false} SplitSegments(s: string)
    ensures forall i :: 0 <= i < |Split(s)| ==> '/' !in Split(s)[i]
    ensures forall i, c :: 0 <= i < |Split(s)| && c in Split(s)[i] ==> c in s
    decreases |s|
  {
    if s != [] {
      SplitSegments(s[1..]);
      assert forall c :: c in s[1..] ==> c in s;
      if s[0] != '/' {
        var rest := Split(s[1..]);
        var segs := [[s[0]] + rest[0]] + rest[1..];
        assert Split(s) == segs;
        forall i | 0 <= i < |segs|
          ensures '/' !in segs[i]
          ensures forall c :: c in segs[i] ==> c in s
        {
          if i > 0 {
            assert segs[i] == rest[i];
          }
        }
      }
    }
  }

  /** Joins segments with '/', as `segs.join('/')` does. */
  function Join(segs: seq<string>): string
    decreases |segs|
  {
    if |segs| == 0 then ""
    else if |segs| == 1 then segs[0]
    else segs[0] + "/" + Join(segs[1..])
  }

  lemma {:induction false} SplitAround(a: string, b: string)
    ensures Split(a + "/" + b) == Split(a) + Split(b)
    decreases |a|
  {
    if a == [] {
      assert a + "/" + b == "/" + b;
      assert ("/" + b)[1..] == b;
    } else {
      assert (a + "/" + b)[0] == a[0];
      assert (a + "/" + b)[1..] == a[1..] + "/" + b;
      SplitAround(a[1..], b);
    }
  }

  lemma {:induction false} SplitWithoutSlash(s: string)
    requires '/' !in s
    ensures Split(s) == [s]
    decreases |s|
  {
    if s != [] {
      assert s[0] in s;
      assert forall c :: c in s[1..] ==> c in s;
      SplitWithoutSlash(s[1..]);
      assert [s[0]] + s[1..] == s;
    }
  }

  /** Joining segments that hold no '/' and splitting again gives the segments back. */
  lemma {:induction false} SplitJoin(segs: seq<string>)
    requires |segs| >= 1
    requires forall i :: 0 <= i < |segs| ==> '/' !in segs[i]
    ensures Split(Join(segs)) == segs
    decreases |segs|
  {
    if |segs| == 1 {
      SplitWithoutSlash(segs[0]);
    } else {
      SplitAround(segs[0], Join(segs[1..]));
      SplitWithoutSlash(segs[0]);
      SplitJoin(segs[1..]);
      assert segs == [segs[0]] + segs[1..];
    }
  }

  lemma {:induction false} JoinAppend(a: seq<string>, b: seq<string>)
    requires |a| >= 1 && |b| >= 1
    ensures Join(a + b) == Join(a) + "/" + Join(b)
    decreases |a|
  {
    if |a| == 1 {
      assert (a + b)[1..] == b;
    } else {
      assert (a + b)[1..] == a[1..] + b;
      JoinAppend(a[1..], b);
    }
  }

  lemma {:induction false} JoinChars(segs: seq<string>, c: char)
    requires c != '/'
    requires forall i :: 0 <= i < |segs| ==> c !in segs[i]
    ensures c !in Join(segs)
    decreases |segs|
  {
    if |segs| > 1 {
      JoinChars(segs[1..], c);
    }
  }

  // ---------------------------------------------------------------------
  // Resolution of '.', '..' and empty segments
  // ---------------------------------------------------------------------

  /** A segment that survives resolution: not empty, not `.`, not `..`. */
  predicate IsNameSegment(s: string) {
    s != "" && s != "." && s != ".."
  }

  predicate AllNameSegments(segs: seq<string>) {
    forall i :: 0 <= i < |segs| ==> IsNameSegment(segs[i]) && '/' !in segs[i]
  }

  /**
   * Node's `normalizeString` for an absolute path, one segment at a time:
   * empty and `.` segments are dropped, `..` removes the last kept segment
   * (and is dropped at the root), every other segment is kept.
   */
  function Normalize(kept: seq<string>, segs: seq<string>): seq<string>
    decreases |segs|
  {
    if segs == [] then kept
    else
      var s := segs[0];
      var kept' :=
        if s == "" || s == "." then kept
        else if s == ".." then (if kept == [] then [] else kept[..|kept| - 1])
        else kept + [s];
      Normalize(kept', segs[1..])
  }

  lemma {:induction false} NormalizeAppend(kept: seq<string>, a: seq<string>, b: seq<string>)
    ensures Normalize(kept, a + b) == Normalize(Normalize(kept, a), b)
    decreases |a|
  {
    if a != [] {
      assert (a + b)[0] == a[0];
      assert (a + b)[1..] == a[1..] + b;
      var s := a[0];
      var kept' :=
        if s == "" || s == "." then kept
        else if s == ".." then (if kept == [] then [] else kept[..|kept| - 1])
        else kept + [s];
      NormalizeAppend(kept', a[1..], b);
    } else {
      assert a + b == b;
    }
  }

  lemma {:induction false} NormalizeKeepsNames(kept: seq<string>, segs: seq<string>)
    requires AllNameSegments(kept)
    requires forall i :: 0 <= i < |segs| ==> '/' !in segs[i]
    ensures AllNameSegments(Normalize(kept, segs))
    decreases |segs|
  {
    if segs != [] {
      var s := segs[0];
      var kept' :=
        if s == "" || s == "." then kept
        else if s == ".." then (if kept == [] then [] else kept[..|kept| - 1])
        else kept + [s];
      assert AllNameSegments(kept');
      NormalizeKeepsNames(kept', segs[1..]);
    }
  }

  lemma {:induction false} NormalizeChars(kept: seq<string>, segs: seq<string>, c: char)
    requires forall i :: 0 <= i < |kept| ==> c !in kept[i]
    requires forall i :: 0 <= i < |segs| ==> c !in segs[i]
    ensures forall i :: 0 <= i < |Normalize(kept, segs)| ==> c !in Normalize(kept, segs)[i]
    decreases |segs|
  {
    if segs != [] {
      var s := segs[0];
      var kept' :=
        if s == "" || s == "." then kept
        else if s == ".." then (if kept == [] then [] else kept[..|kept| - 1])
        else kept + [s];
      NormalizeChars(kept', segs[1..], c);
    }
  }

  /** Without `..` segments nothing already kept is removed again. */
  lemma {:induction false} NormalizeExtends(kept: seq<string>, segs: seq<string>)
    requires ".." !in segs
    ensures kept <= Normalize(kept, segs)
    decreases |segs|
  {
    if segs != [] {
      assert segs[0] != "..";
      assert forall x :: x in segs[1..] ==> x in segs;
      var s := segs[0];
      var kept' := if s == "" || s == "." then kept else kept + [s];
      NormalizeExtends(kept', segs[1..]);
    }
  }

  // ---------------------------------------------------------------------
  // Node's path.dirname, path.resolve and the normalize-path package
  // ---------------------------------------------------------------------

  /** Index of the '/' that ends the directory part, scanning from `i` down to index 1; -1 when there is none. */
  function DirnameEnd(p: string, i: int, matchedSlash: bool): (end: int)
    requires i < |p|
    ensures end == -1 || 1 <= end <= i
    decreases i
  {
    if i < 1 then -1
    else if p[i] == '/' then (if !matchedSlash then i else DirnameEnd(p, i - 1, true))
    else DirnameEnd(p, i - 1, false)
  }

  /** Node's POSIX `path.dirname`. */
  function Dirname(p: string): (d: string)
    ensures |d| > 0
  {
    if |p| == 0 then "."
    else
      var end := DirnameEnd(p, |p| - 1, true);
      if end == -1 then (if p[0] == '/' then "/" else ".")
      else if p[0] == '/' && end == 1 then "//"
      else p[..end]
  }

  /**
   * The `normalize-path` package as far as `path.resolve` can tell: every
   * backslash becomes '/'. Its collapsing of repeated separators and its
   * dropping of a trailing separator only produce empty segments, which
   * resolution discards anyway.
   */
  function NormalizePath(s: string): (r: string)
    ensures |r| == |s|
    decreases |s|
  {
    if s == [] then []
    else [if s[0] == '\\' then '/' else s[0]] + NormalizePath(s[1..])
  }

  /** A directory keeps the absoluteness of its path and adds no characters but '.' and '/'. */
  lemma DirnameProperties(p: string)
    ensures IsAbsolute(Dirname(p)) <==> IsAbsolute(p)
    ensures forall c :: c in Dirname(p) ==> c in p || c == '.' || c == '/'
  {
  }

  /** Every backslash, and nothing else, is replaced by '/'. */
  lemma {:induction false} NormalizePathProperties(s: string)
    ensures forall i :: 0 <= i < |s| ==> NormalizePath(s)[i] == (if s[i] == '\\' then '/' else s[i])
    ensures '\\' !in NormalizePath(s)
    decreases |s|
  {
    if s != [] {
      NormalizePathProperties(s[1..]);
      var r := NormalizePath(s);
      forall i | 0 <= i < |s|
        ensures r[i] == (if s[i] == '\\' then '/' else s[i])
      {
        if i > 0 {
          assert r[i] == NormalizePath(s[1..])[i - 1];
        }
      }
    }
  }

  /** The string `path.resolve` resolves: the path, placed under `cwd` when relative, with a trailing '/'. */
  function ResolveInput(cwd: string, p: string): string {
    if IsAbsolute(p) then p + "/"
    else if p == "" then cwd + "/"
    else cwd + "/" + p + "/"
  }

  /** Node's POSIX `path.resolve(p)` with `cwd` the process's (absolute) working directory. */
  function Resolve(cwd: string, p: string): string
    requires IsAbsolute(cwd)
  {
    "/" + Join(Normalize([], Split(ResolveInput(cwd, p))))
  }

  /** No '.', '..' or empty segment: the root, or '/' followed by name segments. */
  predicate IsCanonical(r: string) {
    r == "/" || (IsAbsolute(r) && AllNameSegments(Split(r[1..])))
  }

  /** Path `r` is directory `d` itself or lies below it. */
  predicate IsUnder(r: string, d: string) {
    r == d || (d == "/" && IsAbsolute(r)) || d + "/" <= r
  }

  lemma ResolveCanonical(cwd: string, p: string)
    requires IsAbsolute(cwd)
    ensures IsCanonical(Resolve(cwd, p))
  {
    var segs := Normalize([], Split(ResolveInput(cwd, p)));
    SplitSegments(ResolveInput(cwd, p));
    NormalizeKeepsNames([], Split(ResolveInput(cwd, p)));
    var r := Resolve(cwd, p);
    if segs != [] {
      assert r[1..] == Join(segs);
      SplitJoin(segs);
    }
  }

  lemma ResolveChars(cwd: string, p: string, c: char)
    requires IsAbsolute(cwd)
    requires c != '/' && c !in cwd && c !in p
    ensures c !in Resolve(cwd, p)
  {
    var input := ResolveInput(cwd, p);
    assert c !in input;
    SplitSegments(input);
    var segs := Normalize([], Split(input));
    NormalizeChars([], Split(input), c);
    JoinChars(segs, c);
  }

  /**
   * `getAbsolutePathToFile` (lib/manager/nuget/tree.ts:41-43): the Include
   * path, backslashes made '/', appended to the directory of `fromFile`
   * and resolved. The result is absolute and canonical, free of '\' when
   * `fromFile` and the working directory are, and lies under the resolved
   * directory of `fromFile` whenever the Include has no `..` segment:
   * in particular an Include that starts with '/' is placed under it too.
   */
  function GetAbsolutePathToFile(cwd: string, fromFile: string, toFile: string): string
    requires IsAbsolute(cwd)
  {
    Resolve(cwd, Dirname(fromFile) + "/" + NormalizePath(toFile))
  }

  /**
   * What `getAbsolutePathToFile` promises about its result: it is absolute
   * and canonical, free of '\' when `fromFile` and the working directory
   * are, and it lies under the resolved directory of `fromFile` whenever
   * the Include has no `..` segment; in particular an Include that starts
   * with '/' is placed under that directory too.
   */
  lemma GetAbsolutePathToFileProperties(cwd: string, fromFile: string, toFile: string)
    requires IsAbsolute(cwd)
    ensures var r := GetAbsolutePathToFile(cwd, fromFile, toFile);
      && IsAbsolute(r) && IsCanonical(r)
      && ('\\' !in cwd && '\\' !in fromFile ==> '\\' !in r)
      && (".." !in Split(NormalizePath(toFile)) ==> IsUnder(r, Resolve(cwd, Dirname(fromFile))))
  {
    var dir := Dirname(fromFile);
    var joined := dir + "/" + NormalizePath(toFile);
    ResolveCanonical(cwd, joined);
    if '\\' !in cwd && '\\' !in fromFile {
      DirnameProperties(fromFile);
      NormalizePathProperties(toFile);
      assert '\\' !in dir;
      assert '\\' !in joined;
      ResolveChars(cwd, joined, '\\');
    }
    if ".." !in Split(NormalizePath(toFile)) {
      UnderDirectory(cwd, dir, NormalizePath(toFile));
    }
  }

  /** What `path.resolve` prepends to a relative `dir`, and the two inputs split around it. */
  lemma ResolveInputs(cwd: string, dir: string, t: string)
    requires IsAbsolute(cwd) && dir != ""
    ensures var prefix := if IsAbsolute(dir) then dir else cwd + "/" + dir;
      && Split(ResolveInput(cwd, dir)) == Split(prefix) + [""]
      && Split(ResolveInput(cwd, dir + "/" + t)) == Split(prefix) + (Split(t) + [""])
  {
    var joined := dir + "/" + t;
    assert joined[0] == dir[0];
    var prefix := if IsAbsolute(dir) then dir else cwd + "/" + dir;
    assert ResolveInput(cwd, dir) == prefix + "/" + "";
    assert ResolveInput(cwd, joined) == prefix + "/" + (t + "/" + "");
    SplitAround(prefix, "");
    SplitAround(prefix, t + "/" + "");
    SplitAround(t, "");
  }

  lemma UnderDirectory(cwd: string, dir: string, t: string)
    requires IsAbsolute(cwd) && dir != ""
    requires ".." !in Split(t)
    ensures IsUnder(Resolve(cwd, dir + "/" + t), Resolve(cwd, dir))
  {
    var prefix := if IsAbsolute(dir) then dir else cwd + "/" + dir;
    ResolveInputs(cwd, dir, t);
    var base := Normalize([], Split(prefix));
    NormalizeAppend([], Split(prefix), [""]);
    NormalizeAppend([], Split(prefix), Split(t) + [""]);
    assert ".." !in Split(t) + [""];
    NormalizeExtends(base, Split(t) + [""]);
    var full := Normalize(base, Split(t) + [""]);
    JoinedUnder(base, full);
  }

  lemma JoinedUnder(base: seq<string>, full: seq<string>)
    requires base <= full
    ensures IsUnder("/" + Join(full), "/" + Join(base))
  {
    if base != [] && full != base {
      var rest := full[|base|..];
      assert full == base + rest;
      JoinAppend(base, rest);
      assert "/" + Join(full) == ("/" + Join(base)) + "/" + Join(rest);
    }
  }
}
