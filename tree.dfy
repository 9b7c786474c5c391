/**
 * The ancestor traversal of the NuGet manager (lib/manager/nuget/tree.ts):
 * which project files reference a given project file, directly or
 * transitively, found by scanning a shared dictionary from project-file
 * path to content and deleting each visited file's entry from it.
 *
 * The XML content of a project file is represented by what the traversal
 * reads from it: the `Include` attribute values of its `ProjectReference`
 * elements, in document order.
 */
module ProjectTree {
  import opened Paths

  /** The extensions `getAllProjectFiles` searches the repository for (tree.ts:30). */
  const ProjectFileExtensions: seq<string> := ["csproj", "vbproj", "fsproj"]

  // ---------------------------------------------------------------------
  // References of one project file
  // ---------------------------------------------------------------------

  /**
   * `getProjectFileDependencies`: one canonical absolute path per
   * `ProjectReference`, in document order, each resolved against the
   * referencing file.
   */
  function GetProjectFileDependencies(cwd: string, projectFilePath: string, includes: seq<string>): (deps: seq<string>)
    requires IsAbsolute(cwd)
    ensures |deps| == |includes|
  {
    seq(|includes|, i requires 0 <= i < |includes| => GetAbsolutePathToFile(cwd, projectFilePath, includes[i]))
  }

  /**
   * What the traversal reads from one dictionary entry: the paths a project
   * file references, given its path and its Include values. The traversal
   * is stated for any such function; `getProjectFileAncestors` uses
   * `ResolvedDeps`.
   */
  type Deps = (string, seq<string>) -> seq<string>

  /** `getProjectFileDependencies`, resolving against working directory `cwd`. */
  function ResolvedDeps(cwd: string): (deps: Deps)
    requires IsAbsolute(cwd)
  {
    (file, includes) => GetProjectFileDependencies(cwd, file, includes)
  }

  /** Project file `file`, with Include values `includes`, references `target`. */
  predicate References(deps: Deps, file: string, includes: seq<string>, target: string) {
    target in deps(file, includes)
  }

  // ---------------------------------------------------------------------
  // The content dictionary
  // ---------------------------------------------------------------------

  predicate Distinct(s: seq<string>) {
    forall i, j :: 0 <= i < j < |s| ==> s[i] != s[j]
  }

  function Elems(s: seq<string>): set<string> {
    set x | x in s
  }

  /** `s` without the elements of `out`, order kept. */
  function FilterOut(s: seq<string>, out: set<string>): (r: seq<string>)
    ensures forall x :: x in r <==> x in s && x !in out
    decreases |s|
  {
    if s == [] then []
    else (if s[0] in out then [] else [s[0]]) + FilterOut(s[1..], out)
  }

  lemma {:induction false} FilterOutDistinct(s: seq<string>, out: set<string>)
    requires Distinct(s)
    ensures Distinct(FilterOut(s, out))
    decreases |s|
  {
    if s != [] {
      FilterOutDistinct(s[1..], out);
      assert s[0] !in s[1..];
    }
  }

  lemma {:induction false} FilterOutTwice(s: seq<string>, a: set<string>, b: set<string>)
    ensures FilterOut(FilterOut(s, a), b) == FilterOut(s, a + b)
    decreases |s|
  {
    if s != [] {
      var x := s[0];
      var tail := FilterOut(s[1..], a);
      FilterOutTwice(s[1..], a, b);
      if x in a {
        assert FilterOut(s, a) == tail;
        assert FilterOut(s, a + b) == FilterOut(s[1..], a + b);
      } else {
        var t := [x] + tail;
        assert FilterOut(s, a) == t;
        assert t[0] == x && t[1..] == tail;
        assert FilterOut(t, b) == (if x in b then [] else [x]) + FilterOut(tail, b);
        assert FilterOut(s, a + b) == (if x in b then [] else [x]) + FilterOut(s[1..], a + b);
      }
    }
  }

  /**
   * A JavaScript object used as a dictionary from project-file path to
   * content: `order` is its key iteration order (insertion order).
   */
  datatype Dict = Dict(order: seq<string>, entries: map<string, seq<string>>) {

    ghost predicate Valid() {
      Distinct(order) && forall k :: k in order <==> k in entries
    }

    /** The dictionary after `delete` of every key in `out`. */
    function Without(out: set<string>): (d: Dict)
      requires Valid()
      ensures d.Valid()
      ensures d.entries == entries - out
    {
      FilterOutDistinct(order, out);
      Dict(FilterOut(order, out), entries - out)
    }
  }

  lemma {:induction false} FilterOutNothing(s: seq<string>)
    ensures FilterOut(s, {}) == s
    decreases |s|
  {
    if s != [] {
      FilterOutNothing(s[1..]);
    }
  }

  lemma WithoutNothing(d: Dict)
    requires d.Valid()
    ensures d.Without({}) == d
  {
    FilterOutNothing(d.order);
    assert d.entries - {} == d.entries;
  }

  lemma WithoutTwice(d: Dict, a: set<string>, b: set<string>)
    requires d.Valid()
    ensures d.Without(a).Without(b) == d.Without(a + b)
  {
    FilterOutTwice(d.order, a, b);
    assert d.entries - a - b == d.entries - (a + b);
  }

  /** Every entry of `a` is an entry of `b`, with the same content. */
  ghost predicate IsSubmap(a: map<string, seq<string>>, b: map<string, seq<string>>) {
    forall k :: k in a ==> k in b && a[k] == b[k]
  }

  // ---------------------------------------------------------------------
  // The ancestor traversal
  // ---------------------------------------------------------------------

  /** The keys, among `keys`, whose references contain `target`, in the order of `keys`. */
  function Referrers(deps: Deps, entries: map<string, seq<string>>, keys: seq<string>, target: string): (r: seq<string>)
    requires forall i :: 0 <= i < |keys| ==> keys[i] in entries
    ensures forall x :: x in r <==> x in keys && References(deps, x, entries[x], target)
    decreases |keys|
  {
    if keys == [] then []
    else
      var last := keys[|keys| - 1];
      Referrers(deps, entries, keys[..|keys| - 1], target)
        + (if References(deps, last, entries[last], target) then [last] else [])
  }

  /**
   * What bounds the traversal: each call removes its own key when present,
   * and scans only keys present at scan time.
   */
  ghost function Measure(d: Dict, p: string): nat {
    2 * |d.entries.Keys| + (if p in d.entries then 0 else 1)
  }

  lemma SubsetCard(a: set<string>, b: set<string>)
    requires a <= b
    ensures |a| <= |b|
    ensures (exists x :: x in b && x !in a) ==> |a| < |b|
  {
    assert b == a + (b - a);
    assert a * (b - a) == {};
    if exists x :: x in b && x !in a {
      var x :| x in b && x !in a;
      assert x in b - a;
    }
  }

  lemma MeasureShrinks(d: Dict, d': Dict, c: string)
    requires d'.entries.Keys <= d.entries.Keys
    ensures Measure(d', c) <= Measure(d, c)
  {
    SubsetCard(d'.entries.Keys, d.entries.Keys);
    if c in d.entries && c !in d'.entries {
      assert c in d.entries.Keys && c !in d'.entries.Keys;
    }
  }

  /**
   * `getProjectFileAncestors(map, p)` (tree.ts:53-64) as a function of the
   * dictionary: the result and the dictionary left behind. The result
   * starts with `p`; afterwards exactly the keys that occur in the result
   * have been deleted, and every other entry is untouched.
   */
  function Ancestors(deps: Deps, d: Dict, p: string): (res: (seq<string>, Dict))
    requires d.Valid()
    ensures |res.0| >= 1 && res.0[0] == p
    ensures res.1.Valid()
    ensures res.1 == d.Without(Elems(res.0))
    decreases Measure(d, p), 1, 0
  {
    var next := Referrers(deps, d.entries, d.order, p);
    ScanBound(d, p, next);
    var rest := AncestorsAll(deps, d.Without({p}), next, Measure(d, p));
    PrependFrame(d, p, rest.0, rest.1);
    ([p] + rest.0, rest.1)
  }

  lemma PrependFrame(d: Dict, p: string, found: seq<string>, left: Dict)
    requires d.Valid()
    requires left == d.Without({p}).Without(Elems(found))
    ensures left == d.Without(Elems([p] + found))
  {
    WithoutTwice(d, {p}, Elems(found));
    assert Elems([p] + found) == {p} + Elems(found);
  }

  lemma ScanBound(d: Dict, p: string, next: seq<string>)
    requires d.Valid()
    requires forall c :: c in next ==> c in d.order
    ensures forall c :: c in next ==> Measure(d.Without({p}), c) < Measure(d, p)
  {
    var d1 := d.Without({p});
    assert d1.entries.Keys == d.entries.Keys - {p};
    SubsetCard(d1.entries.Keys, d.entries.Keys);
    forall c | c in next
      ensures Measure(d1, c) < Measure(d, p)
    {
      assert c in d.entries;
      if p in d.entries {
        assert p in d.entries.Keys && p !in d1.entries.Keys;
      } else {
        assert c in d1.entries;
      }
    }
  }

  /** The calls `checkNext.map(f => getProjectFileAncestors(map, f))`, one after the other, flattened. */
  function AncestorsAll(deps: Deps, d: Dict, cs: seq<string>, ghost bound: nat): (res: (seq<string>, Dict))
    requires d.Valid()
    requires forall c :: c in cs ==> Measure(d, c) < bound
    ensures res.1.Valid()
    ensures res.1 == d.Without(Elems(res.0))
    ensures forall c :: c in cs ==> c in res.0
    decreases bound, 0, |cs|
  {
    if cs == [] then
      WithoutNothing(d);
      assert Elems([]) == {};
      ([], d)
    else
      var first := Ancestors(deps, d, cs[0]);
      assert forall c :: c in cs[1..] ==> c in cs;
      AllShrink(d, first.1, cs[1..], bound);
      var rest := AncestorsAll(deps, first.1, cs[1..], bound);
      ConcatFrame(d, first.0, first.1, rest.0, rest.1);
      (first.0 + rest.0, rest.1)
  }

  lemma ConcatFrame(d: Dict, found1: seq<string>, left1: Dict, found2: seq<string>, left2: Dict)
    requires d.Valid()
    requires left1 == d.Without(Elems(found1))
    requires left2 == left1.Without(Elems(found2))
    ensures left2 == d.Without(Elems(found1 + found2))
  {
    WithoutTwice(d, Elems(found1), Elems(found2));
    assert Elems(found1 + found2) == Elems(found1) + Elems(found2);
  }

  lemma AllShrink(d: Dict, d': Dict, cs: seq<string>, bound: nat)
    requires d'.entries.Keys <= d.entries.Keys
    requires forall c :: c in cs ==> Measure(d, c) < bound
    ensures forall c :: c in cs ==> Measure(d', c) < bound
  {
    forall c | c in cs ensures Measure(d', c) < bound {
      MeasureShrinks(d, d', c);
    }
  }

  lemma AncestorsUnfold(deps: Deps, d: Dict, p: string)
    requires d.Valid()
    ensures forall c :: c in Referrers(deps, d.entries, d.order, p) ==> Measure(d.Without({p}), c) < Measure(d, p)
    ensures var rest := AncestorsAll(deps, d.Without({p}), Referrers(deps, d.entries, d.order, p), Measure(d, p));
      Ancestors(deps, d, p) == ([p] + rest.0, rest.1)
  {
    ScanBound(d, p, Referrers(deps, d.entries, d.order, p));
  }

  lemma AncestorsAllStep(deps: Deps, d: Dict, cs: seq<string>, bound: nat)
    requires d.Valid() && cs != []
    requires forall c :: c in cs ==> Measure(d, c) < bound
    ensures forall c :: c in cs[1..] ==> Measure(Ancestors(deps, d, cs[0]).1, c) < bound
    ensures var first := Ancestors(deps, d, cs[0]);
      var rest := AncestorsAll(deps, first.1, cs[1..], bound);
      AncestorsAll(deps, d, cs, bound) == (first.0 + rest.0, rest.1)
  {
    assert forall c :: c in cs[1..] ==> c in cs;
    AllShrink(d, Ancestors(deps, d, cs[0]).1, cs[1..], bound);
  }

  lemma ConcatAssoc(a: seq<string>, b: seq<string>, c: seq<string>)
    ensures a + (b + c) == (a + b) + c
  {
  }

  /** One turn of the loop over the referrers, for `GetProjectFileAncestors`. */
  lemma VisitNext(deps: Deps, d: Dict, cs: seq<string>, bound: nat, found: seq<string>, total: (seq<string>, Dict))
    requires d.Valid() && cs != []
    requires forall c :: c in cs ==> Measure(d, c) < bound
    requires total == (found + AncestorsAll(deps, d, cs, bound).0, AncestorsAll(deps, d, cs, bound).1)
    ensures var first := Ancestors(deps, d, cs[0]);
      && (forall c :: c in cs[1..] ==> Measure(first.1, c) < bound)
      && total == ((found + first.0) + AncestorsAll(deps, first.1, cs[1..], bound).0,
                   AncestorsAll(deps, first.1, cs[1..], bound).1)
  {
    AncestorsAllStep(deps, d, cs, bound);
    var first := Ancestors(deps, d, cs[0]);
    ConcatAssoc(found, first.0, AncestorsAll(deps, first.1, cs[1..], bound).0);
  }

  lemma AncestorsAllEmpty(deps: Deps, d: Dict, cs: seq<string>, bound: nat)
    requires d.Valid() && cs == []
    ensures AncestorsAll(deps, d, cs, bound) == ([], d)
  {
    WithoutNothing(d);
  }

  // ---------------------------------------------------------------------
  // The in-place traversal
  // ---------------------------------------------------------------------

  /** The content dictionary that `getProjectFileAncestors` mutates. */
  class ProjectFileMap {
    var order: seq<string>
    var entries: map<string, seq<string>>

    function Value(): Dict
      reads this
    {
      Dict(order, entries)
    }

    ghost predicate Valid()
      reads this
    {
      Value().Valid()
    }

    constructor (d: Dict)
      requires d.Valid()
      ensures Valid() && Value() == d
    {
      order := d.order;
      entries := d.entries;
    }

    /** `delete map[key]`: removes the key if present; nothing else changes. */
    method Delete(key: string)
      requires Valid()
      modifies this
      ensures Valid() && Value() == old(Value()).Without({key})
    {
      FilterOutDistinct(order, {key});
      order := FilterOut(order, {key});
      entries := entries - {key};
    }
  }

  /**
   * The `for (const fileName in map)` scan of `getProjectFileAncestors`
   * (tree.ts:54-59): the keys whose resolved references contain
   * `projectFile`, in key order.
   */
  method ScanReferrers(cwd: string, m: ProjectFileMap, projectFile: string) returns (checkNext: seq<string>)
    requires IsAbsolute(cwd) && m.Valid()
    ensures checkNext == Referrers(ResolvedDeps(cwd), m.entries, m.order, projectFile)
  {
    checkNext := [];
    var i := 0;
    while i < |m.order|
      invariant 0 <= i <= |m.order|
      invariant checkNext == Referrers(ResolvedDeps(cwd), m.entries, m.order[..i], projectFile)
    {
      var fileName := m.order[i];
      ghost var prefix := m.order[..i + 1];
      assert prefix[..i] == m.order[..i] && prefix[i] == fileName;
      if projectFile in GetProjectFileDependencies(cwd, fileName, m.entries[fileName]) {
        checkNext := checkNext + [fileName];
      }
      i := i + 1;
    }
    assert m.order[..i] == m.order;
  }

  /**
   * `getProjectFileAncestors` (tree.ts:53-64): scans the dictionary for
   * files that reference `projectFile`, deletes `projectFile`'s own entry,
   * then visits each referrer, in order, over the mutated dictionary.
   */
  method GetProjectFileAncestors(cwd: string, m: ProjectFileMap, projectFile: string) returns (result: seq<string>)
    requires IsAbsolute(cwd) && m.Valid()
    modifies m
    ensures m.Valid()
    ensures (result, m.Value()) == Ancestors(ResolvedDeps(cwd), old(m.Value()), projectFile)
    decreases Measure(m.Value(), projectFile), 1
  {
    ghost var d0 := m.Value();
    var checkNext := ScanReferrers(cwd, m, projectFile);
    AncestorsUnfold(ResolvedDeps(cwd), d0, projectFile);
    m.Delete(projectFile);
    var found := VisitReferrers(cwd, m, checkNext, Measure(d0, projectFile));
    result := [projectFile] + found;
  }

  /**
   * `checkNext.map(f => getProjectFileAncestors(map, f)).flat()`
   * (tree.ts:63): the referrers are visited one after the other, each over
   * the dictionary its predecessors left behind, and the results are
   * concatenated in order.
   */
  method VisitReferrers(cwd: string, m: ProjectFileMap, checkNext: seq<string>, ghost bound: nat) returns (found: seq<string>)
    requires IsAbsolute(cwd) && m.Valid()
    requires forall c :: c in checkNext ==> Measure(m.Value(), c) < bound
    modifies m
    ensures m.Valid()
    ensures (found, m.Value()) == AncestorsAll(ResolvedDeps(cwd), old(m.Value()), checkNext, bound)
    decreases bound, 0
  {
    ghost var deps := ResolvedDeps(cwd);
    ghost var total := AncestorsAll(deps, m.Value(), checkNext, bound);
    found := [];
    var j := 0;
    assert checkNext[0..] == checkNext;
    assert found + total.0 == total.0;
    while j < |checkNext|
      invariant 0 <= j <= |checkNext|
      invariant m.Valid()
      invariant forall c :: c in checkNext[j..] ==> Measure(m.Value(), c) < bound
      invariant total.0 == found + AncestorsAll(deps, m.Value(), checkNext[j..], bound).0
      invariant total.1 == AncestorsAll(deps, m.Value(), checkNext[j..], bound).1
    {
      VisitNext(deps, m.Value(), checkNext[j..], bound, found, total);
      assert checkNext[j..][0] == checkNext[j] && checkNext[j..][1..] == checkNext[j + 1..];
      var r := GetProjectFileAncestors(cwd, m, checkNext[j]);
      found := found + r;
      j := j + 1;
    }
    AncestorsAllEmpty(deps, m.Value(), checkNext[j..], bound);
    assert found + [] == found;
  }
}
