/**
 * What `getProjectFileAncestors` computes, stated over the dictionary it
 * starts from: as a set, its result is exactly the project files from
 * which a chain of project references leads to the starting file.
 */
module ProjectTreeProps {
  import opened Paths
  import opened ProjectTree

  /** A chain of project references: each file but the last is an entry of `e` and references the next. */
  ghost predicate IsChain(deps: Deps, e: map<string, seq<string>>, c: seq<string>)
  {
    |c| >= 1 && forall i :: 0 <= i < |c| - 1 ==> c[i] in e && References(deps, c[i], e[c[i]], c[i + 1])
  }

  /** A chain of references in `e` leads from `x` to `p` (possibly the empty chain, `x == p`). */
  ghost predicate Reaches(deps: Deps, e: map<string, seq<string>>, x: string, p: string)
  {
    exists c :: IsChain(deps, e, c) && c[0] == x && c[|c| - 1] == p
  }

  /** No entry of `d` references any file of `r`. */
  ghost predicate Closed(deps: Deps, d: Dict, r: seq<string>)
  {
    forall k, y :: k in d.entries && y in r ==> !References(deps, k, d.entries[k], y)
  }

  lemma ReachesSelf(deps: Deps, e: map<string, seq<string>>, p: string)
    ensures Reaches(deps, e, p, p)
  {
    assert IsChain(deps, e, [p]);
  }

  lemma ReachesExtend(deps: Deps, e: map<string, seq<string>>, x: string, c: string, t: string)
    requires Reaches(deps, e, x, c)
    requires c in e && References(deps, c, e[c], t)
    ensures Reaches(deps, e, x, t)
  {
    var ch :| IsChain(deps, e, ch) && ch[0] == x && ch[|ch| - 1] == c;
    var ch' := ch + [t];
    assert IsChain(deps, e, ch') by {
      forall i | 0 <= i < |ch'| - 1
        ensures ch'[i] in e && References(deps, ch'[i], e[ch'[i]], ch'[i + 1])
      {
        if i < |ch| - 1 {
          assert ch'[i] == ch[i] && ch'[i + 1] == ch[i + 1];
        } else {
          assert ch'[i] == c && ch'[i + 1] == t;
        }
      }
    }
    assert ch'[0] == x && ch'[|ch'| - 1] == t;
  }

  lemma ReachesSubmap(deps: Deps, e: map<string, seq<string>>, e': map<string, seq<string>>, x: string, p: string)
    requires IsSubmap(e, e') && Reaches(deps, e, x, p)
    ensures Reaches(deps, e', x, p)
  {
    var ch :| IsChain(deps, e, ch) && ch[0] == x && ch[|ch| - 1] == p;
    assert IsChain(deps, e', ch);
  }

  lemma EmptyIfNoMember(s: seq<string>)
    ensures (forall x :: x !in s) ==> s == []
  {
    if s != [] {
      assert s[0] in s;
    }
  }

  // ---------------------------------------------------------------------
  // Soundness: every file returned leads to the starting file
  // ---------------------------------------------------------------------

  lemma {:induction false} AncestorsSound(deps: Deps, d: Dict, p: string)
    requires d.Valid()
    ensures forall x :: x in Ancestors(deps, d, p).0 ==> Reaches(deps, d.entries, x, p)
    decreases Measure(d, p), 1, 0
  {
    var next := Referrers(deps, d.entries, d.order, p);
    AncestorsUnfold(deps, d, p);
    var d1 := d.Without({p});
    var rest := AncestorsAll(deps, d1, next, Measure(d, p));
    assert forall c :: c in next ==> c in d.entries && References(deps, c, d.entries[c], p);
    assert IsSubmap(d1.entries, d.entries);
    AncestorsAllSound(deps, d1, next, Measure(d, p), p, d.entries);
    forall x | x in Ancestors(deps, d, p).0
      ensures Reaches(deps, d.entries, x, p)
    {
      if x == p {
        ReachesSelf(deps, d.entries, p);
      } else {
        assert x in rest.0;
      }
    }
  }

  lemma {:induction false} AncestorsAllSound(deps: Deps, d: Dict, cs: seq<string>, bound: nat, t: string, e: map<string, seq<string>>)
    requires d.Valid()
    requires forall c :: c in cs ==> Measure(d, c) < bound
    requires IsSubmap(d.entries, e)
    requires forall c :: c in cs ==> c in e && References(deps, c, e[c], t)
    ensures forall x :: x in AncestorsAll(deps, d, cs, bound).0 ==> Reaches(deps, e, x, t)
    decreases bound, 0, |cs|
  {
    if cs != [] {
      AncestorsAllStep(deps, d, cs, bound);
      var first := Ancestors(deps, d, cs[0]);
      var rest := AncestorsAll(deps, first.1, cs[1..], bound);
      AncestorsSound(deps, d, cs[0]);
      assert forall c :: c in cs[1..] ==> c in cs;
      AncestorsAllSound(deps, first.1, cs[1..], bound, t, e);
      forall x | x in first.0
        ensures Reaches(deps, e, x, t)
      {
        ReachesSubmap(deps, d.entries, e, x, cs[0]);
        ReachesExtend(deps, e, x, cs[0], t);
      }
    }
  }

  // ---------------------------------------------------------------------
  // Closure: no file left in the dictionary references a returned file
  // ---------------------------------------------------------------------

  lemma {:induction false} AncestorsClosed(deps: Deps, d: Dict, p: string)
    requires d.Valid()
    ensures Closed(deps, Ancestors(deps, d, p).1, Ancestors(deps, d, p).0)
    decreases Measure(d, p), 1, 0
  {
    var next := Referrers(deps, d.entries, d.order, p);
    AncestorsUnfold(deps, d, p);
    var d1 := d.Without({p});
    var rest := AncestorsAll(deps, d1, next, Measure(d, p));
    AncestorsAllClosed(deps, d1, next, Measure(d, p));
    var res := Ancestors(deps, d, p);
    forall k, y | k in res.1.entries && y in res.0
      ensures !References(deps, k, res.1.entries[k], y)
    {
      if y == p {
        assert k in d.entries && res.1.entries[k] == d.entries[k];
        assert k !in Elems(res.0);
        assert k !in next;
      } else {
        assert y in rest.0;
      }
    }
  }

  lemma {:induction false} AncestorsAllClosed(deps: Deps, d: Dict, cs: seq<string>, bound: nat)
    requires d.Valid()
    requires forall c :: c in cs ==> Measure(d, c) < bound
    ensures Closed(deps, AncestorsAll(deps, d, cs, bound).1, AncestorsAll(deps, d, cs, bound).0)
    decreases bound, 0, |cs|
  {
    if cs == [] {
      AncestorsAllEmpty(deps, d, cs, bound);
    } else {
      AncestorsAllStep(deps, d, cs, bound);
      var first := Ancestors(deps, d, cs[0]);
      var rest := AncestorsAll(deps, first.1, cs[1..], bound);
      AncestorsClosed(deps, d, cs[0]);
      AncestorsAllClosed(deps, first.1, cs[1..], bound);
      forall k, y | k in rest.1.entries && y in first.0 + rest.0
        ensures !References(deps, k, rest.1.entries[k], y)
      {
        if y in first.0 {
          assert k in first.1.entries && rest.1.entries[k] == first.1.entries[k];
        }
      }
    }
  }

  // ---------------------------------------------------------------------
  // Completeness: every file that leads to the starting file is returned
  // ---------------------------------------------------------------------

  lemma {:induction false} ChainInResult(deps: Deps, d: Dict, r: seq<string>, left: Dict, c: seq<string>, i: nat)
    requires d.Valid()
    requires left.entries == d.entries - Elems(r) && Closed(deps, left, r)
    requires IsChain(deps, d.entries, c) && c[|c| - 1] in r
    requires i < |c|
    ensures c[i] in r
    decreases |c| - i
  {
    if i < |c| - 1 {
      ChainInResult(deps, d, r, left, c, i + 1);
      assert c[i] in d.entries && References(deps, c[i], d.entries[c[i]], c[i + 1]);
      assert c[i] !in left.entries;
      assert c[i] in Elems(r);
    }
  }

  /**
   * `getProjectFileAncestors(map, p)` returns, as a set, exactly the
   * files from which a chain of project references in `map` leads to `p`
   * (`p` itself included).
   */
  lemma AncestorsExact(deps: Deps, d: Dict, p: string)
    requires d.Valid()
    ensures forall x :: x in Ancestors(deps, d, p).0 <==> Reaches(deps, d.entries, x, p)
  {
    var res := Ancestors(deps, d, p);
    AncestorsSound(deps, d, p);
    AncestorsClosed(deps, d, p);
    forall x | Reaches(deps, d.entries, x, p)
      ensures x in res.0
    {
      var c :| IsChain(deps, d.entries, c) && c[0] == x && c[|c| - 1] == p;
      ChainInResult(deps, d, res.0, res.1, c, 0);
    }
  }

  /** The dictionary is left holding exactly the entries of the files that do not lead to `p`. */
  lemma AncestorsLeaveRest(deps: Deps, d: Dict, p: string)
    requires d.Valid()
    ensures forall k :: k in Ancestors(deps, d, p).1.entries <==> k in d.entries && !Reaches(deps, d.entries, k, p)
    ensures forall k :: k in Ancestors(deps, d, p).1.entries ==> Ancestors(deps, d, p).1.entries[k] == d.entries[k]
  {
    var res := Ancestors(deps, d, p);
    AncestorsExact(deps, d, p);
    assert res.1.entries == d.entries - Elems(res.0);
    forall k
      ensures k in res.1.entries <==> k in d.entries && !Reaches(deps, d.entries, k, p)
    {
      assert k in Elems(res.0) <==> k in res.0;
    }
  }

  /**
   * `getProjectFileDependencies` gives one path per Include value, in
   * document order, each resolved against the referencing file; so a
   * file references `target` exactly
   * when `target` is the resolution of one of its Include values against
   * the file's own directory; such a target is absolute and canonical.
   */
  lemma ResolvedReferences(cwd: string, file: string, includes: seq<string>, target: string)
    requires IsAbsolute(cwd)
    ensures |ResolvedDeps(cwd)(file, includes)| == |includes|
    ensures forall i :: 0 <= i < |includes| ==> ResolvedDeps(cwd)(file, includes)[i] == GetAbsolutePathToFile(cwd, file, includes[i])
    ensures References(ResolvedDeps(cwd), file, includes, target)
        <==> exists i :: 0 <= i < |includes| && target == GetAbsolutePathToFile(cwd, file, includes[i])
    ensures References(ResolvedDeps(cwd), file, includes, target) ==> IsAbsolute(target) && IsCanonical(target)
  {
    var deps := GetProjectFileDependencies(cwd, file, includes);
    assert ResolvedDeps(cwd)(file, includes) == deps;
    if target in deps {
      var i :| 0 <= i < |deps| && deps[i] == target;
      GetAbsolutePathToFileProperties(cwd, file, includes[i]);
    }
    if exists i :: 0 <= i < |includes| && target == GetAbsolutePathToFile(cwd, file, includes[i]) {
      var i :| 0 <= i < |includes| && target == GetAbsolutePathToFile(cwd, file, includes[i]);
      assert deps[i] == target;
    }
  }

  // ---------------------------------------------------------------------
  // Particular dictionaries
  // ---------------------------------------------------------------------

  /** A file nothing references is returned alone, and only its own entry is deleted. */
  lemma NoReferrers(deps: Deps, d: Dict, p: string)
    requires d.Valid()
    requires forall k :: k in d.entries ==> !References(deps, k, d.entries[k], p)
    ensures Ancestors(deps, d, p) == ([p], d.Without({p}))
  {
    AncestorsUnfold(deps, d, p);
    EmptyIfNoMember(Referrers(deps, d.entries, d.order, p));
    AncestorsAllEmpty(deps, d.Without({p}), [], Measure(d, p));
    assert [p] + [] == [p];
  }

  /**
   * Two files referencing each other: the traversal stops, because each
   * visited file's entry is deleted before its referrers are visited.
   */
  lemma MutualReferences(deps: Deps, a: string, b: string, ia: seq<string>, ib: seq<string>)
    requires a != b
    requires References(deps, a, ia, b) && References(deps, b, ib, a)
    requires !References(deps, a, ia, a) && !References(deps, b, ib, b)
    ensures Dict([a, b], map[a := ia, b := ib]).Valid()
    ensures Ancestors(deps, Dict([a, b], map[a := ia, b := ib]), a) == ([a, b], Dict([], map[]))
  {
    PairAncestors(deps, a, b, ia, ib);
  }

  /**
   * The result is a list, not a set: with keys in the order t, x, y, where
   * x references t and y references both t and x, the result is
   * `[t, x, y, y]`. The visit of x already visits and deletes y; the
   * pending visit of y, as a referrer of t, then runs on an empty
   * dictionary and still returns y.
   */
  lemma DuplicateInResult(deps: Deps, t: string, x: string, y: string, it: seq<string>, ix: seq<string>, iy: seq<string>)
    requires t != x && t != y && x != y
    requires References(deps, x, ix, t) && References(deps, y, iy, t) && References(deps, y, iy, x)
    requires !References(deps, t, it, t) && !References(deps, x, ix, x) && !References(deps, y, iy, y)
    ensures Dict([t, x, y], map[t := it, x := ix, y := iy]).Valid()
    ensures Ancestors(deps, Dict([t, x, y], map[t := it, x := ix, y := iy]), t).0 == [t, x, y, y]
  {
    var d := Dict([t, x, y], map[t := it, x := ix, y := iy]);
    TripleFacts(deps, t, x, y, it, ix, iy);
    AncestorsUnfold(deps, d, t);
    var m := Measure(d, t);
    var d1 := Dict([x, y], map[x := ix, y := iy]);
    var all := AncestorsAll(deps, d1, [x, y], m);
    assert Ancestors(deps, d, t) == ([t] + all.0, all.1);
    SiblingDeletes(deps, d1, t, x, y, ix, iy, m);
    DisplayFacts(t, x, y);
  }

  lemma TripleFacts(deps: Deps, t: string, x: string, y: string, it: seq<string>, ix: seq<string>, iy: seq<string>)
    requires t != x && t != y && x != y
    requires References(deps, x, ix, t) && References(deps, y, iy, t) && !References(deps, t, it, t)
    ensures Dict([t, x, y], map[t := it, x := ix, y := iy]).Valid()
    ensures Referrers(deps, map[t := it, x := ix, y := iy], [t, x, y], t) == [x, y]
    ensures Dict([t, x, y], map[t := it, x := ix, y := iy]).Without({t}) == Dict([x, y], map[x := ix, y := iy])
  {
    TripleReferrers(deps, t, x, y, it, ix, iy);
    TripleWithout(t, x, y, it, ix, iy);
  }

  lemma TripleReferrers(deps: Deps, t: string, x: string, y: string, it: seq<string>, ix: seq<string>, iy: seq<string>)
    requires t != x && t != y && x != y
    requires References(deps, x, ix, t) && References(deps, y, iy, t) && !References(deps, t, it, t)
    ensures Referrers(deps, map[t := it, x := ix, y := iy], [t, x, y], t) == [x, y]
  {
    var e := map[t := it, x := ix, y := iy];
    ReferrersFirstTwo(deps, t, x, y, it, ix, iy);
    ReferrersSnoc(deps, e, [t, x], y, t);
    assert [t, x] + [y] == [t, x, y];
    assert e[y] == iy;
    assert [x] + [y] == [x, y];
  }

  lemma ReferrersFirstTwo(deps: Deps, t: string, x: string, y: string, it: seq<string>, ix: seq<string>, iy: seq<string>)
    requires t != x && t != y && x != y
    requires References(deps, x, ix, t) && !References(deps, t, it, t)
    ensures Referrers(deps, map[t := it, x := ix, y := iy], [t, x], t) == [x]
  {
    var e := map[t := it, x := ix, y := iy];
    assert e[t] == it && e[x] == ix;
    ReferrersSnoc(deps, e, [], t, t);
    assert [] + [t] == [t];
    ReferrersSnoc(deps, e, [t], x, t);
    assert [t] + [x] == [t, x];
  }

  lemma ReferrersSnoc(deps: Deps, e: map<string, seq<string>>, keys: seq<string>, last: string, target: string)
    requires forall k :: k in keys ==> k in e
    requires last in e
    ensures forall i :: 0 <= i < |keys + [last]| ==> (keys + [last])[i] in e
    ensures Referrers(deps, e, keys + [last], target)
         == Referrers(deps, e, keys, target) + (if References(deps, last, e[last], target) then [last] else [])
  {
    var ks := keys + [last];
    assert ks[..|ks| - 1] == keys && ks[|ks| - 1] == last;
  }

  lemma TripleWithout(t: string, x: string, y: string, it: seq<string>, ix: seq<string>, iy: seq<string>)
    requires t != x && t != y && x != y
    ensures Dict([t, x, y], map[t := it, x := ix, y := iy]).Valid()
    ensures Dict([t, x, y], map[t := it, x := ix, y := iy]).Without({t}) == Dict([x, y], map[x := ix, y := iy])
  {
    var d := Dict([t, x, y], map[t := it, x := ix, y := iy]);
    TripleValid(t, x, y, it, ix, iy);
    TripleFilter(t, x, y);
    TripleMinus(t, x, y, it, ix, iy);
    assert d.Without({t}) == Dict(FilterOut(d.order, {t}), d.entries - {t});
  }

  lemma TripleFilter(t: string, x: string, y: string)
    requires t != x && t != y
    ensures FilterOut([t, x, y], {t}) == [x, y]
  {
    FilterOutCons(y, [], {t});
    assert [y] + [] == [y];
    FilterOutCons(x, [y], {t});
    assert [x] + [y] == [x, y];
    FilterOutCons(t, [x, y], {t});
    assert [t] + [x, y] == [t, x, y];
  }

  lemma TripleValid(t: string, x: string, y: string, it: seq<string>, ix: seq<string>, iy: seq<string>)
    requires t != x && t != y && x != y
    ensures Dict([t, x, y], map[t := it, x := ix, y := iy]).Valid()
  {
    var d := Dict([t, x, y], map[t := it, x := ix, y := iy]);
    forall i, j | 0 <= i < j < |d.order|
      ensures d.order[i] != d.order[j]
    {
    }
    forall k
      ensures k in d.order <==> k in d.entries
    {
    }
  }

  lemma FilterOutCons(x: string, s: seq<string>, out: set<string>)
    ensures FilterOut([x] + s, out) == (if x in out then [] else [x]) + FilterOut(s, out)
  {
    assert ([x] + s)[0] == x && ([x] + s)[1..] == s;
  }

  /** The x-then-y part of `DuplicateInResult`. */
  lemma SiblingDeletes(deps: Deps, d: Dict, t: string, x: string, y: string, ix: seq<string>, iy: seq<string>, bound: nat)
    requires x != y && d == Dict([x, y], map[x := ix, y := iy])
    requires References(deps, y, iy, x) && !References(deps, x, ix, x) && !References(deps, y, iy, y)
    requires Measure(d, x) < bound && Measure(d, y) < bound
    ensures AncestorsAll(deps, d, [x, y], bound).0 == [x, y, y]
  {
    PairFacts(deps, x, y, ix, iy);
    AncestorsAllStep(deps, d, [x, y], bound);
    PairAncestors(deps, x, y, ix, iy);
    assert [x, y][1..] == [y];
    EmptyLone(deps, y, bound);
    DisplayFacts(t, x, y);
  }

  /** Started from `a`, with only `b` referencing `a`: both are returned and both entries deleted. */
  lemma PairAncestors(deps: Deps, a: string, b: string, ia: seq<string>, ib: seq<string>)
    requires a != b
    requires References(deps, b, ib, a) && !References(deps, a, ia, a) && !References(deps, b, ib, b)
    ensures Dict([a, b], map[a := ia, b := ib]).Valid()
    ensures Ancestors(deps, Dict([a, b], map[a := ia, b := ib]), a) == ([a, b], Dict([], map[]))
  {
    var d := Dict([a, b], map[a := ia, b := ib]);
    var m := Measure(d, a);
    PairFacts(deps, a, b, ia, ib);
    AncestorsUnfold(deps, d, a);
    var rest := AncestorsAll(deps, Dict([b], map[b := ib]), [b], m);
    assert Ancestors(deps, d, a) == ([a] + rest.0, rest.1);
    LoneFile(deps, Dict([b], map[b := ib]), b, ib, m);
    PairConcat(a, b);
  }

  lemma PairFacts(deps: Deps, a: string, b: string, ia: seq<string>, ib: seq<string>)
    requires a != b
    requires References(deps, b, ib, a) && !References(deps, a, ia, a)
    ensures Dict([a, b], map[a := ia, b := ib]).Valid()
    ensures Referrers(deps, map[a := ia, b := ib], [a, b], a) == [b]
    ensures Dict([a, b], map[a := ia, b := ib]).Without({a}) == Dict([b], map[b := ib])
  {
    var d := Dict([a, b], map[a := ia, b := ib]);
    var e := d.entries;
    assert e[a] == ia && e[b] == ib;
    assert Referrers(deps, e, [a], a) == [] by {
      assert [a][..0] == [];
    }
    assert Referrers(deps, e, [a, b], a) == [] + [b] by {
      assert [a, b][..1] == [a];
    }
    assert FilterOut([b], {a}) == [b] by { assert [b][1..] == []; }
    assert d.order[1..] == [b];
    assert FilterOut(d.order, {a}) == [b];
    assert d.entries - {a} == map[b := ib];
    assert d.Without({a}) == Dict(FilterOut(d.order, {a}), d.entries - {a});
  }

  lemma LoneFile(deps: Deps, d: Dict, b: string, ib: seq<string>, bound: nat)
    requires d == Dict([b], map[b := ib])
    requires !References(deps, b, ib, b) && Measure(d, b) < bound
    ensures AncestorsAll(deps, d, [b], bound) == ([b], Dict([], map[]))
  {
    AncestorsAllStep(deps, d, [b], bound);
    NoReferrers(deps, d, b);
    assert [b][1..] == [];
    assert FilterOut([b], {b}) == [] by { assert [b][1..] == []; }
    assert d.entries - {b} == map[];
    assert d.Without({b}) == Dict([], map[]);
    AncestorsAllEmpty(deps, d.Without({b}), [], bound);
    assert [b] + [] == [b];
  }

  /** A file visited once the dictionary is empty is returned alone. */
  lemma EmptyLone(deps: Deps, y: string, bound: nat)
    requires Measure(Dict([], map[]), y) < bound
    ensures AncestorsAll(deps, Dict([], map[]), [y], bound) == ([y], Dict([], map[]))
  {
    var e := Dict([], map[]);
    AncestorsAllStep(deps, e, [y], bound);
    NoReferrers(deps, e, y);
    assert FilterOut([], {y}) == [];
    assert e.Without({y}) == e;
    assert [y][1..] == [];
    AncestorsAllEmpty(deps, e, [], bound);
    assert [y] + [] == [y];
  }

  lemma DisplayFacts(t: string, x: string, y: string)
    ensures [t] + [x, y, y] == [t, x, y, y]
    ensures [x, y] + [y] == [x, y, y]
  {
  }

  lemma TripleMinus(t: string, x: string, y: string, it: seq<string>, ix: seq<string>, iy: seq<string>)
    requires t != x && t != y
    ensures map[t := it, x := ix, y := iy] - {t} == map[x := ix, y := iy]
  {
  }

  lemma PairConcat(a: string, b: string)
    ensures [a] + ([b] + []) == [a, b]
  {
  }
}
