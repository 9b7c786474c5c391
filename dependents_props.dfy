/**
 * What `getDependentProjectFiles` computes on an acyclic reference graph:
 * as a set, the files reached from the start by one or more references;
 * and it fails exactly when one of the start file and those files cannot
 * be read as XML.
 */
module DependentProjectsProps {
  import opened Wrappers
  import opened NugetHost
  import opened DependentProjects

  /** Each file of `c` but the last lists the next one among its references. */
  ghost predicate IsRefChain(host: Host, files: map<string, string>, c: seq<string>) {
    |c| >= 1 && forall i :: 0 <= i < |c| - 1 ==> c[i + 1] in RefsOf(host, files, c[i])
  }

  /** One or more references lead from `p` down to `x`. */
  ghost predicate ReachesDown(host: Host, files: map<string, string>, p: string, x: string) {
    exists c :: IsRefChain(host, files, c) && |c| >= 2 && c[0] == p && c[|c| - 1] == x
  }

  /** `p` and every file below it can be read as XML. */
  ghost predicate AllParse(host: Host, files: map<string, string>, p: string) {
    forall f :: (f == p || ReachesDown(host, files, p, f)) ==> ExtractAt(host, files, f).Includes?
  }

  lemma ReachesDirect(host: Host, files: map<string, string>, p: string, q: string)
    requires q in RefsOf(host, files, p)
    ensures ReachesDown(host, files, p, q)
  {
    var c := [p, q];
    assert IsRefChain(host, files, c);
  }

  lemma ReachesPrepend(host: Host, files: map<string, string>, p: string, q: string, x: string)
    requires q in RefsOf(host, files, p) && ReachesDown(host, files, q, x)
    ensures ReachesDown(host, files, p, x)
  {
    var c :| IsRefChain(host, files, c) && |c| >= 2 && c[0] == q && c[|c| - 1] == x;
    var c' := [p] + c;
    assert IsRefChain(host, files, c') by {
      forall i | 0 <= i < |c'| - 1
        ensures c'[i + 1] in RefsOf(host, files, c'[i])
      {
        if i > 0 {
          assert c'[i] == c[i - 1] && c'[i + 1] == c[i];
        }
      }
    }
    assert c'[0] == p && c'[|c'| - 1] == x;
  }

  // ---------------------------------------------------------------------
  // Soundness
  // ---------------------------------------------------------------------

  lemma {:induction false} DependentsSound(host: Host, files: map<string, string>, p: string, rank: map<string, nat>)
    requires Ranked(host, files, rank) && p in rank
    ensures var r := GetDependentProjectFiles(host, files, p, rank);
      r.Ok? ==> forall x :: x in r.value ==> ReachesDown(host, files, p, x)
    decreases rank[p], 1, 0
  {
    var r := GetDependentProjectFiles(host, files, p, rank);
    if r.Ok? && ExtractAt(host, files, p).Includes? {
      var ps := ExtractAt(host, files, p).paths;
      assert RefsOf(host, files, p) == ps;
      if |ps| > 0 {
        var all := GetDependentProjectFilesAll(host, files, ps, rank, rank[p]);
        DependentsAllSound(host, files, ps, rank, rank[p]);
        assert all.Ok? && r.value == ps + all.value;
        assert forall y :: y in all.value ==> exists q :: q in ps && ReachesDown(host, files, q, y);
        forall x | x in r.value
          ensures ReachesDown(host, files, p, x)
        {
          if x in ps {
            ReachesDirect(host, files, p, x);
          } else {
            assert x in all.value;
            assert exists q :: q in ps && ReachesDown(host, files, q, x);
            var q :| q in ps && ReachesDown(host, files, q, x);
            ReachesPrepend(host, files, p, q, x);
          }
        }
      }
    }
  }

  lemma {:induction false} DependentsAllSound(host: Host, files: map<string, string>, ps: seq<string>, rank: map<string, nat>, bound: nat)
    requires Ranked(host, files, rank)
    requires forall q :: q in ps ==> q in rank && rank[q] < bound
    ensures var r := GetDependentProjectFilesAll(host, files, ps, rank, bound);
      r.Ok? ==> forall x :: x in r.value ==> exists q :: q in ps && ReachesDown(host, files, q, x)
    decreases bound, 0, |ps|
  {
    if ps != [] {
      var r := GetDependentProjectFilesAll(host, files, ps, rank, bound);
      DependentsSound(host, files, ps[0], rank);
      assert forall q :: q in ps[1..] ==> q in ps;
      DependentsAllSound(host, files, ps[1..], rank, bound);
      if r.Ok? {
        assert GetDependentProjectFiles(host, files, ps[0], rank).Ok?;
        assert GetDependentProjectFilesAll(host, files, ps[1..], rank, bound).Ok?;
        var first := GetDependentProjectFiles(host, files, ps[0], rank).value;
        var rest := GetDependentProjectFilesAll(host, files, ps[1..], rank, bound).value;
        assert r.value == first + rest;
        forall x | x in r.value
          ensures exists q :: q in ps && ReachesDown(host, files, q, x)
        {
          if x in first {
            assert ps[0] in ps;
          } else {
            assert x in rest;
            var q :| q in ps[1..] && ReachesDown(host, files, q, x);
            assert q in ps;
          }
        }
      }
    }
  }

  // ---------------------------------------------------------------------
  // Completeness
  // ---------------------------------------------------------------------

  /** A successful fan-out contains the successful result of every member. */
  lemma {:induction false} AllContains(host: Host, files: map<string, string>, ps: seq<string>, rank: map<string, nat>, bound: nat, q: string)
    requires Ranked(host, files, rank)
    requires forall q :: q in ps ==> q in rank && rank[q] < bound
    requires GetDependentProjectFilesAll(host, files, ps, rank, bound).Ok? && q in ps
    ensures GetDependentProjectFiles(host, files, q, rank).Ok?
    ensures forall x :: x in GetDependentProjectFiles(host, files, q, rank).value ==> x in GetDependentProjectFilesAll(host, files, ps, rank, bound).value
    decreases |ps|
  {
    if q != ps[0] {
      assert q in ps[1..];
      assert forall q :: q in ps[1..] ==> q in ps;
      AllContains(host, files, ps[1..], rank, bound, q);
    }
  }

  lemma {:induction false} ChainInDependents(host: Host, files: map<string, string>, rank: map<string, nat>, c: seq<string>)
    requires Ranked(host, files, rank) && |c| >= 2 && c[0] in rank
    requires IsRefChain(host, files, c)
    requires GetDependentProjectFiles(host, files, c[0], rank).Ok?
    ensures c[|c| - 1] in GetDependentProjectFiles(host, files, c[0], rank).value
    decreases |c|
  {
    var p := c[0];
    var ps := RefsOf(host, files, p);
    assert ExtractAt(host, files, p).Includes? && ExtractAt(host, files, p).paths == ps;
    assert c[1] in ps;
    if |c| > 2 {
      var all := GetDependentProjectFilesAll(host, files, ps, rank, rank[p]);
      AllContains(host, files, ps, rank, rank[p], c[1]);
      var c' := c[1..];
      assert IsRefChain(host, files, c') by {
        forall i | 0 <= i < |c'| - 1
          ensures c'[i + 1] in RefsOf(host, files, c'[i])
        {
          assert c'[i] == c[i + 1] && c'[i + 1] == c[i + 2];
        }
      }
      ChainInDependents(host, files, rank, c');
      assert c'[|c'| - 1] == c[|c| - 1];
    }
  }

  /**
   * On success, `getDependentProjectFiles(p)` holds, as a set, exactly the
   * files one or more references below `p`; `p` itself is not among them.
   */
  lemma DependentsExact(host: Host, files: map<string, string>, p: string, rank: map<string, nat>)
    requires Ranked(host, files, rank) && p in rank
    requires GetDependentProjectFiles(host, files, p, rank).Ok?
    ensures forall x :: x in GetDependentProjectFiles(host, files, p, rank).value <==> ReachesDown(host, files, p, x)
    ensures p !in GetDependentProjectFiles(host, files, p, rank).value
  {
    DependentsSound(host, files, p, rank);
    forall x | ReachesDown(host, files, p, x)
      ensures x in GetDependentProjectFiles(host, files, p, rank).value
    {
      var c :| IsRefChain(host, files, c) && |c| >= 2 && c[0] == p && c[|c| - 1] == x;
      ChainInDependents(host, files, rank, c);
    }
  }

  // ---------------------------------------------------------------------
  // When it fails
  // ---------------------------------------------------------------------

  lemma {:induction false} OkAlongChain(host: Host, files: map<string, string>, rank: map<string, nat>, c: seq<string>)
    requires Ranked(host, files, rank) && |c| >= 1 && c[0] in rank
    requires IsRefChain(host, files, c)
    requires GetDependentProjectFiles(host, files, c[0], rank).Ok?
    ensures c[|c| - 1] in rank && GetDependentProjectFiles(host, files, c[|c| - 1], rank).Ok?
    decreases |c|
  {
    if |c| > 1 {
      var p := c[0];
      var ps := RefsOf(host, files, p);
      assert ExtractAt(host, files, p).Includes? && ExtractAt(host, files, p).paths == ps;
      assert c[1] in ps;
      AllContains(host, files, ps, rank, rank[p], c[1]);
      var c' := c[1..];
      assert IsRefChain(host, files, c') by {
        forall i | 0 <= i < |c'| - 1
          ensures c'[i + 1] in RefsOf(host, files, c'[i])
        {
          assert c'[i] == c[i + 1] && c'[i + 1] == c[i + 2];
        }
      }
      OkAlongChain(host, files, rank, c');
      assert c'[|c'| - 1] == c[|c| - 1];
    }
  }

  lemma {:induction false} OkWhenAllParse(host: Host, files: map<string, string>, p: string, rank: map<string, nat>)
    requires Ranked(host, files, rank) && p in rank
    requires AllParse(host, files, p)
    ensures GetDependentProjectFiles(host, files, p, rank).Ok?
    decreases rank[p], 1, 0
  {
    var ps := RefsOf(host, files, p);
    assert ExtractAt(host, files, p).Includes?;
    if |ps| > 0 {
      forall q | q in ps
        ensures AllParse(host, files, q)
      {
        ReachesDirect(host, files, p, q);
        forall f | ReachesDown(host, files, q, f)
          ensures ReachesDown(host, files, p, f)
        {
          ReachesPrepend(host, files, p, q, f);
        }
      }
      OkWhenAllParseAll(host, files, ps, rank, rank[p]);
    }
  }

  lemma {:induction false} OkWhenAllParseAll(host: Host, files: map<string, string>, ps: seq<string>, rank: map<string, nat>, bound: nat)
    requires Ranked(host, files, rank)
    requires forall q :: q in ps ==> q in rank && rank[q] < bound
    requires forall q :: q in ps ==> AllParse(host, files, q)
    ensures GetDependentProjectFilesAll(host, files, ps, rank, bound).Ok?
    decreases bound, 0, |ps|
  {
    if ps != [] {
      OkWhenAllParse(host, files, ps[0], rank);
      assert forall q :: q in ps[1..] ==> q in ps;
      OkWhenAllParseAll(host, files, ps[1..], rank, bound);
    }
  }

  /** `getDependentProjectFiles(p)` succeeds if and only if `p` and every file below it parse. */
  lemma DependentsOkIff(host: Host, files: map<string, string>, p: string, rank: map<string, nat>)
    requires Ranked(host, files, rank) && p in rank
    ensures GetDependentProjectFiles(host, files, p, rank).Ok? <==> AllParse(host, files, p)
  {
    if GetDependentProjectFiles(host, files, p, rank).Ok? {
      forall f | f == p || ReachesDown(host, files, p, f)
        ensures ExtractAt(host, files, f).Includes?
      {
        if f == p {
        } else {
          var c :| IsRefChain(host, files, c) && |c| >= 2 && c[0] == p && c[|c| - 1] == f;
          OkAlongChain(host, files, rank, c);
        }
      }
    } else if AllParse(host, files, p) {
      OkWhenAllParse(host, files, p, rank);
    }
  }

  /**
   * No references give an empty list, a content that does not parse gives
   * its error, and a list that comes back starts with the direct
   * references, as authored and in document order.
   */
  lemma DependentsShape(host: Host, files: map<string, string>, p: string, rank: map<string, nat>)
    requires Ranked(host, files, rank) && p in rank
    ensures ExtractAt(host, files, p) == Includes([]) ==> GetDependentProjectFiles(host, files, p, rank) == Ok([])
    ensures ExtractAt(host, files, p).ParseError?
        ==> GetDependentProjectFiles(host, files, p, rank) == Err(ExtractAt(host, files, p).message)
    ensures ExtractAt(host, files, p).Includes? && GetDependentProjectFiles(host, files, p, rank).Ok?
        ==> ExtractAt(host, files, p).paths <= GetDependentProjectFiles(host, files, p, rank).value
  {
  }
}
