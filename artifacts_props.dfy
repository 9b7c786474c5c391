/**
 * What `updateArtifacts` promises: the gates stop before any effect; a
 * result names the sibling lock file and appears only when the lock
 * file's content changed; failures become an artifact error unless they
 * are the temporary-error sentinel; the configuration directory is
 * removed only after a successful `exec`; and the projects restored are
 * the ones below the package file.
 */
module ArtifactsProps {
  import opened Wrappers
  import opened NugetHost
  import opened SourceCommands
  import opened DependentProjects
  import opened DependentProjectsProps
  import opened Artifacts
  import ProjectTree

  // ---------------------------------------------------------------------
  // The file-name gate and the searched extensions
  // ---------------------------------------------------------------------

  function LowerAscii(c: char): char {
    if 'A' <= c <= 'Z' then (c as int + 32) as char else c
  }

  function Lowered(s: string): (r: string)
    ensures |r| == |s|
    ensures forall i :: 0 <= i < |s| ==> r[i] == LowerAscii(s[i])
  {
    seq(|s|, i requires 0 <= i < |s| => LowerAscii(s[i]))
  }

  lemma CharFold(c: char, l: char)
    requires 'a' <= l <= 'z'
    ensures UpperAscii(c) == UpperAscii(l) <==> LowerAscii(c) == l
  {
  }

  predicate LowerLetters(lit: string) {
    forall i :: 0 <= i < |lit| ==> 'a' <= lit[i] <= 'z'
  }

  lemma IgnoreCaseIsLowered(s: string, lit: string)
    requires LowerLetters(lit)
    ensures EqualsIgnoreCase(s, lit) <==> Lowered(s) == lit
  {
    if |s| == |lit| {
      forall i | 0 <= i < |s|
        ensures UpperAscii(s[i]) == UpperAscii(lit[i]) <==> Lowered(s)[i] == lit[i]
      {
        CharFold(s[i], lit[i]);
      }
    }
  }

  lemma LoweredSlice(s: string, a: nat, b: nat)
    requires a <= b <= |s|
    ensures Lowered(s)[a..b] == Lowered(s[a..b])
  {
  }

  /**
   * The case-insensitive pattern `updateArtifacts` tests the file name
   * with accepts exactly the names whose ASCII-lower-cased form ends with
   * one of the extensions `getAllProjectFiles` searches for.
   */
  lemma PatternMatchesExtensions(name: string)
    ensures MatchesProjectFilePattern(name)
        <==> exists e :: e in ProjectTree.ProjectFileExtensions && EndsWith(Lowered(name), e)
  {
    EndsWithExtension(name);
    if |name| >= 6 {
      PatternOnLastSix(name);
    }
  }

  lemma PatternOnLastSix(name: string)
    requires |name| >= 6
    ensures MatchesProjectFilePattern(name) <==> Lowered(name)[|name| - 6..] in ProjectTree.ProjectFileExtensions
  {
    var n := |name|;
    var head := name[n - 6..n - 4];
    var tail := name[n - 4..];
    LoweredSlice(name, n - 6, n - 4);
    LoweredSlice(name, n - 4, n);
    assert name[n - 4..n] == tail;
    assert Lowered(name)[n - 6..] == Lowered(head) + Lowered(tail);
    IgnoreCaseIsLowered(head, "cs");
    IgnoreCaseIsLowered(head, "vb");
    IgnoreCaseIsLowered(head, "fs");
    IgnoreCaseIsLowered(tail, "proj");
    SixParts(Lowered(head), Lowered(tail));
  }

  lemma SixParts(h: string, t: string)
    requires |h| == 2
    ensures h + t in ProjectTree.ProjectFileExtensions <==> (h == "cs" || h == "vb" || h == "fs") && t == "proj"
  {
    ConcatEq(h, t, "cs", "proj");
    ConcatEq(h, t, "vb", "proj");
    ConcatEq(h, t, "fs", "proj");
    assert "cs" + "proj" == "csproj" && "vb" + "proj" == "vbproj" && "fs" + "proj" == "fsproj";
  }

  lemma EndsWithExtension(name: string)
    ensures (exists e :: e in ProjectTree.ProjectFileExtensions && EndsWith(Lowered(name), e))
        <==> |name| >= 6 && Lowered(name)[|name| - 6..] in ProjectTree.ProjectFileExtensions
  {
    var exts := ProjectTree.ProjectFileExtensions;
    forall e | e in exts
      ensures EndsWith(Lowered(name), e) <==> |name| >= 6 && Lowered(name)[|name| - 6..] == e
    {
    }
    if |name| >= 6 && Lowered(name)[|name| - 6..] in exts {
      assert EndsWith(Lowered(name), Lowered(name)[|name| - 6..]);
    }
  }

  lemma ConcatEq(a: string, b: string, x: string, y: string)
    requires |a| == |x|
    ensures a + b == x + y <==> a == x && b == y
  {
    if a + b == x + y {
      assert a == (a + b)[..|a|] && x == (x + y)[..|x|];
      assert b == (a + b)[|a|..] && y == (x + y)[|x|..];
    }
  }

  // ---------------------------------------------------------------------
  // Commands handed to exec
  // ---------------------------------------------------------------------

  /**
   * Registries come from the configuration whenever the lookup gives a
   * list, even an empty one; the defaults only when it gives none.
   */
  lemma RegistrySelection(host: Host, packageFileName: string, nugetConfigFile: string)
    ensures var configured := host.configuredRegistries(packageFileName, host.localDir);
      && (configured.Some? ==> SourceCmds(host, Registries(host, packageFileName), nugetConfigFile) == SourceCmds(host, configured.value, nugetConfigFile))
      && (configured == Some([]) ==> SourceCmds(host, Registries(host, packageFileName), nugetConfigFile) == [])
      && (configured.None? ==> SourceCmds(host, Registries(host, packageFileName), nugetConfigFile) == SourceCmds(host, host.defaultRegistries, nugetConfigFile))
  {
  }

  /**
   * `cmds.shift()` drops the first assembled command: the first
   * `add source` command when there is a registry, otherwise the first
   * `restore` command. Every other command keeps its order, one place
   * earlier.
   */
  lemma ExecutedCmdsShape(host: Host, packageFileName: string, projects: seq<string>)
    ensures var cfg := NugetConfigFile(host);
      var src := SourceCmds(host, Registries(host, packageFileName), cfg);
      var cmds := ExecutedCmds(host, packageFileName, projects);
      && |src| == |Registries(host, packageFileName)|
      && |cmds| == (if |src| + |projects| == 0 then 0 else |src| + |projects| - 1)
      && (forall j :: 1 <= j < |src| ==> cmds[j - 1] == src[j])
      && (forall i :: 0 <= i < |projects| && |src| + i >= 1 ==> cmds[|src| + i - 1] == RestoreCmd(projects[i], cfg))
      && (|src| == 0 && |projects| > 0 ==> RestoreCmd(projects[0], cfg) !in cmds || projects[0] in projects[1..])
  {
    var cfg := NugetConfigFile(host);
    var src := SourceCmds(host, Registries(host, packageFileName), cfg);
    var rs := RestoreCmds(projects, cfg);
    var all := src + rs;
    var cmds := ExecutedCmds(host, packageFileName, projects);
    assert cmds == Shifted(all);
    if |all| > 0 {
      assert cmds == all[1..];
      forall i | 0 <= i < |projects| && |src| + i >= 1
        ensures cmds[|src| + i - 1] == RestoreCmd(projects[i], cfg)
      {
        assert all[|src| + i] == rs[i];
      }
      if |src| == 0 && |projects| > 0 && RestoreCmd(projects[0], cfg) in cmds {
        var k :| 0 <= k < |cmds| && cmds[k] == RestoreCmd(projects[0], cfg);
        assert cmds[k] == RestoreCmd(projects[k + 1], cfg);
        RestoreCmdInjective(projects[0], projects[k + 1], cfg);
        assert projects[1..][k] == projects[k + 1];
      }
    }
  }

  lemma RestoreCmdInjective(p: string, q: string, cfg: string)
    requires RestoreCmd(p, cfg) == RestoreCmd(q, cfg)
    ensures p == q
  {
    var pre := "dotnet restore ";
    var post := " --force-evaluate --configfile " + cfg;
    assert RestoreCmd(p, cfg) == pre + p + post;
    assert RestoreCmd(q, cfg) == pre + q + post;
    assert |p| == |q|;
    assert p == RestoreCmd(p, cfg)[|pre|..|pre| + |p|];
    assert q == RestoreCmd(q, cfg)[|pre|..|pre| + |q|];
  }

  // ---------------------------------------------------------------------
  // updateArtifacts
  // ---------------------------------------------------------------------

  /**
   * Each gate returns null with nothing written, created or executed; and
   * the state is left exactly as it was only when a gate stopped the run,
   * since a run past the gates starts by writing the package file.
   */
  lemma GatesStopEarly(host: Host, st: Snapshot, u: UpdateArtifact, rank: map<string, nat>)
    requires Proceeds(host, st, u) ==> Ranked(host, Written(st, u).files, rank) && u.packageFileName in rank
    ensures !MatchesProjectFilePattern(u.packageFileName) ==> Update(host, st, u, rank) == (NoUpdate, st)
    ensures !Truthy(ReadLocalFile(st.files, LockFileOf(host, u.packageFileName))) ==> Update(host, st, u, rank) == (NoUpdate, st)
    ensures |u.updatedDeps| == 0 && u.isLockFileMaintenance != Some(true) ==> Update(host, st, u, rank) == (NoUpdate, st)
    ensures Update(host, st, u, rank).1 == st <==> !Proceeds(host, st, u)
  {
    if Proceeds(host, st, u) {
      var after := Update(host, st, u, rank).1;
      var w := Written(st, u);
      assert after.trace[..|w.trace|] == w.trace;
      assert after.trace[|st.trace|] == WriteLocalFile(u.packageFileName, u.newPackageFileContent);
      assert |after.trace| > |st.trace|;
    }
  }

  /**
   * What can come back: null; exactly one result, naming the sibling lock
   * file, either its new content when it differs from the content before,
   * or an artifact error whose text is not the temporary-error sentinel;
   * or the sentinel itself, thrown.
   */
  lemma UpdateResults(host: Host, st: Snapshot, u: UpdateArtifact, rank: map<string, nat>)
    requires Proceeds(host, st, u) ==> Ranked(host, Written(st, u).files, rank) && u.packageFileName in rank
    ensures var (o, after) := Update(host, st, u, rank);
      var lockFileName := LockFileOf(host, u.packageFileName);
      && (o.Results? ==> |o.results| == 1)
      && (o.Results? && o.results[0].FileResult? ==>
            && o.results[0].name == lockFileName
            && o.results[0].contents == ReadLocalFile(after.files, lockFileName)
            && o.results[0].contents != ReadLocalFile(st.files, lockFileName))
      && (o.Results? && o.results[0].ArtifactError? ==>
            o.results[0].lockFile == lockFileName && o.results[0].stderr != host.temporaryError)
      && (o.Thrown? ==> o.message == host.temporaryError)
  {
  }

  /**
   * Past the gates: after a successful restore, null exactly when the lock
   * file reads as before; after a failed one, the sentinel is rethrown
   * and any other message becomes one artifact error for the lock file.
   */
  lemma UpdateAfterRestore(host: Host, st: Snapshot, u: UpdateArtifact, rank: map<string, nat>)
    requires Proceeds(host, st, u)
    requires Ranked(host, Written(st, u).files, rank) && u.packageFileName in rank
    ensures var (err, after) := RestoreRun(host, Written(st, u), u.packageFileName, rank);
      var lockFileName := LockFileOf(host, u.packageFileName);
      var o := Update(host, st, u, rank).0;
      && Update(host, st, u, rank).1 == after
      && (err.None? ==> (o == NoUpdate <==> ReadLocalFile(after.files, lockFileName) == ReadLocalFile(st.files, lockFileName)))
      && (err.None? && o != NoUpdate ==> o == Results([FileResult(lockFileName, ReadLocalFile(after.files, lockFileName))]))
      && (err.Some? && err.value == host.temporaryError ==> o == Thrown(err.value))
      && (err.Some? && err.value != host.temporaryError ==> o == Results([ArtifactError(lockFileName, err.value)]))
  {
  }

  /**
   * A restore that leaves every local file as it found it gives null: the
   * lock file can only have changed through the package-file write,
   * which does not touch it.
   */
  lemma NoOpRestoreGivesNull(host: Host, st: Snapshot, u: UpdateArtifact, rank: map<string, nat>)
    requires Proceeds(host, st, u)
    requires Ranked(host, Written(st, u).files, rank) && u.packageFileName in rank
    requires LockFileOf(host, u.packageFileName) != u.packageFileName
    requires GetDependentProjectFiles(host, Written(st, u).files, u.packageFileName, rank).Ok?
    requires forall cmds :: host.exec(cmds, Written(st, u).files) == Ran(Written(st, u).files)
    ensures Update(host, st, u, rank).0 == NoUpdate
  {
    var w := Written(st, u);
    var lockFileName := LockFileOf(host, u.packageFileName);
    var projects := GetDependentProjectFiles(host, w.files, u.packageFileName, rank).value;
    var cmds := ExecutedCmds(host, u.packageFileName, projects);
    assert host.exec(cmds, w.files) == Ran(w.files);
    var after := RestoreRun(host, w, u.packageFileName, rank).1;
    assert after.files == w.files;
    assert ReadLocalFile(w.files, lockFileName) == ReadLocalFile(st.files, lockFileName);
  }

  /**
   * Past the gates, the effects are the package-file write, the cache
   * directory, the empty NuGet configuration, and then exec and cleanup
   * as far as they get; the configuration directory is removed if and
   * only if the restore succeeded, so a failure leaves it behind.
   */
  lemma EffectsAfterGates(host: Host, st: Snapshot, u: UpdateArtifact, rank: map<string, nat>)
    requires Proceeds(host, st, u)
    requires Ranked(host, Written(st, u).files, rank) && u.packageFileName in rank
    ensures var after := Update(host, st, u, rank).1;
      var err := RestoreRun(host, Written(st, u), u.packageFileName, rank).0;
      && |after.trace| >= |st.trace| + 3
      && after.trace[..|st.trace|] == st.trace
      && after.trace[|st.trace|..|st.trace| + 3]
           == [WriteLocalFile(u.packageFileName, u.newPackageFileContent), EnsureCacheDir("nuget"), OutputFile(NugetConfigFile(host), EmptyNugetConfig)]
      && ((exists i :: |st.trace| <= i < |after.trace| && after.trace[i].Remove?) <==> err.None?)
      && (err.None? ==> after.trace[|after.trace| - 1] == Remove(NugetConfigDir(host)))
  {
    var w := Written(st, u);
    var after := Update(host, st, u, rank).1;
    var err := RestoreRun(host, w, u.packageFileName, rank).0;
    var prepared := w.trace + [EnsureCacheDir("nuget"), OutputFile(NugetConfigFile(host), EmptyNugetConfig)];
    assert prepared == st.trace + [WriteLocalFile(u.packageFileName, u.newPackageFileContent), EnsureCacheDir("nuget"), OutputFile(NugetConfigFile(host), EmptyNugetConfig)];
    assert after.trace[..|prepared|] == prepared;
    assert forall i :: |st.trace| <= i < |prepared| ==> !prepared[i].Remove?;
    if err.None? {
      assert after.trace[|after.trace| - 1].Remove?;
    } else {
      assert after.trace == prepared || exists c :: after.trace == prepared + [Exec(c)];
    }
  }

  /**
   * The projects restored are the ones one or more references below the
   * package file, as its references are written; the package file itself
   * is not among them.
   */
  lemma RestoredProjects(host: Host, st: Snapshot, u: UpdateArtifact, rank: map<string, nat>)
    requires Proceeds(host, st, u)
    requires Ranked(host, Written(st, u).files, rank) && u.packageFileName in rank
    requires GetDependentProjectFiles(host, Written(st, u).files, u.packageFileName, rank).Ok?
    ensures var files := Written(st, u).files;
      var projects := GetDependentProjectFiles(host, files, u.packageFileName, rank).value;
      var after := Update(host, st, u, rank).1;
      && |after.trace| >= |st.trace| + 4
      && after.trace[|st.trace| + 3] == Exec(ExecutedCmds(host, u.packageFileName, projects))
      && u.packageFileName !in projects
      && (forall x :: x in projects <==> ReachesDown(host, files, u.packageFileName, x))
  {
    var w := Written(st, u);
    DependentsExact(host, w.files, u.packageFileName, rank);
    RestoreExecAt(host, w, u.packageFileName, rank);
    assert Update(host, st, u, rank).1 == RestoreRun(host, w, u.packageFileName, rank).1;
  }

  lemma RestoreExecAt(host: Host, w: Snapshot, packageFileName: string, rank: map<string, nat>)
    requires Ranked(host, w.files, rank) && packageFileName in rank
    requires GetDependentProjectFiles(host, w.files, packageFileName, rank).Ok?
    ensures var projects := GetDependentProjectFiles(host, w.files, packageFileName, rank).value;
      var after := RestoreRun(host, w, packageFileName, rank).1;
      |after.trace| >= |w.trace| + 3 && after.trace[|w.trace| + 2] == Exec(ExecutedCmds(host, packageFileName, projects))
  {
    var projects := GetDependentProjectFiles(host, w.files, packageFileName, rank).value;
    var cmds := ExecutedCmds(host, packageFileName, projects);
    var prepared := w.trace + [EnsureCacheDir("nuget"), OutputFile(NugetConfigFile(host), EmptyNugetConfig)];
    var after := RestoreRun(host, w, packageFileName, rank).1;
    assert after.trace == prepared + [Exec(cmds)] || after.trace == prepared + [Exec(cmds), Remove(NugetConfigDir(host))];
    assert after.trace[|prepared|] == Exec(cmds);
  }
}
