/**
 * The lock-file update of the NuGet manager
 * (lib/manager/nuget/artifacts.ts): gate on the file name, on an
 * existing lock file and on there being something to update; write the
 * new project file; restore through `dotnet`; compare the lock file
 * before and after. Files and the external process are a workspace
 * object whose methods record what they do.
 */
module Artifacts {
  import opened Wrappers
  import opened NugetHost
  import opened SourceCommands
  import opened DependentProjects

  // ---------------------------------------------------------------------
  // The file-name gate
  // ---------------------------------------------------------------------

  function UpperAscii(c: char): char {
    if 'a' <= c <= 'z' then (c as int - 32) as char else c
  }

  /** `s` equals `lit` under ASCII case folding, for ASCII `lit`: the case-insensitive match that `regEx(...)` is taken to perform. */
  predicate EqualsIgnoreCase(s: string, lit: string) {
    |s| == |lit| && forall i :: 0 <= i < |s| ==> UpperAscii(s[i]) == UpperAscii(lit[i])
  }

  /** `/(?:cs|vb|fs)proj$/i.test(name)`. */
  predicate MatchesProjectFilePattern(name: string) {
    var n := |name|;
    && n >= 6
    && (EqualsIgnoreCase(name[n - 6..n - 4], "cs") || EqualsIgnoreCase(name[n - 6..n - 4], "vb") || EqualsIgnoreCase(name[n - 6..n - 4], "fs"))
    && EqualsIgnoreCase(name[n - 4..], "proj")
  }

  // ---------------------------------------------------------------------
  // Commands
  // ---------------------------------------------------------------------

  /** The commands of `addSourceCmds` for `registries`. */
  function SourceCmds(host: Host, registries: seq<Registry>, nugetConfigFile: string): seq<string> {
    seq(|registries|, i requires 0 <= i < |registries| => AddSourceCmd(host, registries[i], nugetConfigFile))
  }

  function RestoreCmd(project: string, nugetConfigFile: string): string {
    "dotnet restore " + project + " --force-evaluate --configfile " + nugetConfigFile
  }

  /** `projectsToRestore.map(p => \`dotnet restore ...\`)`. */
  function RestoreCmds(projects: seq<string>, nugetConfigFile: string): seq<string> {
    seq(|projects|, i requires 0 <= i < |projects| => RestoreCmd(projects[i], nugetConfigFile))
  }

  /** The array left by `cmds.shift()`: without its first element; an empty array stays empty. */
  function Shifted(cmds: seq<string>): (r: seq<string>)
    ensures |r| == if cmds == [] then 0 else |cmds| - 1
    ensures forall i :: 0 <= i < |r| ==> r[i] == cmds[i + 1]
  {
    if cmds == [] then [] else cmds[1..]
  }

  /** The empty NuGet configuration `runDotnetRestore` writes before restoring. */
  const EmptyNugetConfig: string := "<?xml version=\"1.0\" encoding=\"utf-8\"?>\n<configuration>\n</configuration>\n"

  const LockFileName: string := "packages.lock.json"

  function NugetConfigDir(host: Host): string {
    host.join(host.cacheDir, host.randomString)
  }

  function NugetConfigFile(host: Host): string {
    host.join(NugetConfigDir(host), "nuget.config")
  }

  // ---------------------------------------------------------------------
  // Observable state and results
  // ---------------------------------------------------------------------

  /** What the run does to the outside world, in order. */
  datatype Effect =
    | WriteLocalFile(path: string, content: string)
    | EnsureCacheDir(name: string)
    | OutputFile(path: string, content: string)
    | Exec(cmds: seq<string>)
    | Remove(path: string)

  /** The local files and what has been done so far. */
  datatype Snapshot = Snapshot(files: map<string, string>, trace: seq<Effect>)

  datatype UpdateArtifact = UpdateArtifact(
    packageFileName: string,
    newPackageFileContent: string,
    updatedDeps: seq<string>,
    isLockFileMaintenance: Option<bool>)

  datatype ArtifactResult =
    | FileResult(name: string, contents: Option<string>)
    | ArtifactError(lockFile: string, stderr: string)

  /** `null`, a list of results, or an error that propagates to the caller. */
  datatype Outcome = NoUpdate | Results(results: seq<ArtifactResult>) | Thrown(message: string)

  // ---------------------------------------------------------------------
  // The run as a function of the state before it
  // ---------------------------------------------------------------------

  /** The commands `runDotnetRestore` hands to `exec` for these projects. */
  function ExecutedCmds(host: Host, packageFileName: string, projects: seq<string>): seq<string> {
    Shifted(SourceCmds(host, Registries(host, packageFileName), NugetConfigFile(host))
      + RestoreCmds(projects, NugetConfigFile(host)))
  }

  /** `runDotnetRestore`: the error it throws, if any, and the state after it. */
  function RestoreRun(host: Host, st: Snapshot, packageFileName: string, ghost rank: map<string, nat>): (Option<string>, Snapshot)
    requires Ranked(host, st.files, rank) && packageFileName in rank
  {
    var prepared := st.trace + [EnsureCacheDir("nuget"), OutputFile(NugetConfigFile(host), EmptyNugetConfig)];
    match GetDependentProjectFiles(host, st.files, packageFileName, rank)
    case Err(msg) => (Some(msg), Snapshot(st.files, prepared))
    case Ok(projects) =>
      var cmds := ExecutedCmds(host, packageFileName, projects);
      match host.exec(cmds, st.files)
      case ExecFailed(msg) => (Some(msg), Snapshot(st.files, prepared + [Exec(cmds)]))
      case Ran(after) => (None, Snapshot(after, prepared + [Exec(cmds), Remove(NugetConfigDir(host))]))
  }

  function LockFileOf(host: Host, packageFileName: string): string {
    host.siblingFileName(packageFileName, LockFileName)
  }

  /** The three gates of `updateArtifacts` all pass. */
  predicate Proceeds(host: Host, st: Snapshot, u: UpdateArtifact) {
    && MatchesProjectFilePattern(u.packageFileName)
    && Truthy(ReadLocalFile(st.files, LockFileOf(host, u.packageFileName)))
    && !(|u.updatedDeps| == 0 && u.isLockFileMaintenance != Some(true))
  }

  /** The files after `writeLocalFile(packageFileName, newPackageFileContent)`. */
  function Written(st: Snapshot, u: UpdateArtifact): Snapshot {
    Snapshot(st.files[u.packageFileName := u.newPackageFileContent],
             st.trace + [WriteLocalFile(u.packageFileName, u.newPackageFileContent)])
  }

  /** The `catch` of `updateArtifacts`. */
  function Caught(host: Host, lockFileName: string, msg: string): Outcome {
    if msg == host.temporaryError then Thrown(msg)
    else Results([ArtifactError(lockFileName, msg)])
  }

  /** `updateArtifacts`: its outcome and the state after it. */
  function Update(host: Host, st: Snapshot, u: UpdateArtifact, ghost rank: map<string, nat>): (Outcome, Snapshot)
    requires Proceeds(host, st, u) ==> Ranked(host, Written(st, u).files, rank) && u.packageFileName in rank
  {
    if !Proceeds(host, st, u) then (NoUpdate, st)
    else
      var lockFileName := LockFileOf(host, u.packageFileName);
      var existing := ReadLocalFile(st.files, lockFileName);
      var (err, after) := RestoreRun(host, Written(st, u), u.packageFileName, rank);
      if err.Some? then (Caught(host, lockFileName, err.value), after)
      else
        var newLock := ReadLocalFile(after.files, lockFileName);
        if existing == newLock then (NoUpdate, after)
        else (Results([FileResult(lockFileName, newLock)]), after)
  }

  // ---------------------------------------------------------------------
  // The run, step by step, on a workspace
  // ---------------------------------------------------------------------

  /** The local directory and the record of effects, updated in place by each I/O step. */
  class Workspace {
    var files: map<string, string>
    var trace: seq<Effect>

    function Value(): Snapshot
      reads this
    {
      Snapshot(files, trace)
    }

    constructor(files: map<string, string>)
      ensures Value() == Snapshot(files, [])
    {
      this.files := files;
      this.trace := [];
    }

    method Read(path: string) returns (r: Option<string>)
      ensures r == ReadLocalFile(files, path)
    {
      if path in files {
        r := Some(files[path]);
      } else {
        r := None;
      }
    }

    method Write(path: string, content: string)
      modifies this
      ensures files == old(files)[path := content]
      ensures trace == old(trace) + [WriteLocalFile(path, content)]
    {
      files := files[path := content];
      trace := trace + [WriteLocalFile(path, content)];
    }

    method EnsureNugetCacheDir(host: Host) returns (dir: string)
      modifies this
      ensures dir == host.cacheDir
      ensures files == old(files) && trace == old(trace) + [EnsureCacheDir("nuget")]
    {
      trace := trace + [EnsureCacheDir("nuget")];
      dir := host.cacheDir;
    }

    method Output(path: string, content: string)
      modifies this
      ensures files == old(files) && trace == old(trace) + [OutputFile(path, content)]
    {
      trace := trace + [OutputFile(path, content)];
    }

    /** `exec(cmds)`: on success the local files are what the process left. */
    method Run(host: Host, cmds: seq<string>) returns (err: Option<string>)
      modifies this
      ensures trace == old(trace) + [Exec(cmds)]
      ensures match host.exec(cmds, old(files))
        case Ran(after) => err == None && files == after
        case ExecFailed(msg) => err == Some(msg) && files == old(files)
    {
      trace := trace + [Exec(cmds)];
      match host.exec(cmds, files)
      case Ran(after) =>
        files := after;
        err := None;
      case ExecFailed(msg) =>
        err := Some(msg);
    }

    method RemoveDir(path: string)
      modifies this
      ensures files == old(files) && trace == old(trace) + [Remove(path)]
    {
      trace := trace + [Remove(path)];
    }
  }

  /** `runDotnetRestore` (artifacts.ts:82-111). */
  method RunDotnetRestore(host: Host, ws: Workspace, packageFileName: string, ghost rank: map<string, nat>) returns (err: Option<string>)
    requires Ranked(host, ws.files, rank) && packageFileName in rank
    modifies ws
    ensures (err, ws.Value()) == RestoreRun(host, old(ws.Value()), packageFileName, rank)
  {
    ghost var st := ws.Value();
    var nugetCacheDir := ws.EnsureNugetCacheDir(host);
    var nugetConfigDir := host.join(nugetCacheDir, host.randomString);
    var nugetConfigFile := host.join(nugetConfigDir, "nuget.config");
    ws.Output(nugetConfigFile, EmptyNugetConfig);
    assert ws.Value() == Snapshot(st.files, st.trace + [EnsureCacheDir("nuget"), OutputFile(NugetConfigFile(host), EmptyNugetConfig)]);
    var projects := GetDependentProjectFiles(host, ws.files, packageFileName, rank);
    if projects.Err? {
      return Some(projects.message);
    }
    var sourceCmds := AddSourceCmds(host, packageFileName, nugetConfigFile);
    assert sourceCmds == SourceCmds(host, Registries(host, packageFileName), nugetConfigFile);
    var cmds := sourceCmds + RestoreCmds(projects.value, nugetConfigFile);
    if |cmds| > 0 {
      cmds := cmds[1..];
    }
    assert cmds == ExecutedCmds(host, packageFileName, projects.value);
    ghost var prepared := ws.trace;
    err := ws.Run(host, cmds);
    if err.Some? {
      return;
    }
    ws.RemoveDir(nugetConfigDir);
    assert ws.trace == prepared + [Exec(cmds), Remove(NugetConfigDir(host))];
  }

  /** `updateArtifacts` (artifacts.ts:113-186). */
  method UpdateArtifacts(host: Host, ws: Workspace, u: UpdateArtifact, ghost rank: map<string, nat>) returns (outcome: Outcome)
    requires Proceeds(host, ws.Value(), u) ==> Ranked(host, Written(ws.Value(), u).files, rank) && u.packageFileName in rank
    modifies ws
    ensures (outcome, ws.Value()) == Update(host, old(ws.Value()), u, rank)
  {
    if !MatchesProjectFilePattern(u.packageFileName) {
      return NoUpdate;
    }
    var lockFileName := host.siblingFileName(u.packageFileName, LockFileName);
    var existingLockFileContent := ws.Read(lockFileName);
    if !Truthy(existingLockFileContent) {
      return NoUpdate;
    }
    if |u.updatedDeps| == 0 && u.isLockFileMaintenance != Some(true) {
      return NoUpdate;
    }
    ws.Write(u.packageFileName, u.newPackageFileContent);
    var err := RunDotnetRestore(host, ws, u.packageFileName, rank);
    if err.Some? {
      return Caught(host, lockFileName, err.value);
    }
    var newLockFileContent := ws.Read(lockFileName);
    if existingLockFileContent == newLockFileContent {
      return NoUpdate;
    }
    var contents := ws.Read(lockFileName);
    outcome := Results([FileResult(lockFileName, contents)]);
  }
}
