# NuGet manager core: ancestor traversal and lock-file update

A Dafny model of two parts of the renovate NuGet manager, with proofs of the
properties their code promises.

- **The ancestor traversal** (`lib/manager/nuget/tree.ts`).
  - `getProjectFileAncestors` takes a dictionary from project-file path to
    content. It collects the start file and every file that references it,
    directly or through other files.
  - A file references another when the resolved `Include` paths of its
    `ProjectReference` elements contain it. `getProjectFileDependencies`
    and `getAbsolutePathToFile` do the resolving.
  - The traversal is safe on cycles only because each call deletes its own
    key from the shared dictionary after scanning it.
  - The dictionary is a class (`ProjectTree.ProjectFileMap`) whose methods
    update it in place. The traversal is a method proved equal to a
    functional specification, `ProjectTree.Ancestors`.
  - Termination uses the measure `2·|keys| + (p ∉ keys ? 1 : 0)`.
  - Soundness, completeness and the frame are proved as lemmas about that
    specification.
- **The lock-file update** (`lib/manager/nuget/artifacts.ts`).
  - `addSourceCmds` builds one `dotnet nuget add source` command per
    registry.
  - `getDependentProjectFiles` follows `Include` values downwards.
  - `runDotnetRestore` assembles the commands: the add-source commands,
    then one `dotnet restore` per dependent project, then `cmds.shift()`
    drops the first.
  - `updateArtifacts` is a gate-then-act flow with an error path.
  - Local files and the sequence of effects make up a class
    (`Artifacts.Workspace`). The methods that change it are proved equal to
    the specification functions `Artifacts.RestoreRun` and `Artifacts.Update`.

What the model takes from outside:

- **XML parsing.** The content of a project file is represented by what the
  code reads from it: its `Include` values in document order. On the
  artifacts side, it is the outcome of a parse, which may fail.
- **Foreign helpers.** `hostRules.find`, `parseRegistryUrl`, `quote`,
  `getConfiguredRegistries`, `getDefaultRegistries`, `getSiblingFileName`,
  `path.join`, the cache directory, `getRandomString`, `exec` and the
  `TEMPORARY_ERROR` text are fields of a `NugetHost.Host` value. Their
  behaviour is left open.
- **The local files.** `readLocalFile` is a lookup in a map from path to
  content (`NugetHost.ReadLocalFile`), giving null for a path that is not
  there; `writeLocalFile` updates that map.
- **The working directory** that `path.resolve` uses is a parameter, which
  must be absolute.

Modules, one per file:

- `Wrappers`: `Option`, `Result` and JavaScript truthiness of an optional
  string.
- `Paths`: POSIX `path.dirname` and `path.resolve`, and `normalize-path`.
- `ProjectTree`: the ancestor traversal.
- `ProjectTreeProps`: its properties.
- `NugetHost`: the collaborators.
- `SourceCommands`: `addSourceCmds`.
- `DependentProjects` and `DependentProjectsProps`: `getDependentProjectFiles`
  and its properties.
- `Artifacts` and `ArtifactsProps`: `runDotnetRestore`, `updateArtifacts` and
  their properties.

## Model

| member | source | states |
|---|---|---|
| Paths.GetAbsolutePathToFile | lib/manager/nuget/tree.ts:41-43 | Definition only: `resolve` of `dirname(fromFile)`, a `/`, and `normalize(toFile)`. Its properties are stated by `GetAbsolutePathToFileProperties`. |
| Paths.Dirname | lib/manager/nuget/tree.ts:42 | POSIX `path.dirname`, scanning back for the last separator run. The result is never empty; its other properties are in `DirnameProperties`. |
| Paths.Resolve | lib/manager/nuget/tree.ts:42 | Definition only: POSIX `path.resolve` of one path against the working directory, resolving `.`, `..` and empty segments. Its result is stated canonical by `ResolveCanonical`. |
| Paths.NormalizePath | lib/manager/nuget/tree.ts:42 | The model of `normalize` keeps the length. Its per-character behaviour is in `NormalizePathProperties`. |
| Paths.GetAbsolutePathToFileProperties | lib/manager/nuget/tree.ts:41-43 | The resolved path is absolute and canonical: no `.`, `..` or empty segment. It holds no `\` when the referencing file and the working directory hold none. When the Include has no `..` segment, the result lies under the resolved directory of the referencing file, even for an Include that starts with `/`. |
| Paths.SplitJoin | lib/manager/nuget/tree.ts:42 | Splitting the join of slash-free segments gives the segments back, the round trip on which canonical paths rest. |
| Paths.NormalizePathProperties | lib/manager/nuget/tree.ts:42 | The model of `normalize` replaces every backslash with `/` and changes no other character. |
| ProjectTree.GetProjectFileDependencies | lib/manager/nuget/tree.ts:45-51 | One path per Include value. Which path each one is is stated by `ResolvedReferences`. |
| ProjectTree.ProjectFileExtensions | lib/manager/nuget/tree.ts:30 | Definition only: the extensions `csproj`, `vbproj` and `fsproj` that `getAllProjectFiles` searches for. |
| ProjectTreeProps.ResolvedReferences | lib/manager/nuget/tree.ts:45-51 | `getProjectFileDependencies` gives one path per Include value, in document order: the i-th is the Include resolved against the referencing file. A file references a target exactly when the target is one of these paths, and every such target is absolute and canonical. |
| ProjectTree.References | lib/manager/nuget/tree.ts:56 | Definition only: `.includes(projectFile)` on the references of one file. Stated for the real resolver by `ResolvedReferences`. |
| ProjectTree.Referrers | lib/manager/nuget/tree.ts:55-59 | A key is among the scanned referrers if and only if it is a scanned key that references the target. |
| ProjectTree.ScanReferrers | lib/manager/nuget/tree.ts:54-59 | The `for…in` loop collects exactly the referrers of the file, in key order. |
| ProjectTree.ProjectFileMap.Delete | lib/manager/nuget/tree.ts:61 | `delete` removes the key if present, keeps the order of the other keys and changes nothing else. |
| ProjectTree.Ancestors | lib/manager/nuget/tree.ts:53-64 | The result starts with the start file. Afterwards exactly the keys that occur in the result are deleted, and the dictionary stays well formed. |
| ProjectTree.AncestorsAll | lib/manager/nuget/tree.ts:63 | `checkNext.map(...).flat()` as a function: every referrer occurs in the result, and afterwards exactly the keys in the result are deleted. Its full meaning is stated by `AncestorsExact` and `AncestorsLeaveRest`. |
| ProjectTree.GetProjectFileAncestors | lib/manager/nuget/tree.ts:53-64 | The in-place traversal returns `Ancestors` of the dictionary it was given, and leaves behind the dictionary `Ancestors` leaves. |
| ProjectTree.VisitReferrers | lib/manager/nuget/tree.ts:63 | `checkNext.map(...).flat()` visits the referrers in order, each over the dictionary the earlier visits left behind, and concatenates their results. |
| ProjectTreeProps.AncestorsSound | lib/manager/nuget/tree.ts:55-63 | Every element of the result is the start file or an original key with a chain of references leading to the start file. |
| ProjectTreeProps.AncestorsExact | lib/manager/nuget/tree.ts:53-64 | An element is in the result if and only if, in the original dictionary, a chain of references leads from it to the start file. |
| ProjectTreeProps.AncestorsLeaveRest | lib/manager/nuget/tree.ts:61 | Afterwards a key remains if and only if it was there and does not reach the start file. Remaining entries keep their content. |
| ProjectTreeProps.NoReferrers | lib/manager/nuget/tree.ts:55-63 | A file that no key references gives exactly `[projectFile]`, and only its own key is removed. |
| ProjectTreeProps.MutualReferences | lib/manager/nuget/tree.ts:55-63 | Two files referencing each other, where neither file references itself, started from the first, give exactly `[A, B]` and leave an empty dictionary. |
| ProjectTreeProps.DuplicateInResult | lib/manager/nuget/tree.ts:55-63 | Keys ordered T, X, Y, with X→T, Y→T and Y→X, give `[T, X, Y, Y]`: the result is not free of duplicates. |
| SourceCommands.Registries | lib/manager/nuget/artifacts.ts:38-40 | Definition only: the configured list when the lookup gives one, otherwise the defaults. Stated by `RegistrySelection`. |
| SourceCommands.AddSourceCmd | lib/manager/nuget/artifacts.ts:43-57 | Definition only: the command pushed for one registry. Its shape is stated by `AddSourceCmdShape`. |
| SourceCommands.AddSourceCmdShape | lib/manager/nuget/artifacts.ts:48-56 | Each command starts with the feed URL and the config file. ` --name` follows if and only if the registry has a non-empty name, and it carries the quoted name. The credential options end the command when username and password are both non-empty. The length counts exactly the options present. |
| SourceCommands.AddSourceCmds | lib/manager/nuget/artifacts.ts:32-60 | The loop emits one command per registry, in registry order. |
| ArtifactsProps.RegistrySelection | lib/manager/nuget/artifacts.ts:38-40 | A configured list is used whenever the lookup gives one, even an empty one. The defaults are used only when it gives none. |
| DependentProjects.ExtractAt | lib/manager/nuget/artifacts.ts:70-71 | Definition only: `extractDependentProjectFiles` of what `readLocalFile` gives for the path. Used by `DependentsShape` and `DependentsOkIff`. |
| DependentProjects.GetDependentProjectFiles | lib/manager/nuget/artifacts.ts:69-80 | On ranked (acyclic) references, every returned file ranks strictly below the start file. |
| DependentProjects.GetDependentProjectFilesAll | lib/manager/nuget/artifacts.ts:77-78 | The results of the references, in order and concatenated, with the first failure propagated. Every returned file ranks below the bound. |
| DependentProjectsProps.DependentsShape | lib/manager/nuget/artifacts.ts:69-80 | No references give `[]`. Content that does not parse gives its error. A returned list starts with the direct references as authored. |
| DependentProjectsProps.DependentsExact | lib/manager/nuget/artifacts.ts:69-80 | A file is returned if and only if a chain of one or more references leads to it. The start file is never returned. |
| DependentProjectsProps.DependentsOkIff | lib/manager/nuget/artifacts.ts:62-80 | The walk succeeds if and only if every file it reaches parses. |
| Artifacts.SourceCmds | lib/manager/nuget/artifacts.ts:104 | Definition only: `AddSourceCmd` of each registry, in order. Stated by `ExecutedCmdsShape` and `RegistrySelection`. |
| Artifacts.RestoreCmd | lib/manager/nuget/artifacts.ts:105 | Definition only: `dotnet restore <p> --force-evaluate --configfile <file>`. Stated by `RestoreCmdInjective`. |
| Artifacts.RestoreCmds | lib/manager/nuget/artifacts.ts:105 | Definition only: one `RestoreCmd` per project, in order. Stated by `ExecutedCmdsShape`, which gives its elements index by index. |
| Artifacts.NugetConfigDir | lib/manager/nuget/artifacts.ts:93 | Definition only: the cache directory joined with a random string. Stated by `EffectsAfterGates`. |
| Artifacts.NugetConfigFile | lib/manager/nuget/artifacts.ts:94 | Definition only: `nuget.config` in that directory. Stated by `EffectsAfterGates` and `ExecutedCmdsShape`. |
| Artifacts.Shifted | lib/manager/nuget/artifacts.ts:108 | `cmds.shift()`: one element shorter, except that an empty list stays empty, and the i-th element is the assembled list's (i+1)-th. |
| Artifacts.ExecutedCmds | lib/manager/nuget/artifacts.ts:103-108 | Definition only: the add-source commands followed by the restore commands, then shifted. Stated by `ExecutedCmdsShape`. |
| Artifacts.RestoreRun | lib/manager/nuget/artifacts.ts:82-111 | Definition only: the error thrown, if any, and the state after `runDotnetRestore`. Its effects are stated by `EffectsAfterGates` and `RestoredProjects`. |
| ArtifactsProps.ExecutedCmdsShape | lib/manager/nuget/artifacts.ts:103-109 | After `shift()`, the executed list is one shorter than the assembled one, and every command after the first keeps its order. With no registries, the first project's restore command is not run (unless that project appears again). |
| ArtifactsProps.RestoreCmdInjective | lib/manager/nuget/artifacts.ts:105 | Different projects give different restore commands. |
| Artifacts.RunDotnetRestore | lib/manager/nuget/artifacts.ts:82-111 | The step-by-step run on the workspace gives the error and final state of `RestoreRun`. |
| Artifacts.UpdateArtifacts | lib/manager/nuget/artifacts.ts:113-186 | The step-by-step run on the workspace gives the outcome and final state of `Update`. |
| Artifacts.MatchesProjectFilePattern | lib/manager/nuget/artifacts.ts:120 | Definition only: the last six characters are `cs`, `vb` or `fs`, then `proj`, ignoring ASCII case. Stated by `PatternMatchesExtensions`. |
| Artifacts.LockFileOf | lib/manager/nuget/artifacts.ts:132-135 | Definition only: the sibling `packages.lock.json` of the package file. Stated by `GatesStopEarly` and `UpdateResults`. |
| Artifacts.Proceeds | lib/manager/nuget/artifacts.ts:120-151 | Definition only: the three gates all pass. Stated by `GatesStopEarly`. |
| Artifacts.Written | lib/manager/nuget/artifacts.ts:153 | Definition only: the package file written with its new content, recorded as an effect. Stated by `EffectsAfterGates` and `UpdateAfterRestore`. |
| Artifacts.Update | lib/manager/nuget/artifacts.ts:113-186 | Definition only: the outcome and the state after `updateArtifacts`. Stated by `GatesStopEarly`, `UpdateResults`, `UpdateAfterRestore` and `EffectsAfterGates`. |
| Artifacts.Caught | lib/manager/nuget/artifacts.ts:171-185 | Definition only: the sentinel is rethrown; any other message becomes one artifact error for the lock file. Stated by `UpdateResults` and `UpdateAfterRestore`. |
| ArtifactsProps.PatternMatchesExtensions | lib/manager/nuget/artifacts.ts:120 | The case-insensitive test for a name ending in `cs`, `vb` or `fs` followed by `proj` accepts a name if and only if its ASCII lower-casing ends with one of the extensions `getAllProjectFiles` searches for (lib/manager/nuget/tree.ts:30). |
| ArtifactsProps.GatesStopEarly | lib/manager/nuget/artifacts.ts:120-151 | Each of the three gates gives null and leaves the state untouched: nothing is written, created or run. The state stays as it was if and only if a gate stopped the run. |
| ArtifactsProps.UpdateResults | lib/manager/nuget/artifacts.ts:145-185 | The outcome is null; or one result naming the sibling lock file, holding either its new content (which differs from the old) or an artifact error whose text is not the temporary-error sentinel; or the sentinel, thrown. |
| ArtifactsProps.UpdateAfterRestore | lib/manager/nuget/artifacts.ts:155-185 | After a successful restore, null exactly when the lock file reads as before. After a failed one, the sentinel is rethrown and any other message becomes one artifact error for the lock file. |
| ArtifactsProps.NoOpRestoreGivesNull | lib/manager/nuget/artifacts.ts:153-161 | A restore that changes no file gives null, given that the lock file is not the package file. |
| ArtifactsProps.EffectsAfterGates | lib/manager/nuget/artifacts.ts:92-110 | Past the gates the effects are, in order: the package-file write (artifacts.ts:153), the cache directory, the empty NuGet configuration, then exec and cleanup as far as they get. The configuration directory is removed if and only if the restore succeeded. |
| ArtifactsProps.RestoredProjects | lib/manager/nuget/artifacts.ts:101-109 | The assembled restore commands, before `shift()`, target exactly the files reached downwards from the package file, and never the package file itself. |

## Left out

- File-system I/O: `getProjectFileContentMap` and
  `findFilesByExtensionsRecursively` (tree.ts:29-39). The dictionary, and the
  local directory as a path-to-content map, are inputs.
- Failures of `writeLocalFile`, `ensureCacheDir`, `outputFile` and `remove`.
  The model records them as effects that always succeed.
- The XML parsers `xmldom`/`xpath` and `elementtree`. Their output, a list of
  `Include` values or a parse failure, is an input.
- `exec` and its Docker options. A run either fails with a message or
  succeeds with new local files. A failed run is taken to leave the local
  files as they were, although a `dotnet` batch that fails part way may
  already have rewritten some lock files; the catch path reads none of
  them, so the returned results do not depend on this.
- Concurrency: the `Promise.all` in `getDependentProjectFiles` is taken as a
  sequential map. When several parses fail, the first failure in list order
  is the one reported.
- Logging and the `debugger` statement.
- `getFilesToRestore` (tree.ts:66-69), which is I/O glue not called from
  artifacts.ts.
- lib/manager/nuget/tree.spec.ts, which tests only the I/O helper with mocks.
- The value of `TEMPORARY_ERROR`. `lib/constants/error-messages.ts` is not part
  of this model, so the sentinel is a field of the host.
- DependentProjects.ExtractAt, DependentProjects.GetDependentProjectFiles: a
  file is identified by its path as spelled in the `Include` value. The join
  onto the local directory that `readLocalFile` performs (lib/util/fs, not
  part of this model) is not modelled, so `./A.csproj` and `A.csproj` are two
  files here and one file to the program. The rank orders spellings, not
  files: a file that includes itself under another spelling passes as
  acyclic here, while the program recurses on it without end.
- DependentProjects.GetDependentProjectFiles: it is specified only on
  reference graphs with a rank that every reference decreases. The source
  has no cycle guard and does not terminate on a cycle.
- ProjectTree.GetProjectFileAncestors: the dictionary's key order is a
  sequence that deletion keeps. Keys are assumed to be strings that are not
  integer-like, for which JavaScript's `for…in` order is insertion order.
- Paths.NormalizePath: it only turns backslashes into `/`. The package's
  collapsing of repeated separators and dropping of a trailing separator
  produce only empty segments, which `path.resolve` discards anyway.
- Paths.Resolve: the working directory is a parameter. Windows path rules are
  not modelled.
- Artifacts.UpdateArtifacts: the final `readLocalFile(lockFileName)` without
  an encoding gives a Buffer in the source. Here it gives the same content as
  a string.
- Artifacts.MatchesProjectFilePattern, ArtifactsProps.PatternMatchesExtensions: the regex engine behind `regEx`
  (lib/util/regex.ts, not part of this model) is not modelled; ASCII case
  folding is assumed. An engine with Unicode folding would also accept names
  such as `x.cſproj` (U+017F folds to `s`).

Behaviour of the code worth noting:

- The ancestor result may hold duplicates (`DuplicateInResult`).
- `runDotnetRestore` restores the files below the package file, reached
  through `Include` values taken as authored. It does not restore the
  ancestors, and does not restore the package file itself.
- `cmds.shift()` drops the first assembled command.
- The temporary configuration directory is not removed when the restore
  fails, because `remove` is not in a `finally`.
