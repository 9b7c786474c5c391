/**
 * The collaborators that `lib/manager/nuget/artifacts.ts` calls but does
 * not define, as parameters of the model: registry configuration, host
 * rules, registry-URL parsing, shell quoting, file naming, the XML
 * reader and the external `dotnet` process.
 */
module NugetHost {
  import opened Wrappers

  /** A package registry: its URL and an optional display name. */
  datatype Registry = Registry(url: string, name: Option<string>)

  /** The credentials a host rule holds for a URL, each possibly unset. */
  datatype Credentials = Credentials(username: Option<string>, password: Option<string>)

  /** What the XML reader yields for a project file: its `Include` values, or the parser's failure. */
  datatype Extracted = Includes(paths: seq<string>) | ParseError(message: string)

  /** The external process: ran (leaving the local files as given), or failed with a message. */
  datatype ExecOutcome = Ran(files: map<string, string>) | ExecFailed(message: string)

  datatype Host = Host(
    /** `GlobalConfig.get().localDir`. */
    localDir: string,
    /** `getConfiguredRegistries(packageFileName, localDir)`: `None` for null/undefined. */
    configuredRegistries: (string, string) -> Option<seq<Registry>>,
    /** `getDefaultRegistries()`. */
    defaultRegistries: seq<Registry>,
    /** `hostRules.find({hostType: 'nuget', url})`. */
    find: string -> Credentials,
    /** `parseRegistryUrl(url).feedUrl`. */
    feedUrl: string -> string,
    /** `quote` of the shlex package. */
    quote: string -> string,
    /** `getSiblingFileName(fileName, siblingName)`. */
    siblingFileName: (string, string) -> string,
    /** `path.join`. */
    join: (string, string) -> string,
    /** What `ensureCacheDir('nuget')` returns. */
    cacheDir: string,
    /** What `getRandomString()` returns for this run. */
    randomString: string,
    /** The `elementtree` reading of the `Include` attributes of `ProjectReference` children; `None` is a file `readLocalFile` could not read. */
    extract: Option<string> -> Extracted,
    /** `exec(cmds, execOptions)` over the local files. */
    exec: (seq<string>, map<string, string>) -> ExecOutcome,
    /** The `TEMPORARY_ERROR` message constant. */
    temporaryError: string
  )

  /** `readLocalFile(path, 'utf8')`: the content, or null for a file that is not there. */
  function ReadLocalFile(files: map<string, string>, path: string): Option<string> {
    if path in files then Some(files[path]) else None
  }
}
