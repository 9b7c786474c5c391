/**
 * `getDependentProjectFiles` (lib/manager/nuget/artifacts.ts:62-80): the
 * project files reached from a project file by following `Include`
 * values downwards, each value used as authored, as a path read from the
 * local directory. Nothing guards against cycles, so the model asks for
 * a rank that every reference decreases.
 */
module DependentProjects {
  import opened Wrappers
  import opened NugetHost

  /** `extractDependentProjectFiles` applied to whatever `readLocalFile` gives for `path`. */
  function ExtractAt(host: Host, files: map<string, string>, path: string): Extracted {
    host.extract(ReadLocalFile(files, path))
  }

  /** The references of `path`, or none when its content cannot be read as XML. */
  function RefsOf(host: Host, files: map<string, string>, path: string): seq<string> {
    match ExtractAt(host, files, path)
    case Includes(ps) => ps
    case ParseError(_) => []
  }

  /** `rank` orders the reference graph: every reference of a ranked file is ranked lower. */
  ghost predicate Ranked(host: Host, files: map<string, string>, rank: map<string, nat>) {
    forall f, q :: f in rank && q in RefsOf(host, files, f) ==> q in rank && rank[q] < rank[f]
  }

  /**
   * `getDependentProjectFiles(p)`: the direct references of `p`, followed
   * by each reference's own result, in order; an empty list when `p` has
   * no references; the first parse failure, in list order, otherwise.
   */
  function GetDependentProjectFiles(host: Host, files: map<string, string>, p: string, ghost rank: map<string, nat>): (r: Result<seq<string>>)
    requires Ranked(host, files, rank) && p in rank
    ensures r.Ok? ==> forall x :: x in r.value ==> x in rank && rank[x] < rank[p]
    decreases rank[p], 1, 0
  {
    match ExtractAt(host, files, p)
    case ParseError(msg) => Err(msg)
    case Includes(pathsToUse) =>
      if |pathsToUse| == 0 then Ok(pathsToUse)
      else
        match GetDependentProjectFilesAll(host, files, pathsToUse, rank, rank[p])
        case Err(msg) => Err(msg)
        case Ok(recursed) => Ok(pathsToUse + recursed)
  }

  /** `Promise.all(pathsToUse.map(getDependentProjectFiles))`, flattened, taken in order. */
  function GetDependentProjectFilesAll(host: Host, files: map<string, string>, ps: seq<string>, ghost rank: map<string, nat>, ghost bound: nat): (r: Result<seq<string>>)
    requires Ranked(host, files, rank)
    requires forall q :: q in ps ==> q in rank && rank[q] < bound
    ensures r.Ok? ==> forall x :: x in r.value ==> x in rank && rank[x] < bound
    decreases bound, 0, |ps|
  {
    if ps == [] then Ok([])
    else
      match GetDependentProjectFiles(host, files, ps[0], rank)
      case Err(msg) => Err(msg)
      case Ok(first) =>
        match GetDependentProjectFilesAll(host, files, ps[1..], rank, bound)
        case Err(msg) => Err(msg)
        case Ok(rest) => Ok(first + rest)
  }
}
