/**
  The archiver's exclusion configuration: fixed sets of directory names, directory
  suffixes, file extensions and file names, and the rule that decides whether the walk
  descends into a child directory.
 */
module Rules {
  import opened Text

  /** Default name of the archive the run writes into the root directory. */
  const OutputFilename: string := "full_project_source.txt"

  /** Directory names pruned wherever they occur in the tree. */
  const ExcludeDirsAnywhere: set<string> := {
    ".git", "__pycache__", ".pytest_cache", "cache", "outputs", ".vscode", ".idea",
    "venv", ".venv", "env", "build", "dist", "renv", "node_modules"
  }

  /** Directory names pruned only as direct children of the root. */
  const ExcludeDirsRootOnly: set<string> := {"data"}

  /** Directory-name endings pruned wherever they occur. */
  const ExcludeDirPatterns: seq<string> := [".egg-info"]

  /** Lower-cased file suffixes never read as text. */
  const ExcludeExtensions: set<string> := {
    ".pyc", ".pyo", ".so", ".dll", ".exe", ".png", ".jpg", ".jpeg", ".gif", ".ico",
    ".svg", ".parquet", ".arrow", ".feather", ".csv", ".zip", ".gz", ".tar", ".rar",
    ".7z", ".db", ".sqlite3", ".pdf", ".docx", ".xlsx", ".swp", ".swo"
  }

  /** File names skipped without being counted. */
  const ExcludeFiles: set<string> := {
    OutputFilename, ".DS_Store", "Thumbs.db", "celerybeat-schedule", ".env"
  }

  /** The run's excluded names: the fixed ones plus the archive name actually chosen. */
  function ExcludedNamesFor(outputFilename: string): (names: set<string>)
    ensures outputFilename in names
    ensures ExcludeFiles <= names && names <= ExcludeFiles + {outputFilename}
  {
    ExcludeFiles + {outputFilename}
  }

  predicate HasExcludedPattern(d: string) {
    exists p :: p in ExcludeDirPatterns && EndsWith(d, p)
  }

  /**
    Whether the walk keeps the child directory `d` of a directory; `atRoot` says that
    directory is the root. The three exclusion rules are tried in order and any of them
    prunes the child.
   */
  predicate KeepDir(d: string, atRoot: bool)
    ensures !atRoot ==> (KeepDir(d, atRoot) <==> d !in ExcludeDirsAnywhere && !HasExcludedPattern(d))
    ensures atRoot ==>
      (KeepDir(d, atRoot) <==> d !in ExcludeDirsAnywhere && d !in ExcludeDirsRootOnly && !HasExcludedPattern(d))
  {
    if d in ExcludeDirsAnywhere then false
    else if d in ExcludeDirsRootOnly && atRoot then false
    else if HasExcludedPattern(d) then false
    else true
  }
}
