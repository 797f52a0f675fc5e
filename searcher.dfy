/**
 * The recursive name search of `Searcher.SearchAsync`: directories match when
 * their name contains the query, files only when their name equals it, both
 * ignoring case. Results are collected depth first: each subdirectory's own
 * path (when it matches) and then everything found below it, and after all
 * subdirectories the matching files of the current directory.
 */
module Searcher {
  import opened Wrappers
  import opened Text
  import opened FileTree

  /** The error raised when the starting directory does not exist. */
  datatype SearchError = DirectoryNotFound(path: string) {
    /** The exception's message. */
    function Message(): string {
      path + " is not a valid directory"
    }
  }

  /** The directory rule: the lower-cased name contains the lower-cased query. */
  predicate DirMatches(name: string, query: string) {
    Contains(LowerStr(name), LowerStr(query))
  }

  /** The file rule: the lower-cased name equals the lower-cased query. */
  predicate FileMatches(name: string, query: string) {
    LowerStr(name) == LowerStr(query)
  }

  /** An entry satisfies the rule for its kind. */
  predicate EntryMatches(e: Entry, query: string) {
    match e
    case DirEntry(d) => DirMatches(d.name, query)
    case FileEntry(f) => FileMatches(f.name, query)
  }

  /** What one subdirectory adds for its own name. */
  function DirHit(sub: Dir, query: string): seq<string> {
    if DirMatches(sub.name, query) then [sub.fullPath] else []
  }

  /** What one file adds. */
  function FileHit(file: File, query: string): seq<string> {
    if FileMatches(file.name, query) then [file.fullPath] else []
  }

  /** The list the search of directory `d` returns. */
  function Results(d: Dir, query: string): seq<string>
    decreases d
  {
    SubdirResults(d.subdirs, query) + FileResults(d.files, query)
  }

  /** What the first loop has collected after visiting the subdirectories `ds`. */
  function SubdirResults(ds: seq<Dir>, query: string): seq<string>
    decreases ds
  {
    if ds == [] then []
    else
      var sub := ds[|ds| - 1];
      SubdirResults(ds[..|ds| - 1], query) + DirHit(sub, query) + Results(sub, query)
  }

  /** What the second loop adds after visiting the files `fs`. */
  function FileResults(fs: seq<File>, query: string): seq<string> {
    if fs == [] then [] else FileResults(fs[..|fs| - 1], query) + FileHit(fs[|fs| - 1], query)
  }

  /** The paths of the entries of `es` that satisfy their rule, in order. */
  function Hits(es: seq<Entry>, query: string): seq<string> {
    if es == [] then []
    else
      var e := es[|es| - 1];
      Hits(es[..|es| - 1], query) + (if EntryMatches(e, query) then [e.Path()] else [])
  }

  /**
   * Searches the directory `dir`: one loop over its subdirectories, adding a
   * subdirectory's path when it matches and then the results of searching it,
   * and one loop over its files, adding the matching ones.
   */
  method SearchDirectory(dir: Dir, query: string) returns (results: seq<string>)
    ensures results == Results(dir, query)
    decreases dir
  {
    results := [];
    for i := 0 to |dir.subdirs|
      invariant results == SubdirResults(dir.subdirs[..i], query)
    {
      var directoryInfo := dir.subdirs[i];
      if DirMatches(directoryInfo.name, query) {
        results := results + [directoryInfo.fullPath];
      }
      var directoryResults := SearchDirectory(directoryInfo, query);
      results := results + directoryResults;
      assert dir.subdirs[..i + 1][..i] == dir.subdirs[..i];
    }
    assert dir.subdirs[..|dir.subdirs|] == dir.subdirs;
    ghost var fromSubdirs := results;
    for j := 0 to |dir.files|
      invariant results == fromSubdirs + FileResults(dir.files[..j], query)
    {
      var file := dir.files[j];
      if FileMatches(file.name, query) {
        results := results + [file.fullPath];
      }
      assert dir.files[..j + 1][..j] == dir.files[..j];
    }
    assert dir.files[..|dir.files|] == dir.files;
  }

  /**
   * Searches the tree rooted at `startingDirectory` in the file system `fs`,
   * failing with `DirectoryNotFound` before any traversal when no directory
   * has that path.
   */
  method SearchAsync(fs: Dir, startingDirectory: string, query: string)
    returns (r: Result<seq<string>, SearchError>)
    ensures r.Failure? <==> forall x :: DirWithin(fs, x) ==> x.fullPath != startingDirectory
    ensures r.Failure? ==> r.error == DirectoryNotFound(startingDirectory)
    ensures r.Success? ==> Find(fs, startingDirectory).Some?
                           && r.value == Results(Find(fs, startingDirectory).value, query)
  {
    var start := Find(fs, startingDirectory);
    if start.None? {
      return Failure(DirectoryNotFound(startingDirectory));
    }
    var results := SearchDirectory(start.value, query);
    return Success(results);
  }
}
