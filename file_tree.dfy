/**
 * An in-memory snapshot of the file system the searcher walks. A directory
 * lists its subdirectories and its files in the order the file system
 * enumerates them (`EnumerateDirectories`, `EnumerateFiles`).
 */
module FileTree {
  import opened Wrappers
  import opened Paths

  /** A file: its name and its full path. */
  datatype File = File(name: string, fullPath: string)

  /** A directory: its name, its full path and its children in enumeration order. */
  datatype Dir = Dir(name: string, fullPath: string, subdirs: seq<Dir>, files: seq<File>)

  /** One entry found while walking a tree: a directory or a file. */
  datatype Entry = DirEntry(dir: Dir) | FileEntry(file: File) {
    function Path(): string {
      match this
      case DirEntry(d) => d.fullPath
      case FileEntry(f) => f.fullPath
    }
  }

  /** The subdirectories `ds` of the directory with full path `p` are well formed. */
  ghost predicate WellFormedSubdirs(p: string, ds: seq<Dir>)
    decreases ds
  {
    (forall i :: 0 <= i < |ds| ==>
       ValidName(ds[i].name) && ds[i].fullPath == Join(p, ds[i].name) && WellFormed(ds[i]))
    && (forall i, j :: 0 <= i < j < |ds| ==> ds[i].name != ds[j].name)
  }

  /** The files `fs` of the directory with full path `p` are well formed. */
  ghost predicate WellFormedFiles(p: string, fs: seq<File>) {
    (forall j :: 0 <= j < |fs| ==> ValidName(fs[j].name) && fs[j].fullPath == Join(p, fs[j].name))
    && (forall i, j :: 0 <= i < j < |fs| ==> fs[i].name != fs[j].name)
  }

  /**
   * A tree a real file system could hold: every child's full path is its
   * parent's full path joined with the child's name, names are valid, and no
   * two children of one directory share a name.
   */
  ghost predicate WellFormed(d: Dir)
    decreases d
  {
    && WellFormedSubdirs(d.fullPath, d.subdirs)
    && WellFormedFiles(d.fullPath, d.files)
    && (forall i, j :: 0 <= i < |d.subdirs| && 0 <= j < |d.files| ==> d.subdirs[i].name != d.files[j].name)
  }

  /** Entry `e` lies somewhere strictly below directory `d`. */
  ghost predicate EntryBelow(d: Dir, e: Entry)
    decreases d
  {
    || (exists i :: 0 <= i < |d.subdirs| && (e == DirEntry(d.subdirs[i]) || EntryBelow(d.subdirs[i], e)))
    || (exists j :: 0 <= j < |d.files| && e == FileEntry(d.files[j]))
  }

  /** Directory `x` is `d` itself or lies somewhere below it. */
  ghost predicate DirWithin(d: Dir, x: Dir) {
    x == d || EntryBelow(d, DirEntry(x))
  }

  /**
   * Every entry strictly below `d`, in the order a depth-first walk meets
   * them: each subdirectory followed by everything below it, then the files.
   */
  function Walk(d: Dir): seq<Entry>
    decreases d
  {
    SubdirWalk(d.subdirs) + FileWalk(d.files)
  }

  /** The walk of a list of sibling subdirectories. */
  function SubdirWalk(ds: seq<Dir>): seq<Entry>
    decreases ds
  {
    if ds == [] then []
    else SubdirWalk(ds[..|ds| - 1]) + [DirEntry(ds[|ds| - 1])] + Walk(ds[|ds| - 1])
  }

  /** The walk of a list of sibling files. */
  function FileWalk(fs: seq<File>): seq<Entry> {
    if fs == [] then [] else FileWalk(fs[..|fs| - 1]) + [FileEntry(fs[|fs| - 1])]
  }

  /** No two entries of `es` have the same full path. */
  ghost predicate DistinctPaths(es: seq<Entry>) {
    forall i, j :: 0 <= i < j < |es| ==> es[i].Path() != es[j].Path()
  }

  /**
   * Looks up the directory with full path `path` in the tree rooted at `d`,
   * standing for `Directory.Exists` followed by `new DirectoryInfo(path)`.
   */
  function Find(d: Dir, path: string): (r: Option<Dir>)
    ensures r.Some? ==> r.value.fullPath == path && DirWithin(d, r.value)
    ensures r.None? ==> forall x :: DirWithin(d, x) ==> x.fullPath != path
    decreases d, 1
  {
    if d.fullPath == path then Some(d) else FindAmong(d.subdirs, path)
  }

  /** Looks up `path` in the trees rooted at the directories `ds`, in order. */
  function FindAmong(ds: seq<Dir>, path: string): (r: Option<Dir>)
    ensures r.Some? ==> r.value.fullPath == path && exists i :: 0 <= i < |ds| && DirWithin(ds[i], r.value)
    ensures r.None? ==> forall i, x :: 0 <= i < |ds| && DirWithin(ds[i], x) ==> x.fullPath != path
    decreases ds, 0
  {
    if ds == [] then None
    else match Find(ds[0], path)
      case Some(x) => Some(x)
      case None => FindAmong(ds[1..], path)
  }
}
