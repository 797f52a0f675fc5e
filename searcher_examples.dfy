/** Concrete searches over small trees, in the file system's own terms. */
module SearcherExamples {
  import opened Wrappers
  import opened Text
  import opened Paths
  import opened FileTree
  import opened Searcher
  import opened SearcherProofs

  /** A directory named `MyFolder` matches any part of its name in any case; `Other` does not match `folder`. */
  lemma DirectoryRuleExamples()
    ensures DirMatches("MyFolder", "folder")
    ensures DirMatches("MyFolder", "FOLDER")
    ensures DirMatches("MyFolder", "yFo")
    ensures !DirMatches("Other", "folder")
  {
    MyFolderExamples();
    OtherExample();
  }

  lemma MyFolderExamples()
    ensures DirMatches("MyFolder", "folder")
    ensures DirMatches("MyFolder", "FOLDER")
    ensures DirMatches("MyFolder", "yFo")
  {
    assert LowerStr("MyFolder") == "myfolder";
    assert LowerStr("FOLDER") == "folder" == LowerStr("folder");
    assert LowerStr("yFo") == "yfo";
    DirRuleIsSubstring("MyFolder", "folder");
    DirRuleIsSubstring("MyFolder", "FOLDER");
    DirRuleIsSubstring("MyFolder", "yFo");
    assert OccursAt("myfolder", "folder", 2);
    assert OccursAt("myfolder", "yfo", 1);
  }

  lemma OtherExample()
    ensures !DirMatches("Other", "folder")
  {
    assert |LowerStr("Other")| == 5 && |LowerStr("folder")| == 6;
  }

  /** A file named `report.txt` matches its whole name in any case, but not the part `report`. */
  lemma FileRuleExamples()
    ensures FileMatches("report.txt", "report.txt")
    ensures FileMatches("report.txt", "REPORT.TXT")
    ensures !FileMatches("report.txt", "report")
    ensures DirMatches("report.txt", "report")
  {
    assert LowerStr("REPORT.TXT") == "report.txt" == LowerStr("report.txt");
    assert LowerStr("report") == "report";
    DirRuleIsSubstring("report.txt", "report");
    assert OccursAt("report.txt", "report", 0);
  }

  /** `/r` holds `FooBar/` (holding `foo.txt`) and `bar.txt`. */
  function FooBarTree(): Dir {
    Dir("r", "/r",
        [Dir("FooBar", "/r/FooBar", [], [File("foo.txt", "/r/FooBar/foo.txt")])],
        [File("bar.txt", "/r/bar.txt")])
  }

  /** The example tree is one a real file system could hold. */
  lemma FooBarTreeIsWellFormed()
    ensures WellFormed(FooBarTree())
  {
    var t := FooBarTree();
    FooBarPathsAreJoined();
    FooBarSubdirIsWellFormed();
    assert WellFormedSubdirs(t.fullPath, t.subdirs);
    assert WellFormedFiles(t.fullPath, t.files);
  }

  lemma FooBarPathsAreJoined()
    ensures ValidName("FooBar") && ValidName("foo.txt") && ValidName("bar.txt")
    ensures "/r/FooBar" == Join("/r", "FooBar")
    ensures "/r/bar.txt" == Join("/r", "bar.txt")
    ensures "/r/FooBar/foo.txt" == Join("/r/FooBar", "foo.txt")
  {
    assert DirPrefix("/r") == "/r/";
    assert DirPrefix("/r/FooBar") == "/r/FooBar/";
  }

  lemma FooBarSubdirIsWellFormed()
    ensures WellFormed(FooBarTree().subdirs[0])
  {
    var sub := FooBarTree().subdirs[0];
    FooBarPathsAreJoined();
    assert WellFormedFiles(sub.fullPath, sub.files);
  }

  /**
   * Searching `/r` for `foo` finds the directory `FooBar` by substring, but
   * not `foo.txt`, whose whole name is not `foo`.
   */
  lemma FooBarSearch()
    ensures Results(FooBarTree(), "foo") == ["/r/FooBar"]
  {
    var sub := FooBarTree().subdirs[0];
    assert LowerStr("FooBar") == "foobar";
    assert LowerStr("foo") == "foo";
    assert DirMatches("FooBar", "foo");
    assert !FileMatches("foo.txt", "foo");
    assert !FileMatches("bar.txt", "foo");
    assert Results(sub, "foo") == [];
  }

  /**
   * A tree rooted at the file system root `/`: its children's full paths get
   * no second separator, so `/` holds `a/` (holding `a.txt`) at `/a` and
   * `b.txt` at `/b.txt`.
   */
  function RootTree(): Dir {
    Dir("", "/",
        [Dir("a", "/a", [], [File("a.txt", "/a/a.txt")])],
        [File("b.txt", "/b.txt")])
  }

  /** A tree rooted at `/` is one a real file system could hold. */
  lemma RootTreeIsWellFormed()
    ensures WellFormed(RootTree())
  {
    var t := RootTree();
    RootPathsAreJoined();
    assert WellFormedFiles(t.subdirs[0].fullPath, t.subdirs[0].files);
    assert WellFormed(t.subdirs[0]);
    assert WellFormedSubdirs(t.fullPath, t.subdirs);
    assert WellFormedFiles(t.fullPath, t.files);
  }

  lemma RootPathsAreJoined()
    ensures ValidName("a") && ValidName("a.txt") && ValidName("b.txt")
    ensures "/a" == Join("/", "a")
    ensures "/b.txt" == Join("/", "b.txt")
    ensures "/a/a.txt" == Join("/a", "a.txt")
  {
    assert DirPrefix("/") == "/";
    assert DirPrefix("/a") == "/a/";
  }

  /** Searching the whole file system from `/` for `A` finds `/a`. */
  lemma RootSearch()
    ensures Results(RootTree(), "A") == ["/a"]
  {
    var sub := RootTree().subdirs[0];
    assert LowerStr("A") == "a" == LowerStr("a");
    assert DirMatches("a", "A");
    assert !FileMatches("a.txt", "A");
    assert !FileMatches("b.txt", "A");
    assert Results(sub, "A") == [];
  }

  /** `/r/a/b/c`, three levels below `/r`, holds the directory `Target`. */
  function DeepTree(): Dir {
    Dir("r", "/r",
        [Dir("a", "/r/a",
             [Dir("b", "/r/a/b",
                  [Dir("c", "/r/a/b/c",
                       [Dir("Target", "/r/a/b/c/Target", [], [])],
                       [])],
                  [])],
             [])],
        [])
  }

  /** A matching directory four levels down is still found. */
  lemma DeepSearch()
    ensures Results(DeepTree(), "target") == ["/r/a/b/c/Target"]
  {
    var a := DeepTree().subdirs[0];
    var b := a.subdirs[0];
    var c := b.subdirs[0];
    var t := c.subdirs[0];
    assert LowerStr("target") == "target" == LowerStr("Target");
    assert DirMatches("Target", "target");
    assert !DirMatches("a", "target") && !DirMatches("b", "target") && !DirMatches("c", "target");
    assert Results(t, "target") == [];
    assert Results(c, "target") == ["/r/a/b/c/Target"];
    assert Results(b, "target") == ["/r/a/b/c/Target"];
    assert Results(a, "target") == ["/r/a/b/c/Target"];
  }

  /** Looking up a path no directory has fails. */
  lemma MissingDirectory()
    ensures Find(FooBarTree(), "/no/such/dir") == None
  {
  }
}
