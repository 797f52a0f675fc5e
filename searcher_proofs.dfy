/**
 * Properties of the search: the result list is the list of matching entries
 * of a depth-first walk, it is sound and complete for the two matching
 * rules, ordered, free of duplicates, and independent of the query's case.
 */
module SearcherProofs {
  import opened Wrappers
  import opened Text
  import opened Paths
  import opened FileTree
  import opened Searcher

  // ---------------------------------------------------------------------
  // Filtering a list of entries

  /** Filtering distributes over concatenation. */
  lemma {:induction false} HitsAppend(a: seq<Entry>, b: seq<Entry>, query: string)
    ensures Hits(a + b, query) == Hits(a, query) + Hits(b, query)
    decreases |b|
  {
    if b == [] {
      assert a + b == a;
    } else {
      var init := b[..|b| - 1];
      assert (a + b)[..|a + b| - 1] == a + init;
      assert (a + b)[|a + b| - 1] == b[|b| - 1];
      HitsAppend(a, init, query);
    }
  }

  /** A path is among the hits exactly when some matching entry has it. */
  lemma {:induction false} HitsMembership(es: seq<Entry>, query: string, p: string)
    ensures p in Hits(es, query) <==>
      exists k :: 0 <= k < |es| && EntryMatches(es[k], query) && es[k].Path() == p
    decreases |es|
  {
    if es != [] {
      var init := es[..|es| - 1];
      HitsMembership(init, query, p);
      if p in Hits(init, query) {
        var k :| 0 <= k < |init| && EntryMatches(init[k], query) && init[k].Path() == p;
        assert es[k] == init[k];
      }
      if k :| 0 <= k < |es| && EntryMatches(es[k], query) && es[k].Path() == p {
        if k < |init| {
          assert init[k] == es[k];
        }
      }
    }
  }

  /** The hits only depend on the lower-cased query. */
  lemma {:induction false} HitsIgnoreQueryCase(es: seq<Entry>, q1: string, q2: string)
    requires LowerStr(q1) == LowerStr(q2)
    ensures Hits(es, q1) == Hits(es, q2)
    decreases |es|
  {
    if es != [] {
      HitsIgnoreQueryCase(es[..|es| - 1], q1, q2);
    }
  }

  /** Dropping the last entry keeps paths distinct. */
  lemma DistinctPathsInit(es: seq<Entry>)
    requires DistinctPaths(es) && es != []
    ensures DistinctPaths(es[..|es| - 1])
  {
    var init := es[..|es| - 1];
    forall i, j | 0 <= i < j < |init| ensures init[i].Path() != init[j].Path() {
      assert init[i] == es[i] && init[j] == es[j];
    }
  }

  /** Filtering entries with distinct paths gives a list without repetitions. */
  lemma {:induction false} HitsDistinct(es: seq<Entry>, query: string)
    requires DistinctPaths(es)
    ensures forall i, j :: 0 <= i < j < |Hits(es, query)| ==> Hits(es, query)[i] != Hits(es, query)[j]
    decreases |es|
  {
    if es != [] {
      var init, last := es[..|es| - 1], es[|es| - 1];
      DistinctPathsInit(es);
      HitsDistinct(init, query);
      HitsMembership(init, query, last.Path());
      assert last.Path() !in Hits(init, query) by {
        forall k | 0 <= k < |init| ensures init[k].Path() != last.Path() {
          assert init[k] == es[k];
        }
      }
    }
  }

  /** With distinct paths, there are as many hits as matching entries. */
  lemma {:induction false} HitsCount(es: seq<Entry>, query: string)
    requires DistinctPaths(es)
    ensures |Hits(es, query)| == |set e | e in es && EntryMatches(e, query)|
    decreases |es|
  {
    var after := set e | e in es && EntryMatches(e, query);
    if es == [] {
      assert after == {};
    } else {
      var init, last := es[..|es| - 1], es[|es| - 1];
      var before := set e | e in init && EntryMatches(e, query);
      DistinctPathsInit(es);
      HitsCount(init, query);
      assert es == init + [last];
      assert last !in before by {
        forall k | 0 <= k < |init| ensures init[k] != last {
          assert init[k] == es[k];
        }
      }
      if EntryMatches(last, query) {
        assert after == before + {last};
        assert |after| == |before| + 1;
      } else {
        assert after == before;
      }
    }
  }

  /** Concatenating two lists with distinct paths, none shared, keeps paths distinct. */
  lemma DistinctPathsAppend(a: seq<Entry>, b: seq<Entry>)
    requires DistinctPaths(a) && DistinctPaths(b)
    requires forall i, j :: 0 <= i < |a| && 0 <= j < |b| ==> a[i].Path() != b[j].Path()
    ensures DistinctPaths(a + b)
  {
    forall i, j | 0 <= i < j < |a + b| ensures (a + b)[i].Path() != (a + b)[j].Path() {
      if j < |a| {
        assert (a + b)[i] == a[i] && (a + b)[j] == a[j];
      } else if i < |a| {
        assert (a + b)[i] == a[i] && (a + b)[j] == b[j - |a|];
      } else {
        assert (a + b)[i] == b[i - |a|] && (a + b)[j] == b[j - |a|];
      }
    }
  }

  // ---------------------------------------------------------------------
  // The search is the filtered depth-first walk

  /** The search returns exactly the matching entries of the walk, in walk order. */
  lemma {:induction false} ResultsAreFilteredWalk(d: Dir, query: string)
    ensures Results(d, query) == Hits(Walk(d), query)
    decreases d
  {
    SubdirResultsAreFilteredWalk(d.subdirs, query);
    FileResultsAreFilteredWalk(d.files, query);
    HitsAppend(SubdirWalk(d.subdirs), FileWalk(d.files), query);
  }

  lemma {:induction false} SubdirResultsAreFilteredWalk(ds: seq<Dir>, query: string)
    ensures SubdirResults(ds, query) == Hits(SubdirWalk(ds), query)
    decreases ds
  {
    if ds != [] {
      var init, last := ds[..|ds| - 1], ds[|ds| - 1];
      SubdirResultsAreFilteredWalk(init, query);
      ResultsAreFilteredWalk(last, query);
      HitsAppend(SubdirWalk(init) + [DirEntry(last)], Walk(last), query);
      HitsAppend(SubdirWalk(init), [DirEntry(last)], query);
      assert [DirEntry(last)][..0] == [];
    }
  }

  lemma {:induction false} FileResultsAreFilteredWalk(fs: seq<File>, query: string)
    ensures FileResults(fs, query) == Hits(FileWalk(fs), query)
    decreases |fs|
  {
    if fs != [] {
      var init := fs[..|fs| - 1];
      FileResultsAreFilteredWalk(init, query);
      HitsAppend(FileWalk(init), [FileEntry(fs[|fs| - 1])], query);
      assert [FileEntry(fs[|fs| - 1])][..0] == [];
    }
  }

  /** The walk lists exactly the entries below the directory. */
  lemma {:induction false} WalkMembership(d: Dir, e: Entry)
    ensures e in Walk(d) <==> EntryBelow(d, e)
    decreases d
  {
    SubdirWalkMembership(d.subdirs, e);
    FileWalkMembership(d.files, e);
  }

  lemma {:induction false} SubdirWalkMembership(ds: seq<Dir>, e: Entry)
    ensures e in SubdirWalk(ds) <==> InOrBelowOneOf(ds, e)
    decreases ds
  {
    if ds != [] {
      var init, last := ds[..|ds| - 1], ds[|ds| - 1];
      SubdirWalkMembership(init, e);
      WalkMembership(last, e);
      assert e in SubdirWalk(ds) <==> e in SubdirWalk(init) || e == DirEntry(last) || e in Walk(last);
      InOrBelowOneOfSplit(ds, e);
    }
  }

  /** Entry `e` is one of the directories `ds` or lies below one of them. */
  ghost predicate InOrBelowOneOf(ds: seq<Dir>, e: Entry) {
    exists i :: 0 <= i < |ds| && (e == DirEntry(ds[i]) || EntryBelow(ds[i], e))
  }

  lemma InOrBelowOneOfSplit(ds: seq<Dir>, e: Entry)
    requires ds != []
    ensures InOrBelowOneOf(ds, e) <==>
      InOrBelowOneOf(ds[..|ds| - 1], e) || e == DirEntry(ds[|ds| - 1]) || EntryBelow(ds[|ds| - 1], e)
  {
    var init := ds[..|ds| - 1];
    if InOrBelowOneOf(init, e) {
      var i :| 0 <= i < |init| && (e == DirEntry(init[i]) || EntryBelow(init[i], e));
      assert ds[i] == init[i];
    }
    if InOrBelowOneOf(ds, e) {
      var i :| 0 <= i < |ds| && (e == DirEntry(ds[i]) || EntryBelow(ds[i], e));
      if i < |init| {
        assert init[i] == ds[i];
      }
    }
  }

  lemma {:induction false} FileWalkMembership(fs: seq<File>, e: Entry)
    ensures e in FileWalk(fs) <==> exists j :: 0 <= j < |fs| && e == FileEntry(fs[j])
    decreases |fs|
  {
    if fs != [] {
      var init := fs[..|fs| - 1];
      FileWalkMembership(init, e);
      if e in FileWalk(init) {
        var j :| 0 <= j < |init| && e == FileEntry(init[j]);
        assert fs[j] == init[j];
      }
      if j :| 0 <= j < |fs| && e == FileEntry(fs[j]) {
        if j < |init| {
          assert init[j] == fs[j];
        }
      }
    }
  }

  // ---------------------------------------------------------------------
  // In a well-formed tree every entry has its own path

  /** The file walk lists the files in order. */
  lemma {:induction false} FileWalkAt(fs: seq<File>)
    ensures |FileWalk(fs)| == |fs|
    ensures forall k :: 0 <= k < |fs| ==> FileWalk(fs)[k] == FileEntry(fs[k])
    decreases |fs|
  {
    if fs != [] {
      FileWalkAt(fs[..|fs| - 1]);
    }
  }

  /**
   * The walk of a well-formed directory never repeats a path, and every path
   * it lists lies inside the directory.
   */
  lemma {:induction false} WalkPathsDistinct(d: Dir)
    requires WellFormed(d)
    ensures DistinctPaths(Walk(d))
    ensures forall k :: 0 <= k < |Walk(d)| ==> Inside(d.fullPath, Walk(d)[k].Path())
    decreases d, 0
  {
    var p, a, b := d.fullPath, SubdirWalk(d.subdirs), FileWalk(d.files);
    SubdirWalkDistinct(p, d.subdirs);
    FileWalkAt(d.files);
    assert DistinctPaths(b) by {
      forall i, j | 0 <= i < j < |b| ensures b[i].Path() != b[j].Path() {
        SiblingsDisjoint(p, d.files[i].name, d.files[j].name, b[i].Path());
      }
    }
    forall i, j | 0 <= i < |a| && 0 <= j < |b| ensures a[i].Path() != b[j].Path() {
      var m :| 0 <= m < |d.subdirs| && AtOrInside(d.subdirs[m].fullPath, a[i].Path());
      SiblingsDisjoint(p, d.files[j].name, d.subdirs[m].name, b[j].Path());
    }
    DistinctPathsAppend(a, b);
    forall k | 0 <= k < |Walk(d)| ensures Inside(p, Walk(d)[k].Path()) {
      if k < |a| {
        var m :| 0 <= m < |d.subdirs| && AtOrInside(d.subdirs[m].fullPath, a[k].Path());
        InsideParent(p, d.subdirs[m].name, a[k].Path());
      } else {
        assert Walk(d)[k] == b[k - |a|] == FileEntry(d.files[k - |a|]);
        JoinInside(p, d.files[k - |a|].name);
      }
    }
  }

  /** A directory followed by its walk never repeats a path and stays at or inside the directory. */
  lemma BlockWithinDir(d: Dir)
    requires WellFormed(d)
    ensures DistinctPaths([DirEntry(d)] + Walk(d))
    ensures forall k :: 0 <= k < |[DirEntry(d)] + Walk(d)| ==> AtOrInside(d.fullPath, ([DirEntry(d)] + Walk(d))[k].Path())
    decreases d, 1
  {
    var w := Walk(d);
    var block := [DirEntry(d)] + w;
    WalkPathsDistinct(d);
    DistinctPathsAppend([DirEntry(d)], w);
    forall k | 0 <= k < |block| ensures AtOrInside(d.fullPath, block[k].Path()) {
      if k > 0 {
        assert block[k] == w[k - 1];
      }
    }
  }

  /** Paths at or inside the earlier siblings never meet the last sibling's block. */
  lemma EarlierSiblingsDisjoint(p: string, ds: seq<Dir>, a: seq<Entry>, block: seq<Entry>)
    requires ds != [] && WellFormedSubdirs(p, ds)
    requires forall k :: 0 <= k < |a| ==> AtOrInsideOneOf(ds[..|ds| - 1], a[k].Path())
    requires forall k :: 0 <= k < |block| ==> AtOrInside(ds[|ds| - 1].fullPath, block[k].Path())
    ensures forall i, j :: 0 <= i < |a| && 0 <= j < |block| ==> a[i].Path() != block[j].Path()
  {
    var init, last := ds[..|ds| - 1], ds[|ds| - 1];
    forall i, j | 0 <= i < |a| && 0 <= j < |block| ensures a[i].Path() != block[j].Path() {
      assert AtOrInsideOneOf(init, a[i].Path());
      var m :| 0 <= m < |init| && AtOrInside(init[m].fullPath, a[i].Path());
      assert init[m] == ds[m];
      SiblingsDisjoint(p, init[m].name, last.name, a[i].Path());
    }
  }

  /**
   * The walk of well-formed sibling subdirectories never repeats a path, and
   * every path it lists is at or inside one of the siblings.
   */
  lemma {:induction false} SubdirWalkDistinct(p: string, ds: seq<Dir>)
    requires WellFormedSubdirs(p, ds)
    ensures DistinctPaths(SubdirWalk(ds))
    ensures forall k :: 0 <= k < |SubdirWalk(ds)| ==> AtOrInsideOneOf(ds, SubdirWalk(ds)[k].Path())
    decreases ds, 2
  {
    if ds != [] {
      var init, last := ds[..|ds| - 1], ds[|ds| - 1];
      var a, w := SubdirWalk(init), Walk(last);
      var block := [DirEntry(last)] + w;
      assert WellFormedSubdirs(p, init);
      SubdirWalkDistinct(p, init);
      BlockWithinDir(last);
      EarlierSiblingsDisjoint(p, ds, a, block);
      DistinctPathsAppend(a, block);
      assert SubdirWalk(ds) == a + block;
      forall k | 0 <= k < |SubdirWalk(ds)| ensures AtOrInsideOneOf(ds, SubdirWalk(ds)[k].Path()) {
        if k < |a| {
          var m :| 0 <= m < |init| && AtOrInside(init[m].fullPath, a[k].Path());
          assert ds[m] == init[m];
        } else {
          assert SubdirWalk(ds)[k] == block[k - |a|];
          assert AtOrInside(ds[|ds| - 1].fullPath, block[k - |a|].Path());
        }
      }
    }
  }

  // ---------------------------------------------------------------------
  // The two matching rules

  /** A directory matches exactly when the lower-cased query occurs in its lower-cased name. */
  lemma DirRuleIsSubstring(name: string, query: string)
    ensures DirMatches(name, query) <==> exists i :: OccursAt(LowerStr(name), LowerStr(query), i)
  {
    ContainsOccurs(LowerStr(name), LowerStr(query));
  }

  /**
   * A file matches exactly when the directory rule holds and the query is as
   * long as the whole name: a query that is a proper part of a file's name
   * does not find the file.
   */
  lemma FileRuleIsWholeName(name: string, query: string)
    ensures FileMatches(name, query) <==> DirMatches(name, query) && |query| == |name|
  {
    var n, q := LowerStr(name), LowerStr(query);
    DirRuleIsSubstring(name, query);
    if FileMatches(name, query) {
      assert n[0..0 + |q|] == n;
      assert OccursAt(n, q, 0);
    }
    if DirMatches(name, query) && |query| == |name| {
      var i :| OccursAt(n, q, i);
      assert n[i..i + |q|] == n;
    }
  }

  // ---------------------------------------------------------------------
  // Soundness, completeness, uniqueness and count

  /** Every returned path belongs to an entry below the start that satisfies its rule. */
  lemma SearchSound(d: Dir, query: string, p: string)
    requires p in Results(d, query)
    ensures exists e :: EntryBelow(d, e) && EntryMatches(e, query) && e.Path() == p
  {
    ResultsAreFilteredWalk(d, query);
    HitsMembership(Walk(d), query, p);
    var k :| 0 <= k < |Walk(d)| && EntryMatches(Walk(d)[k], query) && Walk(d)[k].Path() == p;
    WalkMembership(d, Walk(d)[k]);
  }

  /** Every entry at any depth below the start that satisfies its rule is returned. */
  lemma SearchComplete(d: Dir, query: string, e: Entry)
    requires EntryBelow(d, e) && EntryMatches(e, query)
    ensures e.Path() in Results(d, query)
  {
    ResultsAreFilteredWalk(d, query);
    WalkMembership(d, e);
    var k :| 0 <= k < |Walk(d)| && Walk(d)[k] == e;
    HitsMembership(Walk(d), query, e.Path());
  }

  /** In a well-formed tree every returned path lies strictly inside the start. */
  lemma ResultsInsideStart(d: Dir, query: string)
    requires WellFormed(d)
    ensures forall p :: p in Results(d, query) ==> Inside(d.fullPath, p)
    ensures d.fullPath !in Results(d, query)
  {
    ResultsAreFilteredWalk(d, query);
    WalkPathsDistinct(d);
    forall p | p in Results(d, query) ensures Inside(d.fullPath, p) {
      HitsMembership(Walk(d), query, p);
    }
  }

  /** In a well-formed tree an entry's path is returned exactly when the entry satisfies its rule. */
  lemma EntryReturnedIff(d: Dir, query: string, e: Entry)
    requires WellFormed(d) && EntryBelow(d, e)
    ensures e.Path() in Results(d, query) <==> EntryMatches(e, query)
  {
    var w := Walk(d);
    ResultsAreFilteredWalk(d, query);
    WalkMembership(d, e);
    WalkPathsDistinct(d);
    HitsMembership(w, query, e.Path());
    var k :| 0 <= k < |w| && w[k] == e;
    if e.Path() in Results(d, query) {
      var k' :| 0 <= k' < |w| && EntryMatches(w[k'], query) && w[k'].Path() == e.Path();
      assert k' == k;
    }
  }

  /**
   * In a well-formed tree a child directory's path is returned exactly when its
   * lower-cased name contains the lower-cased query.
   */
  lemma ChildDirReturnedIff(d: Dir, query: string, i: int)
    requires WellFormed(d) && 0 <= i < |d.subdirs|
    ensures d.subdirs[i].fullPath in Results(d, query) <==>
      Contains(LowerStr(d.subdirs[i].name), LowerStr(query))
  {
    assert EntryBelow(d, DirEntry(d.subdirs[i]));
    EntryReturnedIff(d, query, DirEntry(d.subdirs[i]));
  }

  /**
   * In a well-formed tree a file's path is returned exactly when its
   * lower-cased name equals the lower-cased query.
   */
  lemma FileReturnedIff(d: Dir, query: string, j: int)
    requires WellFormed(d) && 0 <= j < |d.files|
    ensures d.files[j].fullPath in Results(d, query) <==> LowerStr(d.files[j].name) == LowerStr(query)
  {
    assert EntryBelow(d, FileEntry(d.files[j]));
    EntryReturnedIff(d, query, FileEntry(d.files[j]));
  }

  /** In a well-formed tree no path is returned twice. */
  lemma ResultsDistinct(d: Dir, query: string)
    requires WellFormed(d)
    ensures forall i, j :: 0 <= i < j < |Results(d, query)| ==> Results(d, query)[i] != Results(d, query)[j]
  {
    ResultsAreFilteredWalk(d, query);
    WalkPathsDistinct(d);
    HitsDistinct(Walk(d), query);
  }

  /** The entries below `d` that satisfy their rule. */
  ghost function MatchingEntries(d: Dir, query: string): set<Entry> {
    set e | e in Walk(d) && EntryMatches(e, query)
  }

  /**
   * In a well-formed tree the search returns one path per matching entry
   * below the start.
   */
  lemma ResultsCount(d: Dir, query: string)
    requires WellFormed(d)
    ensures forall e :: e in MatchingEntries(d, query) <==> EntryBelow(d, e) && EntryMatches(e, query)
    ensures |Results(d, query)| == |MatchingEntries(d, query)|
  {
    forall e ensures e in MatchingEntries(d, query) <==> EntryBelow(d, e) && EntryMatches(e, query) {
      WalkMembership(d, e);
    }
    ResultsAreFilteredWalk(d, query);
    WalkPathsDistinct(d);
    HitsCount(Walk(d), query);
  }

  // ---------------------------------------------------------------------
  // Case of the query

  /** Two queries with the same lower-cased form give the same results. */
  lemma ResultsIgnoreQueryCase(d: Dir, q1: string, q2: string)
    requires LowerStr(q1) == LowerStr(q2)
    ensures Results(d, q1) == Results(d, q2)
  {
    ResultsAreFilteredWalk(d, q1);
    ResultsAreFilteredWalk(d, q2);
    HitsIgnoreQueryCase(Walk(d), q1, q2);
  }

  /** Upper-casing or lower-casing the query does not change the results. */
  lemma ResultsIgnoreCaseChange(d: Dir, query: string)
    ensures Results(d, UpperStr(query)) == Results(d, query)
    ensures Results(d, LowerStr(query)) == Results(d, query)
  {
    LowerStrOfUpperStr(query);
    LowerStrIdempotent(query);
    ResultsIgnoreQueryCase(d, UpperStr(query), query);
    ResultsIgnoreQueryCase(d, LowerStr(query), query);
  }

  // ---------------------------------------------------------------------
  // Order and growth of the result list

  /** What the first loop has collected after `i` subdirectories is a prefix of what it collects after `j`. */
  lemma {:induction false} SubdirResultsGrow(ds: seq<Dir>, query: string, i: int, j: int)
    requires 0 <= i <= j <= |ds|
    ensures SubdirResults(ds[..i], query) <= SubdirResults(ds[..j], query)
    decreases j
  {
    if i < j {
      SubdirResultsGrow(ds, query, i, j - 1);
      assert ds[..j][..j - 1] == ds[..j - 1];
    }
  }

  /** What the second loop has collected after `i` files is a prefix of what it collects after `j`. */
  lemma {:induction false} FileResultsGrow(fs: seq<File>, query: string, i: int, j: int)
    requires 0 <= i <= j <= |fs|
    ensures FileResults(fs[..i], query) <= FileResults(fs[..j], query)
    decreases j
  {
    if i < j {
      FileResultsGrow(fs, query, i, j - 1);
      assert fs[..j][..j - 1] == fs[..j - 1];
    }
  }

  /**
   * The list is only ever appended to: each state the two loops of the search
   * pass through is a prefix of the final result.
   */
  lemma PartialResultsArePrefixes(d: Dir, query: string, i: int, j: int)
    requires 0 <= i <= |d.subdirs| && 0 <= j <= |d.files|
    ensures SubdirResults(d.subdirs[..i], query) <= Results(d, query)
    ensures SubdirResults(d.subdirs, query) + FileResults(d.files[..j], query) <= Results(d, query)
  {
    SubdirResultsGrow(d.subdirs, query, i, |d.subdirs|);
    FileResultsGrow(d.files, query, j, |d.files|);
    assert d.subdirs[..|d.subdirs|] == d.subdirs;
    assert d.files[..|d.files|] == d.files;
  }

  /**
   * The results contributed by the `i`-th subdirectory form one block: its own
   * path when it matches, immediately followed by its whole sub-search. The
   * block starts after everything the earlier subdirectories contributed and
   * ends before the current level's file matches, which close the list.
   */
  lemma SubdirBlockPlacement(d: Dir, query: string, i: int)
    requires 0 <= i < |d.subdirs|
    ensures
      var block := DirHit(d.subdirs[i], query) + Results(d.subdirs[i], query);
      var k := |SubdirResults(d.subdirs[..i], query)|;
      var files := FileResults(d.files, query);
      && k + |block| + |files| <= |Results(d, query)|
      && Results(d, query)[k..k + |block|] == block
      && Results(d, query)[|Results(d, query)| - |files|..] == files
  {
    var ds := d.subdirs;
    var before, block := SubdirResults(ds[..i], query), DirHit(ds[i], query) + Results(ds[i], query);
    var all, files := SubdirResults(ds, query), FileResults(d.files, query);
    SubdirBlockIsPrefix(ds, query, i);
    assert Results(d, query) == all + files;
    BlockOfPrefix(before, block, all, files);
  }

  /** The results up to and including subdirectory `i` are a prefix of the loop's final results. */
  lemma SubdirBlockIsPrefix(ds: seq<Dir>, query: string, i: int)
    requires 0 <= i < |ds|
    ensures SubdirResults(ds[..i], query) + (DirHit(ds[i], query) + Results(ds[i], query))
         <= SubdirResults(ds, query)
  {
    var upTo := SubdirResults(ds[..i + 1], query);
    SubdirResultsStep(ds, query, i);
    SubdirResultsGrow(ds, query, i + 1, |ds|);
    assert ds[..|ds|] == ds;
    ConcatPrefix(SubdirResults(ds[..i], query), DirHit(ds[i], query), Results(ds[i], query), upTo, SubdirResults(ds, query));
  }

  lemma ConcatPrefix(a: seq<string>, b: seq<string>, c: seq<string>, u: seq<string>, all: seq<string>)
    requires u == a + b + c && u <= all
    ensures a + (b + c) <= all
  {
    assert a + b + c == a + (b + c);
  }

  /** Visiting one more subdirectory appends its own hit and its sub-search. */
  lemma SubdirResultsStep(ds: seq<Dir>, query: string, i: int)
    requires 0 <= i < |ds|
    ensures SubdirResults(ds[..i + 1], query)
         == SubdirResults(ds[..i], query) + DirHit(ds[i], query) + Results(ds[i], query)
  {
    assert ds[..i + 1][..i] == ds[..i];
    assert ds[..i + 1][i] == ds[i];
  }

  /** A block that follows `before` in a prefix of `all` sits right after `before` in `all + tail`. */
  lemma BlockOfPrefix(before: seq<string>, block: seq<string>, all: seq<string>, tail: seq<string>)
    requires before + block <= all
    ensures |before| + |block| + |tail| <= |all + tail|
    ensures (all + tail)[|before|..|before| + |block|] == block
    ensures (all + tail)[|all + tail| - |tail|..] == tail
  {
    assert (all + tail)[|before|..|before| + |block|] == all[|before|..|before| + |block|];
    assert all[|before|..|before| + |block|] == (before + block)[|before|..];
  }

  /** Path `x` is at or inside one of the directories `ds`. */
  ghost predicate AtOrInsideOneOf(ds: seq<Dir>, x: string) {
    exists i :: 0 <= i < |ds| && AtOrInside(ds[i].fullPath, x)
  }

  /** Path `x` is the path of one of the files `fs` that matches the query. */
  ghost predicate MatchingFilePath(fs: seq<File>, query: string, x: string) {
    exists j :: 0 <= j < |fs| && x == fs[j].fullPath && FileMatches(fs[j].name, query)
  }

  /**
   * In a well-formed tree the list splits into two parts: first paths at or
   * inside one of the subdirectories, then the paths of the current level's
   * matching files.
   */
  lemma FileMatchesComeLast(d: Dir, query: string)
    requires WellFormed(d)
    ensures
      var r, files := Results(d, query), FileResults(d.files, query);
      && (forall k :: 0 <= k < |r| - |files| ==> AtOrInsideOneOf(d.subdirs, r[k]))
      && (forall k :: |r| - |files| <= k < |r| ==> MatchingFilePath(d.files, query, r[k]))
  {
    var r, subs, files := Results(d, query), SubdirResults(d.subdirs, query), FileResults(d.files, query);
    SubdirResultsWithin(d.fullPath, d.subdirs, query);
    FileResultsWithin(d.files, query);
    forall k | 0 <= k < |r| - |files| ensures AtOrInsideOneOf(d.subdirs, r[k]) {
      assert r[k] == subs[k];
    }
    forall k | |r| - |files| <= k < |r| ensures MatchingFilePath(d.files, query, r[k]) {
      assert r[k] == files[k - |subs|];
    }
  }

  /** Everything the first loop collects is at or inside one of the subdirectories. */
  lemma {:induction false} SubdirResultsWithin(p: string, ds: seq<Dir>, query: string)
    requires WellFormedSubdirs(p, ds)
    ensures forall k :: 0 <= k < |SubdirResults(ds, query)| ==> AtOrInsideOneOf(ds, SubdirResults(ds, query)[k])
    decreases |ds|
  {
    if ds != [] {
      var init, last := ds[..|ds| - 1], ds[|ds| - 1];
      var r, a, block := SubdirResults(ds, query), SubdirResults(init, query), DirHit(last, query) + Results(last, query);
      assert WellFormedSubdirs(p, init);
      SubdirResultsWithin(p, init, query);
      ResultsInsideStart(last, query);
      assert r == a + block;
      forall k | 0 <= k < |r| ensures AtOrInsideOneOf(ds, r[k]) {
        if k < |a| {
          assert AtOrInsideOneOf(init, a[k]);
          var m :| 0 <= m < |init| && AtOrInside(init[m].fullPath, a[k]);
          assert ds[m] == init[m] && r[k] == a[k];
        } else {
          assert r[k] == block[k - |a|];
          assert block[k - |a|] in block;
          assert AtOrInside(ds[|ds| - 1].fullPath, r[k]);
        }
      }
    }
  }

  /** Everything the second loop collects is the path of a matching file of the level. */
  lemma {:induction false} FileResultsWithin(fs: seq<File>, query: string)
    ensures forall k :: 0 <= k < |FileResults(fs, query)| ==> MatchingFilePath(fs, query, FileResults(fs, query)[k])
    decreases |fs|
  {
    if fs != [] {
      var init, last := fs[..|fs| - 1], fs[|fs| - 1];
      var r, a := FileResults(fs, query), FileResults(init, query);
      FileResultsWithin(init, query);
      assert r == a + FileHit(last, query);
      forall k | 0 <= k < |r| ensures MatchingFilePath(fs, query, r[k]) {
        if k < |a| {
          assert MatchingFilePath(init, query, a[k]);
          var m :| 0 <= m < |init| && a[k] == init[m].fullPath && FileMatches(init[m].name, query);
          assert fs[m] == init[m] && r[k] == a[k];
        } else {
          assert FileHit(last, query) == [last.fullPath];
          assert r[k] == fs[|fs| - 1].fullPath && FileMatches(fs[|fs| - 1].name, query);
        }
      }
    }
  }

  /** A directory without subdirectories and files yields the empty list. */
  lemma EmptyDirectoryYieldsNothing(d: Dir, query: string)
    requires d.subdirs == [] && d.files == []
    ensures Results(d, query) == []
  {
  }

  // ---------------------------------------------------------------------
  // Locating directories

  /** A subdirectory of a directory within the tree is within the tree. */
  lemma {:induction false} WithinChild(fs: Dir, d: Dir, i: int)
    requires DirWithin(fs, d) && 0 <= i < |d.subdirs|
    ensures DirWithin(fs, d.subdirs[i])
    decreases fs
  {
    var c := d.subdirs[i];
    if d == fs {
      assert EntryBelow(fs, DirEntry(c));
    } else {
      var k :| 0 <= k < |fs.subdirs| && (DirEntry(d) == DirEntry(fs.subdirs[k]) || EntryBelow(fs.subdirs[k], DirEntry(d)));
      WithinChild(fs.subdirs[k], d, i);
      assert EntryBelow(fs.subdirs[k], DirEntry(c)) || fs.subdirs[k] == c;
      assert EntryBelow(fs, DirEntry(c));
    }
  }

  /** In a well-formed tree looking up a directory's full path finds that very directory. */
  lemma FindLocatesEveryDirectory(fs: Dir, x: Dir)
    requires WellFormed(fs) && DirWithin(fs, x)
    ensures Find(fs, x.fullPath) == Some(x)
  {
    if x != fs {
      var w := Walk(fs);
      WalkPathsDistinct(fs);
      WalkMembership(fs, DirEntry(x));
      var k :| 0 <= k < |w| && w[k] == DirEntry(x);
      assert Inside(fs.fullPath, x.fullPath);
      assert x.fullPath != fs.fullPath;
      var y := Find(fs, x.fullPath).value;
      assert y != fs;
      WalkMembership(fs, DirEntry(y));
      var l :| 0 <= l < |w| && w[l] == DirEntry(y);
      assert w[k].Path() == w[l].Path();
      assert k == l;
    }
  }

  /**
   * The search recurses into each subdirectory by its full path, checking
   * again that it exists. In a well-formed tree that check finds the
   * enumerated subdirectory itself, so it never fails and the recursive call
   * searches exactly that subdirectory.
   */
  lemma RecursiveLookupFindsChild(fs: Dir, startingDirectory: string, i: int)
    requires WellFormed(fs)
    requires Find(fs, startingDirectory).Some? && 0 <= i < |Find(fs, startingDirectory).value.subdirs|
    ensures Find(fs, Find(fs, startingDirectory).value.subdirs[i].fullPath)
         == Some(Find(fs, startingDirectory).value.subdirs[i])
  {
    var d := Find(fs, startingDirectory).value;
    WithinChild(fs, d, i);
    FindLocatesEveryDirectory(fs, d.subdirs[i]);
  }
}
