/**
 * Directory paths as strings. A child's full path is its parent's full path,
 * a separator and the child's name, as `DirectoryInfo.FullName` composes it;
 * a parent whose path already ends with the separator (a root such as `/`)
 * gets no second one.
 */
module Paths {

  /** The path separator. */
  const Sep: char := '/'

  /** A name the file system accepts for one entry: not empty and without a separator. */
  predicate ValidName(name: string) {
    |name| > 0 && Sep !in name
  }

  /**
   * The text every path strictly inside the directory `p` starts with: `p`
   * itself when it already ends with the separator, otherwise `p` and a
   * separator.
   */
  function DirPrefix(p: string): (r: string)
    ensures |r| == |p| || |r| == |p| + 1
    ensures |r| > 0 && r[|r| - 1] == Sep
    ensures r[..|p|] == p
  {
    if |p| > 0 && p[|p| - 1] == Sep then p else p + [Sep]
  }

  /** The full path of the entry `name` in the directory whose full path is `parent`. */
  function Join(parent: string, name: string): string {
    DirPrefix(parent) + name
  }

  /** Path `x` lies strictly inside the directory with full path `p`. */
  predicate Inside(p: string, x: string) {
    |DirPrefix(p)| < |x| && x[..|DirPrefix(p)|] == DirPrefix(p)
  }

  /** Path `x` is `p` itself or lies inside it. */
  predicate AtOrInside(p: string, x: string) {
    x == p || Inside(p, x)
  }

  /** A joined path lies inside its parent. */
  lemma JoinInside(p: string, name: string)
    requires ValidName(name)
    ensures Inside(p, Join(p, name))
  {
    assert Join(p, name)[..|DirPrefix(p)|] == DirPrefix(p);
  }

  /** A path at or inside a child of `p` is inside `p`. */
  lemma InsideParent(p: string, name: string, x: string)
    requires ValidName(name)
    requires AtOrInside(Join(p, name), x)
    ensures Inside(p, x)
  {
    var pre, child := DirPrefix(p), Join(p, name);
    if x == child {
      JoinInside(p, name);
    } else {
      var q := DirPrefix(child);
      assert q[..|pre|] == child[..|pre|] == pre;
      assert x[..|pre|] == x[..|q|][..|pre|];
    }
  }

  /** The name of the child a path at or inside `Join(p, name)` passes through. */
  lemma ChildComponent(p: string, name: string, x: string)
    requires ValidName(name)
    requires AtOrInside(Join(p, name), x)
    ensures |DirPrefix(p)| + |name| <= |x|
    ensures x[|DirPrefix(p)|..|DirPrefix(p)| + |name|] == name
    ensures |x| == |DirPrefix(p)| + |name| || x[|DirPrefix(p)| + |name|] == Sep
  {
    var m, child := |DirPrefix(p)|, Join(p, name);
    if x == child {
      assert x[m..m + |name|] == name;
    } else {
      assert child[|child| - 1] == name[|name| - 1] != Sep;
      var q := DirPrefix(child);
      assert q == DirPrefix(p) + name + [Sep];
      assert x[..|q|] == q;
      assert q[m..m + |name|] == name && q[m + |name|] == Sep;
      assert x[m..m + |name|] == x[..|q|][m..m + |name|];
      assert x[m + |name|] == x[..|q|][m + |name|];
    }
  }

  /** Paths at or inside two differently named children of one directory never coincide. */
  lemma {:induction false} SiblingsDisjoint(p: string, a: string, b: string, x: string)
    requires ValidName(a) && ValidName(b) && a != b
    requires AtOrInside(Join(p, a), x)
    ensures !AtOrInside(Join(p, b), x)
  {
    if AtOrInside(Join(p, b), x) {
      ChildComponent(p, a, x);
      ChildComponent(p, b, x);
      SameComponent(x, |DirPrefix(p)|, a, b);
    }
  }

  /** Two valid names that both occupy the component of `x` starting at `m` are equal. */
  lemma SameComponent(x: string, m: nat, a: string, b: string)
    requires ValidName(a) && ValidName(b)
    requires m + |a| <= |x| && x[m..m + |a|] == a && (|x| == m + |a| || x[m + |a|] == Sep)
    requires m + |b| <= |x| && x[m..m + |b|] == b && (|x| == m + |b| || x[m + |b|] == Sep)
    ensures a == b
  {
  }
}
