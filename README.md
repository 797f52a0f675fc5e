# File searcher, modelled in Dafny

This project models `Searcher.SearchAsync` from the C# file searcher. The method
searches a directory tree for a query string:

- A **subdirectory** matches when its lower-cased name contains the lower-cased
  query as a substring.
- A **file** matches only when its lower-cased name equals the lower-cased query.
- A starting directory that does not exist raises `DirectoryNotFoundException`
  before anything is walked.
- Results are collected depth first. For each subdirectory in enumeration order,
  its own path comes first when it matches, then everything its sub-search finds.
  After all subdirectories come the matching files of the current directory.

The file system is an in-memory snapshot (`FileTree.Dir`). Each directory has a
name, a full path, its subdirectories and its files. The order of the sequences
stands for the order the file system enumerates them. `FileTree.Find` stands for
`Directory.Exists` followed by `new DirectoryInfo(...)`: it looks a full path up
in the tree and may fail.

The modules:

- `Wrappers`: `Option` and `Result`.
- `Text`: ASCII case folding (`Lower`, `LowerStr`) standing for
  `ToLowerInvariant`, and ordinal substring search (`Contains`) standing for
  `string.Contains`.
- `Paths`: the separator `/`, valid names, `Join` (how `FullName` is composed:
  the parent's path, a separator unless the parent's path already ends with one,
  as the root `/` does, and the name), and lemmas showing that paths inside two
  differently named siblings never coincide.
- `FileTree`: the tree, the well-formedness predicate, the entries below a
  directory, a depth-first `Walk`, and `Find`.
- `Searcher`: the two matching rules, the specification function `Results`, the
  imperative `SearchDirectory` (the two `foreach` loops over a growing result
  list, recursing once per subdirectory), and `SearchAsync` (the existence check
  followed by the walk).
- `SearcherProofs`: lemmas about `Results`. The central one,
  `ResultsAreFilteredWalk`, connects the interleaved way the code collects
  results with a reference definition: keep the entries of the depth-first walk
  that satisfy their rule, in walk order. Soundness, completeness, count, order
  and case-insensitivity follow from it.
- `SearcherExamples`: concrete trees and queries.

`FileTree.WellFormed` says a tree is one a real file system can hold:

- Every child's full path is `Join` of its parent's full path and its name: the
  parent's path, `/` and the name, except that a parent whose path already ends
  with `/` (the root) adds no second `/`, so the children of `/` are `/a`, `/b.txt`.
- Names are non-empty and contain no `/`.
- No two children of one directory share a name.

The lemmas that identify an entry by its path assume this predicate. These are
`EntryReturnedIff`, `ChildDirReturnedIff`, `FileReturnedIff`, `ResultsDistinct`,
`ResultsCount`, `ResultsInsideStart`, `FileMatchesComeLast` and
`FindLocatesEveryDirectory`. Without it, two different entries could share a
path, and "the path is in the result" would say nothing about which entry
matched. Soundness and completeness in terms of entries (`SearchSound`,
`SearchComplete`) hold for every tree.

Recursion. In the source, each subdirectory is searched by calling
`SearchAsync` again with the subdirectory's full path, which repeats the
existence check. In the model, `SearchDirectory` recurses on the enumerated
subdirectory directly. `RecursiveLookupFindsChild` proves the two are the same:
in a well-formed tree, looking up a subdirectory's full path finds that very
subdirectory, so the repeated check never fails.

The code's exact rule for files has a consequence. Take a tree where `/r` holds
`FooBar/`, `FooBar/` holds `foo.txt`, and `/r` holds `bar.txt`. The query `foo`
finds `/r/FooBar` but not `/r/FooBar/foo.txt`, because the whole name
`foo.txt` is not `foo`. `SearcherExamples.FooBarSearch` proves exactly
`["/r/FooBar"]`. `SearcherExamples.RootTreeIsWellFormed` shows that a snapshot
rooted at `/` meets `WellFormed`, so the lemmas above also cover a search of the
whole file system from its root.

## Model

| member | source | states |
|---|---|---|
| `Text.ContainsOccurs` | Searcher.cs:31 | The substring test holds exactly when the query occurs in the name at some index (both directions); an empty query occurs in every name. |
| `Text.LowerStrIdempotent` | Searcher.cs:31 | Lower-casing is idempotent, so lower-casing an already lower-cased query changes nothing. |
| `Text.LowerStrOfUpperStr` | Searcher.cs:53 | Upper-casing a string before lower-casing it gives the same lower-cased form. |
| `FileTree.Find` | Searcher.cs:19-25 | The lookup of the starting path succeeds only with a directory at or below the root that has exactly that path, and fails only when no directory in the tree has that path. |
| `Searcher.SearchDirectory` | Searcher.cs:26-63 | The two loops (add a matching subdirectory's path, then add its sub-search's results; then add each matching file) return exactly `Results(dir, query)`. |
| `Searcher.SearchAsync` | Searcher.cs:16-64 | Fails exactly when no directory in the file system has the starting path, and then with `DirectoryNotFound` carrying that path and no results; otherwise returns the results of searching the found directory. |
| `SearcherProofs.DirRuleIsSubstring` | Searcher.cs:31 | A directory matches exactly when the lower-cased query occurs somewhere in its lower-cased name. |
| `SearcherProofs.FileRuleIsWholeName` | Searcher.cs:53 | A file matches exactly when the directory rule holds and the query is as long as the whole name, so a query that is a proper part of a file name does not find it. |
| `SearcherProofs.ResultsAreFilteredWalk` | Searcher.cs:29-61 | The result list equals the paths of the entries of the depth-first walk (each subdirectory, then everything below it, then the files) that satisfy their rule, in walk order. |
| `SearcherProofs.WalkMembership` | Searcher.cs:29-51 | The walk lists exactly the directories and files at any depth strictly below the start. |
| `SearcherProofs.SearchSound` | Searcher.cs:29-61 | Every returned path is the path of a directory or file strictly below the start that satisfies its rule. |
| `SearcherProofs.SearchComplete` | Searcher.cs:29-61 | Every directory or file at any depth below the start that satisfies its rule has its path returned. |
| `SearcherProofs.ResultsInsideStart` | Searcher.cs:29-61 | In a well-formed tree every returned path lies strictly inside the starting directory, and the starting directory's own path is never returned. |
| `SearcherProofs.EntryReturnedIff` | Searcher.cs:31-56 | In a well-formed tree an entry's path is returned exactly when the entry satisfies the rule for its kind. |
| `SearcherProofs.ChildDirReturnedIff` | Searcher.cs:31-34 | In a well-formed tree a child directory's path is returned exactly when its lower-cased name contains the lower-cased query. |
| `SearcherProofs.FileReturnedIff` | Searcher.cs:53-56 | In a well-formed tree a file's path is returned exactly when its lower-cased name equals the lower-cased query. |
| `SearcherProofs.ResultsDistinct` | Searcher.cs:29-61 | In a well-formed tree no path is returned twice. |
| `SearcherProofs.ResultsCount` | Searcher.cs:29-61 | In a well-formed tree the number of results equals the number of matching entries below the start. |
| `SearcherProofs.ResultsIgnoreQueryCase` | Searcher.cs:31-53 | Two queries with the same lower-cased form give the same result list. |
| `SearcherProofs.ResultsIgnoreCaseChange` | Searcher.cs:31-53 | Upper-casing or lower-casing the query leaves the result list unchanged. |
| `SearcherProofs.SubdirBlockPlacement` | Searcher.cs:29-61 | Each subdirectory contributes one contiguous block (its own path when it matches, immediately followed by its whole sub-search). The block starts right after the earlier subdirectories' blocks and ends before the current level's file matches, which close the list. |
| `SearcherProofs.FileMatchesComeLast` | Searcher.cs:51-61 | In a well-formed tree the list is all paths at or inside subdirectories, followed by the paths of the current level's matching files. |
| `SearcherProofs.SubdirResultsGrow` | Searcher.cs:29-48 | What the subdirectory loop has collected after `i` subdirectories is a prefix of what it has collected after any later `j`. |
| `SearcherProofs.FileResultsGrow` | Searcher.cs:51-61 | What the file loop has collected after `i` files is a prefix of what it has collected after any later `j`. |
| `SearcherProofs.PartialResultsArePrefixes` | Searcher.cs:26-61 | Every state the result list passes through in either loop is a prefix of the final result, so the list is only appended to. |
| `SearcherProofs.EmptyDirectoryYieldsNothing` | Searcher.cs:26-63 | A directory with no subdirectories and no files yields the empty list. |
| `SearcherProofs.FindLocatesEveryDirectory` | Searcher.cs:19-25 | In a well-formed tree, looking up any directory's full path finds that very directory. |
| `SearcherProofs.RecursiveLookupFindsChild` | Searcher.cs:41-44 | In a well-formed tree the recursive call's repeated existence check for a subdirectory's full path finds that enumerated subdirectory. |
| `SearcherExamples.DirectoryRuleExamples` | Searcher.cs:31 | `MyFolder` matches `folder`, `FOLDER` and `yFo`; `Other` does not match `folder`. |
| `SearcherExamples.FileRuleExamples` | Searcher.cs:53 | The file `report.txt` matches `report.txt` and `REPORT.TXT` but not `report`, which the directory rule would accept. |
| `SearcherExamples.FooBarSearch` | Searcher.cs:29-61 | Searching `/r` (holding `FooBar/foo.txt` and `bar.txt`) for `foo` returns exactly `["/r/FooBar"]`. |
| `SearcherExamples.DeepSearch` | Searcher.cs:29-48 | A directory matching the query four levels below the start is found. |
| `SearcherExamples.MissingDirectory` | Searcher.cs:19-22 | Looking up `/no/such/dir` in the example tree fails. |
| `SearcherExamples.FooBarTreeIsWellFormed` | Searcher.cs:34 | The example tree, whose full paths are composed as `FullName` composes them, satisfies the well-formedness predicate, so the predicate can be met. |
| `SearcherExamples.RootTreeIsWellFormed` | Searcher.cs:34 | A tree rooted at the file system root `/`, whose children have the full paths `/a` and `/b.txt` (no doubled separator), satisfies the well-formedness predicate. |
| `SearcherExamples.RootSearch` | Searcher.cs:29-61 | Searching that root tree for `A` returns exactly `["/a"]`. |
| `Paths.SiblingsDisjoint` | Searcher.cs:34 | No path is at or inside two differently named children of one directory, whether or not the parent's path ends with the separator. |

## Left out

- Real file system access (`Directory.Exists`, `DirectoryInfo`, `EnumerateDirectories`, `EnumerateFiles`, `FullName`): replaced by the in-memory tree, `Find` and `Join`, because it is I/O.
- Path normalisation by `DirectoryInfo` (relative paths, redundant trailing separators on non-root paths, the `\` separator and the `C:` default on Windows): paths are compared as given, with `/` as the only separator; a root written as a path ending in `/` is handled by `Join`.
- Null arguments: a null `query` raises `NullReferenceException` at the first child visited, and a null `startingDirectory` fails the existence check and raises `DirectoryNotFoundException`. Dafny strings cannot be null, so neither case is modelled.
- `Task.Factory.StartNew`, `await` and `.Result`: the code waits for each child's search before going on, so the behaviour is sequential and is modelled as a plain recursive call.
- Culture-specific and non-ASCII case mapping of `ToLowerInvariant`: `Lower` folds only `A`–`Z`, because the Unicode tables are a foreign library.
- Exceptions raised during the walk (access denied, a directory deleted mid-scan), symbolic link cycles and non-deterministic enumeration order: these are file system effects outside the code; the enumeration order is taken as the order of the sequences.
- The exception's message text is modelled (`SearchError.Message`), but nothing is proved about it.
