/**
  The translation trees and `compare_keys`: which keys one language's files have
  that the same files of another language lack.

  A tree is a map from the path of every file of a language directory, relative to
  that directory, to the file's text. `compare_keys` is given only the files that
  `get_file_paths` lists for A, those ending in `.ftl` (`FluentFiles`); a path of A
  "exists" in B when B has a file, of any name, at the same relative path.
*/
module KeyDiff {
  import opened Text
  import opened Fluent

  /** The suffix `get_file_paths` keeps. */
  const FluentSuffix := ".ftl"

  /** The paths of a directory walk that name Fluent files, in walk order. */
  function FluentPaths(paths: seq<string>): (r: seq<string>)
    ensures |r| <= |paths|
  {
    if paths == [] then []
    else
      var init := FluentPaths(paths[..|paths| - 1]);
      if EndsWith(paths[|paths| - 1], FluentSuffix) then init + [paths[|paths| - 1]] else init
  }

  /** `get_file_paths`, over the paths the walk produced (`os.path.join(root, file)` for each file). */
  method GetFilePaths(walked: seq<string>) returns (filePaths: seq<string>)
    ensures filePaths == FluentPaths(walked)
  {
    filePaths := [];
    for i := 0 to |walked|
      invariant filePaths == FluentPaths(walked[..i])
    {
      assert walked[..i + 1][..i] == walked[..i];
      if EndsWith(walked[i], FluentSuffix) {
        filePaths := filePaths + [walked[i]];
      }
    }
    assert walked[..|walked|] == walked;
  }

  /** The walk keeps a path exactly when it ends in `.ftl`. */
  lemma {:induction false} FluentPathsMembers(paths: seq<string>, p: string)
    ensures p in FluentPaths(paths) <==> p in paths && EndsWith(p, FluentSuffix)
  {
    if paths != [] {
      var init := paths[..|paths| - 1];
      FluentPathsMembers(init, p);
      assert paths == init + [paths[|paths| - 1]];
    }
  }

  /** `r` is `s` with some of its elements left out and the others kept in order. */
  predicate Subsequence(r: seq<string>, s: seq<string>)
    decreases |s|
  {
    if r == [] then true
    else if s == [] then false
    else
      (r[|r| - 1] == s[|s| - 1] && Subsequence(r[..|r| - 1], s[..|s| - 1]))
      || Subsequence(r, s[..|s| - 1])
  }

  /**
    Filtering keeps the walk order: the result is a subsequence of the walk, every path
    in it ends in `.ftl`, and it is the whole walk exactly when every walked path does.
  */
  lemma {:induction false} FluentPathsOrdered(paths: seq<string>)
    ensures Subsequence(FluentPaths(paths), paths)
    ensures forall i :: 0 <= i < |FluentPaths(paths)| ==> EndsWith(FluentPaths(paths)[i], FluentSuffix)
    ensures FluentPaths(paths) == paths <==> forall i :: 0 <= i < |paths| ==> EndsWith(paths[i], FluentSuffix)
  {
    if paths != [] {
      var init, last := paths[..|paths| - 1], paths[|paths| - 1];
      FluentPathsOrdered(init);
      var r := FluentPaths(paths);
      assert forall i :: 0 <= i < |init| ==> init[i] == paths[i];
      if EndsWith(last, FluentSuffix) {
        assert r[..|r| - 1] == FluentPaths(init);
      } else {
        assert FluentPaths(paths) != paths;
      }
    }
  }

  /** The relative paths of the files of a tree that `get_file_paths` lists. */
  function FluentFiles(tree: map<string, string>): (r: set<string>)
    ensures r <= tree.Keys
  {
    set p | p in tree && EndsWith(p, FluentSuffix)
  }

  /**
    `compare_keys(A, B)` on the files `get_file_paths` lists for A: for every one of
    them that B also has, the keys of A's file missing from B's.
  */
  function Difference(a: map<string, string>, b: map<string, string>): map<string, set<string>> {
    DifferenceBy(a, b, FluentKeys)
  }

  /** The same comparison for any way `keys` of reading a file's keys. */
  function DifferenceBy(a: map<string, string>, b: map<string, string>, keys: string -> set<string>): map<string, set<string>> {
    map p | p in FluentFiles(a) && p in b :: keys(a[p]) - keys(b[p])
  }

  /** `set(extract_fluent(content).keys())`. */
  method FileKeys(content: string) returns (keys: set<string>)
    ensures keys == FluentKeys(content)
  {
    var d := ExtractFluent(content);
    keys := d.entries.Keys;
  }

  /** `compare_keys`, iterating over the `.ftl` files of A. */
  method CompareKeys(a: map<string, string>, b: map<string, string>) returns (keyDiff: map<string, set<string>>)
    ensures keyDiff == Difference(a, b)
  {
    keyDiff := map[];
    var todo := FluentFiles(a);
    DifferenceByOutside(a, b, todo, FluentKeys);
    while todo != {}
      invariant todo <= FluentFiles(a)
      invariant keyDiff == Difference(a - todo, b)
      decreases todo
    {
      var path :| path in todo;
      DifferenceGrows(a, b, todo, path);
      var aKeys := FileKeys(a[path]);
      if path in b {
        var bKeys := FileKeys(b[path]);
        keyDiff := keyDiff[path := aKeys - bKeys];
      }
      todo := todo - {path};
    }
    assert a - todo == a;
  }

  /** Taking one more file of A into account adds its entry, when B has the file. */
  lemma DifferenceGrows(a: map<string, string>, b: map<string, string>, todo: set<string>, path: string)
    requires path in todo && todo <= FluentFiles(a)
    ensures Difference(a - (todo - {path}), b) ==
      if path in b then Difference(a - todo, b)[path := FluentKeys(a[path]) - FluentKeys(b[path])]
      else Difference(a - todo, b)
  {
    DifferenceByGrows(a, b, todo, path, FluentKeys);
  }

  lemma DifferenceByGrows(a: map<string, string>, b: map<string, string>, todo: set<string>, path: string,
                          keys: string -> set<string>)
    requires path in todo && todo <= FluentFiles(a)
    ensures DifferenceBy(a - (todo - {path}), b, keys) ==
      if path in b then DifferenceBy(a - todo, b, keys)[path := keys(a[path]) - keys(b[path])]
      else DifferenceBy(a - todo, b, keys)
  {
    assert a - (todo - {path}) == (a - todo)[path := a[path]];
  }

  /** Before the loop has taken any `.ftl` file of A into account, nothing is listed. */
  lemma DifferenceByOutside(a: map<string, string>, b: map<string, string>, todo: set<string>,
                            keys: string -> set<string>)
    requires FluentFiles(a) <= todo
    ensures DifferenceBy(a - todo, b, keys) == map[]
  {
    assert forall p :: p in FluentFiles(a - todo) ==> p in FluentFiles(a);
  }

  /**
    The result covers exactly the relative paths of A's `.ftl` files that also exist
    in B; the other files of A are never looked at.
  */
  lemma DifferenceDomain(a: map<string, string>, b: map<string, string>, p: string)
    ensures p in Difference(a, b) <==> p in a && EndsWith(p, FluentSuffix) && p in b
  {
  }

  /** Each entry holds exactly the keys of A's file that B's file lacks. */
  lemma DifferenceValues(a: map<string, string>, b: map<string, string>, p: string, k: string)
    requires p in a && EndsWith(p, FluentSuffix) && p in b
    ensures k in Difference(a, b)[p] <==> k in FluentKeys(a[p]) && k !in FluentKeys(b[p])
  {
  }

  /** A tree compared with itself needs nothing, for any of its `.ftl` files. */
  lemma SelfDifferenceEmpty(a: map<string, string>)
    ensures Difference(a, a).Keys == FluentFiles(a)
    ensures forall p :: p in Difference(a, a) ==> Difference(a, a)[p] == {}
  {
  }

  /**
    "Append needed" and "delete needed" compare the trees both ways: they cover the
    same files and never name the same key of a file.
  */
  lemma AppendDeleteDisjoint(source: map<string, string>, target: map<string, string>)
    ensures Difference(source, target).Keys == Difference(target, source).Keys
    ensures Difference(source, target).Keys == FluentFiles(source) * FluentFiles(target)
    ensures forall p :: p in Difference(source, target) ==>
      Difference(source, target)[p] !! Difference(target, source)[p]
  {
  }

  /** When A's file has no more keys than B's, nothing is reported for it. */
  lemma CoveredFileEmpty(a: map<string, string>, b: map<string, string>, p: string)
    requires p in a && EndsWith(p, FluentSuffix) && p in b && FluentKeys(a[p]) <= FluentKeys(b[p])
    ensures Difference(a, b)[p] == {}
  {
  }
}
