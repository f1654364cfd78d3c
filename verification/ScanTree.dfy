/**
 Directory trees, ignore rules, and what a scan of one directory yields. A path is the sequence of
 names below the root; a directory that cannot be read has no listing.
 */
module ScanTree {
  import opened Order

  type Name = string
  type Path = seq<Name>

  datatype DirEntry = DirEntry(name: Name, isDir: bool)

  type Tree = map<Path, seq<DirEntry>>

  const DEFAULT_IGNORES: seq<string> := [
    "node_modules", ".next", ".git", "dist", "coverage", "out", ".effective-next", ".effective-next-cache"]

  /** `strings.TrimSuffix(p, "/")`. */
  function TrimSlash(p: string): string {
    if p != "" && p[|p| - 1] == '/' then p[..|p| - 1] else p
  }

  predicate PatternMatches(p: string, name: Name, isDir: bool) {
    p == name || (isDir && TrimSlash(p) == name)
  }

  predicate Matches(patterns: seq<string>, name: Name, isDir: bool) {
    exists i :: 0 <= i < |patterns| && PatternMatches(patterns[i], name, isDir)
  }

  /** Some part of the path matches, each part taken as a directory name. */
  predicate MatchesPath(patterns: seq<string>, path: Path) {
    exists i :: 0 <= i < |path| && Matches(patterns, path[i], true)
  }

  /** The test `walkDir` applies below the root. */
  predicate Ignored(patterns: seq<string>, dir: Path, e: DirEntry) {
    Matches(patterns, e.name, e.isDir) || MatchesPath(patterns, dir + [e.name])
  }

  /** A name is ignored iff it is one of the patterns, or for a directory if it is one with a slash added. */
  lemma MatchesExactly(patterns: seq<string>, name: Name, isDir: bool)
    ensures Matches(patterns, name, isDir) <==> name in patterns || (isDir && name + "/" in patterns)
  {
    forall p ensures PatternMatches(p, name, isDir) <==> p == name || (isDir && p == name + "/") {
      if p != "" && p[|p| - 1] == '/' { assert p == TrimSlash(p) + "/"; }
      assert (name + "/")[..|name|] == name;
    }
    if name in patterns || (isDir && name + "/" in patterns) {
      var i :| 0 <= i < |patterns| && (patterns[i] == name || (isDir && patterns[i] == name + "/"));
      assert PatternMatches(patterns[i], name, isDir);
    }
  }

  lemma MatchesPathExactly(patterns: seq<string>, path: Path)
    ensures MatchesPath(patterns, path) <==>
            exists i :: 0 <= i < |path| && (path[i] in patterns || path[i] + "/" in patterns)
  {
    forall i | 0 <= i < |path|
      ensures Matches(patterns, path[i], true) <==> path[i] in patterns || path[i] + "/" in patterns
    {
      MatchesExactly(patterns, path[i], true);
    }
  }

  lemma FileRuleImpliesDirRule(patterns: seq<string>, name: Name)
    ensures Matches(patterns, name, false) ==> Matches(patterns, name, true)
  {
    if Matches(patterns, name, false) {
      var i :| 0 <= i < |patterns| && PatternMatches(patterns[i], name, false);
      assert PatternMatches(patterns[i], name, true);
    }
  }

  /** Below the root the two tests together amount to the test of the whole relative path. */
  lemma IgnoredByWholePath(patterns: seq<string>, dir: Path, e: DirEntry)
    ensures Ignored(patterns, dir, e) <==> MatchesPath(patterns, dir + [e.name])
  {
    FileRuleImpliesDirRule(patterns, e.name);
    assert (dir + [e.name])[|dir|] == e.name;
  }

  /**
   A file directly in the root is tested by its bare name only. That differs from the rule for
   nested files exactly when a pattern with a trailing slash names it and no pattern equals it.
   */
  lemma RootFileRuleDiffersIff(patterns: seq<string>, name: Name)
    ensures Matches(patterns, name, false) != MatchesPath(patterns, [name])
      <==> name !in patterns && name + "/" in patterns
  {
    FileRuleImpliesDirRule(patterns, name);
    assert MatchesPath(patterns, [name]) <==> Matches(patterns, name, true) by {
      if Matches(patterns, name, true) { assert [name][0] == name; }
    }
    assert Matches(patterns, name, false) <==> name in patterns by {
      if name in patterns {
        var i :| 0 <= i < |patterns| && patterns[i] == name;
        assert PatternMatches(patterns[i], name, false);
      }
    }
    if name !in patterns && name + "/" in patterns {
      var i :| 0 <= i < |patterns| && patterns[i] == name + "/";
      assert (name + "/")[..|name|] == name;
      assert PatternMatches(patterns[i], name, true);
    }
    if name !in patterns && Matches(patterns, name, true) {
      var i :| 0 <= i < |patterns| && PatternMatches(patterns[i], name, true);
      assert patterns[i] == TrimSlash(patterns[i]) + "/";
    }
  }

  // --- the tree ---------------------------------------------------------------------------

  /** The entries of a directory; none if it cannot be read. */
  function Listing(t: Tree, dir: Path): seq<DirEntry> {
    if dir in t then t[dir] else []
  }

  predicate DistinctNames(es: seq<DirEntry>) {
    forall i, j | 0 <= i < j < |es| :: es[i].name != es[j].name
  }

  ghost predicate ValidTree(t: Tree) {
    forall d | d in t :: DistinctNames(t[d])
  }

  function ParentOf(p: Path): Path
    requires p != []
  {
    p[..|p| - 1]
  }

  function BaseName(p: Path): Name
    requires p != []
  {
    p[|p| - 1]
  }

  /** The files of `es` that a walk of `dir` lists. */
  function FilesIn(patterns: seq<string>, dir: Path, es: seq<DirEntry>): seq<Path> {
    if es == [] then []
    else
      var e := es[|es| - 1];
      FilesIn(patterns, dir, es[..|es| - 1]) +
      if !Ignored(patterns, dir, e) && !e.isDir then [dir + [e.name]] else []
  }

  /** The subdirectories of `es` that a walk of `dir` returns. */
  function SubDirs(patterns: seq<string>, dir: Path, es: seq<DirEntry>): seq<Path> {
    if es == [] then []
    else
      var e := es[|es| - 1];
      SubDirs(patterns, dir, es[..|es| - 1]) +
      if !Ignored(patterns, dir, e) && e.isDir then [dir + [e.name]] else []
  }

  /** What one more entry adds to the two lists. */
  lemma OneMore(patterns: seq<string>, dir: Path, es: seq<DirEntry>, n: nat)
    requires n < |es|
    ensures FilesIn(patterns, dir, es[..n + 1]) == FilesIn(patterns, dir, es[..n]) +
              if !Ignored(patterns, dir, es[n]) && !es[n].isDir then [dir + [es[n].name]] else []
    ensures SubDirs(patterns, dir, es[..n + 1]) == SubDirs(patterns, dir, es[..n]) +
              if !Ignored(patterns, dir, es[n]) && es[n].isDir then [dir + [es[n].name]] else []
  {
    assert es[..n + 1][..n] == es[..n];
  }

  /** `p` is an entry of the wanted kind of `dir` that no part of its path makes the walk skip. */
  ghost predicate KeptEntry(patterns: seq<string>, dir: Path, es: seq<DirEntry>, p: Path, isDir: bool) {
    && p != [] && ParentOf(p) == dir && DirEntry(BaseName(p), isDir) in es
    && !MatchesPath(patterns, p)
  }

  lemma {:induction false} FilesInExactly(patterns: seq<string>, dir: Path, es: seq<DirEntry>)
    requires DistinctNames(es)
    ensures Distinct(FilesIn(patterns, dir, es))
    ensures forall p :: p in FilesIn(patterns, dir, es) <==> KeptEntry(patterns, dir, es, p, false)
  {
    if es != [] {
      var n := |es| - 1;
      var e := es[n];
      FilesInExactly(patterns, dir, es[..n]);
      IgnoredByWholePath(patterns, dir, e);
      LastEntry(patterns, dir, es, false);
      var init := FilesIn(patterns, dir, es[..n]);
      assert forall i | 0 <= i < |init| :: init[i] in init;
    }
  }

  lemma {:induction false} SubDirsExactly(patterns: seq<string>, dir: Path, es: seq<DirEntry>)
    requires DistinctNames(es)
    ensures Distinct(SubDirs(patterns, dir, es))
    ensures forall p :: p in SubDirs(patterns, dir, es) <==> KeptEntry(patterns, dir, es, p, true)
  {
    if es != [] {
      var n := |es| - 1;
      var e := es[n];
      SubDirsExactly(patterns, dir, es[..n]);
      IgnoredByWholePath(patterns, dir, e);
      LastEntry(patterns, dir, es, true);
      var init := SubDirs(patterns, dir, es[..n]);
      assert forall i | 0 <= i < |init| :: init[i] in init;
    }
  }

  lemma LastEntry(patterns: seq<string>, dir: Path, es: seq<DirEntry>, isDir: bool)
    requires es != [] && DistinctNames(es)
    ensures var e, init := es[|es| - 1], es[..|es| - 1];
            && !KeptEntry(patterns, dir, init, dir + [e.name], isDir)
            && (forall p :: KeptEntry(patterns, dir, es, p, isDir) <==>
                 || KeptEntry(patterns, dir, init, p, isDir)
                 || (p == dir + [e.name] && e.isDir == isDir && !MatchesPath(patterns, p)))
  {
    var n := |es| - 1;
    var e, init := es[n], es[..n];
    assert es == init + [e];
    assert forall x | x in init :: x.name != e.name;
    forall p | p != [] && ParentOf(p) == dir ensures p == dir + [BaseName(p)] {}
    assert ParentOf(dir + [e.name]) == dir && BaseName(dir + [e.name]) == e.name;
  }

  /** The files a scan lists from the root itself, tested by bare name. */
  function RootFiles(patterns: seq<string>, es: seq<DirEntry>): seq<Path> {
    if es == [] then []
    else
      var e := es[|es| - 1];
      RootFiles(patterns, es[..|es| - 1]) +
      if !Matches(patterns, e.name, false) && !e.isDir then [[e.name]] else []
  }

  /** The directories directly in the root that are walked. */
  function RootDirs(patterns: seq<string>, es: seq<DirEntry>): seq<Path> {
    if es == [] then []
    else
      var e := es[|es| - 1];
      RootDirs(patterns, es[..|es| - 1]) +
      if e.isDir && !Matches(patterns, e.name, true) then [[e.name]] else []
  }

  lemma {:induction false} RootFilesExactly(patterns: seq<string>, es: seq<DirEntry>)
    requires DistinctNames(es)
    ensures Distinct(RootFiles(patterns, es))
    ensures forall p :: p in RootFiles(patterns, es) <==>
              |p| == 1 && DirEntry(p[0], false) in es && !Matches(patterns, p[0], false)
  {
    if es != [] {
      var n := |es| - 1;
      RootFilesExactly(patterns, es[..n]);
      assert es == es[..n] + [es[n]];
      assert forall x | x in es[..n] :: x.name != es[n].name;
      assert forall p: Path | |p| == 1 :: p == [p[0]];
      var init := RootFiles(patterns, es[..n]);
      assert forall i | 0 <= i < |init| :: init[i] in init;
    }
  }

  /** `p` is a directory directly in the root that is not ignored. */
  ghost predicate RootDirEntry(patterns: seq<string>, es: seq<DirEntry>, p: Path) {
    |p| == 1 && DirEntry(p[0], true) in es && !Matches(patterns, p[0], true)
  }

  lemma {:induction false} RootDirsByName(patterns: seq<string>, es: seq<DirEntry>)
    requires DistinctNames(es)
    ensures Distinct(RootDirs(patterns, es))
    ensures forall p :: p in RootDirs(patterns, es) <==> RootDirEntry(patterns, es, p)
  {
    if es != [] {
      var n := |es| - 1;
      RootDirsByName(patterns, es[..n]);
      assert es == es[..n] + [es[n]];
      assert forall x | x in es[..n] :: x.name != es[n].name;
      assert forall p: Path | |p| == 1 :: p == [p[0]];
      var init := RootDirs(patterns, es[..n]);
      assert forall i | 0 <= i < |init| :: init[i] in init;
    }
  }

  lemma RootDirKept(patterns: seq<string>, es: seq<DirEntry>, p: Path)
    ensures RootDirEntry(patterns, es, p) <==> KeptEntry(patterns, [], es, p, true)
  {
    if p != [] {
      assert ParentOf(p) == [] <==> |p| == 1;
      if |p| == 1 {
        assert MatchesPath(patterns, p) <==> Matches(patterns, p[0], true);
      }
    }
  }

  lemma RootDirsExactly(patterns: seq<string>, es: seq<DirEntry>)
    requires DistinctNames(es)
    ensures Distinct(RootDirs(patterns, es))
    ensures forall p :: p in RootDirs(patterns, es) <==> KeptEntry(patterns, [], es, p, true)
  {
    RootDirsByName(patterns, es);
    forall p ensures p in RootDirs(patterns, es) <==> KeptEntry(patterns, [], es, p, true) {
      RootDirKept(patterns, es, p);
    }
  }

  /** The list names entries of `dir` in the order of its listing. */
  ghost predicate KeepsOrder(list: seq<Path>, dir: Path, es: seq<DirEntry>) {
    exists pos: seq<nat> :: Increasing(pos) && NamesAt(list, dir, es, pos)
  }

  ghost predicate NamesAt(list: seq<Path>, dir: Path, es: seq<DirEntry>, pos: seq<nat>) {
    |pos| == |list| && forall k | 0 <= k < |list| :: pos[k] < |es| && list[k] == dir + [es[pos[k]].name]
  }

  lemma OneMoreInOrder(list: seq<Path>, dir: Path, es: seq<DirEntry>, more: seq<Path>)
    requires es != [] && KeepsOrder(list, dir, es[..|es| - 1])
    requires more == [] || more == [dir + [es[|es| - 1].name]]
    ensures KeepsOrder(list + more, dir, es)
  {
    var init := es[..|es| - 1];
    var pos: seq<nat> :| Increasing(pos) && NamesAt(list, dir, init, pos);
    NamesStay(list, dir, es, pos);
    if more == [] {
      assert list + more == list;
    } else {
      AppendName(list, dir, es, pos);
    }
  }

  lemma NamesStay(list: seq<Path>, dir: Path, es: seq<DirEntry>, pos: seq<nat>)
    requires es != [] && NamesAt(list, dir, es[..|es| - 1], pos)
    ensures NamesAt(list, dir, es, pos) && forall k | 0 <= k < |pos| :: pos[k] < |es| - 1
  {
  }

  lemma AppendName(list: seq<Path>, dir: Path, es: seq<DirEntry>, pos: seq<nat>)
    requires es != [] && Increasing(pos) && NamesAt(list, dir, es, pos)
    requires forall k | 0 <= k < |pos| :: pos[k] < |es| - 1
    ensures KeepsOrder(list + [dir + [es[|es| - 1].name]], dir, es)
  {
    var longer := pos + [|es| - 1];
    assert NamesAt(list + [dir + [es[|es| - 1].name]], dir, es, longer);
    assert Increasing(longer);
  }

  /** All four lists keep the order of the listing. */
  lemma {:induction false} ListedInOrder(patterns: seq<string>, dir: Path, es: seq<DirEntry>)
    ensures KeepsOrder(FilesIn(patterns, dir, es), dir, es) && KeepsOrder(SubDirs(patterns, dir, es), dir, es)
    ensures KeepsOrder(RootFiles(patterns, es), [], es) && KeepsOrder(RootDirs(patterns, es), [], es)
  {
    if es == [] {
      var pos: seq<nat> := [];
      assert Increasing(pos) && NamesAt([], dir, es, pos) && NamesAt([], [], es, pos);
    } else {
      var init, e := es[..|es| - 1], es[|es| - 1];
      ListedInOrder(patterns, dir, init);
      assert [] + [e.name] == [e.name];
      var files, dirs := FilesIn(patterns, dir, init), SubDirs(patterns, dir, init);
      OneMoreInOrder(files, dir, es, FilesIn(patterns, dir, es)[|files|..]);
      OneMoreInOrder(dirs, dir, es, SubDirs(patterns, dir, es)[|dirs|..]);
      OneMoreInOrder(RootFiles(patterns, init), [], es, RootFiles(patterns, es)[|RootFiles(patterns, init)|..]);
      OneMoreInOrder(RootDirs(patterns, init), [], es, RootDirs(patterns, es)[|RootDirs(patterns, init)|..]);
    }
  }

  /** The files a scan should list. */
  ghost predicate Expected(t: Tree, patterns: seq<string>, p: Path) {
    && p != [] && DirEntry(BaseName(p), false) in Listing(t, ParentOf(p))
    && (if |p| == 1 then !Matches(patterns, p[0], false)
        else !MatchesPath(patterns, p) && forall k | 1 <= k < |p| :: IsDir(t, p[..k]))
  }

  /** `p` is listed as a directory by its parent. */
  ghost predicate IsDir(t: Tree, p: Path)
    requires p != []
  {
    DirEntry(BaseName(p), true) in Listing(t, ParentOf(p))
  }

  /** The directories below the root that are not ignored. */
  ghost predicate LiveDir(t: Tree, patterns: seq<string>, p: Path) {
    p != [] && !MatchesPath(patterns, p) && forall k | 1 <= k <= |p| :: IsDir(t, p[..k])
  }

  ghost function LiveDirs(t: Tree, patterns: seq<string>): set<Path> {
    set d, e | d in t && e in t[d] && LiveDir(t, patterns, d + [e.name]) :: d + [e.name]
  }

  lemma LiveDirsExactly(t: Tree, patterns: seq<string>)
    ensures forall p :: p in LiveDirs(t, patterns) <==> LiveDir(t, patterns, p)
  {
    forall p | LiveDir(t, patterns, p) ensures p in LiveDirs(t, patterns) {
      assert p[..|p|] == p;
      var d, e := ParentOf(p), DirEntry(BaseName(p), true);
      assert IsDir(t, p[..|p|]);
      assert d in t && e in t[d] && d + [e.name] == p;
    }
  }

  lemma ParentMatches(patterns: seq<string>, p: Path)
    requires p != []
    ensures MatchesPath(patterns, ParentOf(p)) ==> MatchesPath(patterns, p)
  {
    if MatchesPath(patterns, ParentOf(p)) {
      var i :| 0 <= i < |ParentOf(p)| && Matches(patterns, ParentOf(p)[i], true);
      assert Matches(patterns, p[i], true);
    }
  }

  /** A directory below the root is live iff its parent is the root or live, and it is kept there. */
  lemma LiveDirFromParent(t: Tree, patterns: seq<string>, p: Path)
    requires p != []
    ensures LiveDir(t, patterns, p) <==>
            && KeptEntry(patterns, ParentOf(p), Listing(t, ParentOf(p)), p, true)
            && (|p| == 1 || LiveDir(t, patterns, ParentOf(p)))
  {
    var q := ParentOf(p);
    assert p[..|p|] == p;
    assert forall k | 1 <= k <= |q| :: q[..k] == p[..k];
    ParentMatches(patterns, p);
    if LiveDir(t, patterns, p) {
      assert IsDir(t, p[..|p|]);
    }
  }

  /** A nested file is expected iff its directory is live and keeps it. */
  lemma ExpectedFromParent(t: Tree, patterns: seq<string>, p: Path)
    requires |p| >= 2
    ensures Expected(t, patterns, p) <==>
            && KeptEntry(patterns, ParentOf(p), Listing(t, ParentOf(p)), p, false)
            && LiveDir(t, patterns, ParentOf(p))
  {
    var q := ParentOf(p);
    assert forall k | 1 <= k <= |q| :: q[..k] == p[..k];
    ParentMatches(patterns, p);
  }
}
