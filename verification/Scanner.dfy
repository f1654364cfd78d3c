/**
 The scanner's own code: building the ignore patterns, matching names and paths against them,
 walking one directory, and listing the root before the pool starts.
 */
module Scanner {
  import opened Order
  import opened ScanTree
  import ScanPool

  datatype RootResult = Ok(rootDirs: seq<Path>) | ReadError

  /** `contains`. */
  method Contains(slice: seq<string>, s: string) returns (found: bool)
    ensures found <==> s in slice
  {
    for i := 0 to |slice|
      invariant s !in slice[..i]
    {
      if slice[i] == s { return true; }
    }
    return false;
  }

  /** `newIgnoreMatcher`: the built-in patterns, then those of the configuration not yet there. */
  method NewIgnoreMatcher(patterns: seq<string>) returns (all: seq<string>)
    ensures DEFAULT_IGNORES <= all
    ensures forall p :: p in all <==> p in DEFAULT_IGNORES || p in patterns
    ensures Distinct(all[|DEFAULT_IGNORES|..])
    ensures forall p | p in all[|DEFAULT_IGNORES|..] :: p !in DEFAULT_IGNORES
  {
    var n := |DEFAULT_IGNORES|;
    all := DEFAULT_IGNORES;
    for i := 0 to |patterns|
      invariant DEFAULT_IGNORES <= all
      invariant forall p :: p in all <==> p in DEFAULT_IGNORES || p in patterns[..i]
      invariant Distinct(all[n..]) && forall p | p in all[n..] :: p !in DEFAULT_IGNORES
    {
      assert patterns[..i + 1] == patterns[..i] + [patterns[i]];
      var known := Contains(all, patterns[i]);
      if !known {
        assert forall k | n <= k < |all| :: all[k] in all;
        assert (all + [patterns[i]])[n..] == all[n..] + [patterns[i]];
        all := all + [patterns[i]];
      }
    }
    assert patterns[..|patterns|] == patterns;
  }

  /** Matching is decided by the two lists of patterns; the order and repeats do not matter. */
  lemma MatchesEitherList(all: seq<string>, patterns: seq<string>, name: Name, isDir: bool)
    requires forall p :: p in all <==> p in DEFAULT_IGNORES || p in patterns
    ensures Matches(all, name, isDir) <==> Matches(DEFAULT_IGNORES, name, isDir) || Matches(patterns, name, isDir)
  {
    MatchesAsSet(all, name, isDir);
    MatchesAsSet(DEFAULT_IGNORES, name, isDir);
    MatchesAsSet(patterns, name, isDir);
  }

  lemma MatchesAsSet(patterns: seq<string>, name: Name, isDir: bool)
    ensures Matches(patterns, name, isDir) <==> exists p :: p in patterns && PatternMatches(p, name, isDir)
  {
    if p :| p in patterns && PatternMatches(p, name, isDir) {
      var i :| 0 <= i < |patterns| && patterns[i] == p;
      assert PatternMatches(patterns[i], name, isDir);
    }
  }

  class Scanner {
    const tree: Tree
    const workers: nat
    const patterns: seq<string>
    var files: seq<Path>
    var filesScanned: nat

    /** `New`, with the number of processors as given by the runtime. */
    constructor (tree: Tree, ignore: seq<string>, workers: int, cpus: nat)
      requires cpus > 0
      ensures this.tree == tree && this.workers == (if workers <= 0 then cpus else workers) > 0
      ensures forall p :: p in patterns <==> p in DEFAULT_IGNORES || p in ignore
      ensures files == [] && filesScanned == 0
    {
      var all := NewIgnoreMatcher(ignore);
      this.tree := tree;
      this.workers := if workers <= 0 then cpus else workers;
      this.patterns := all;
      files := [];
      filesScanned := 0;
    }

    /** `Matches`. */
    method MatchesName(name: Name, isDir: bool) returns (ignored: bool)
      ensures ignored <==> Matches(patterns, name, isDir)
    {
      for i := 0 to |patterns|
        invariant forall k | 0 <= k < i :: !PatternMatches(patterns[k], name, isDir)
      {
        if patterns[i] == name { return true; }
        if isDir && TrimSlash(patterns[i]) == name { return true; }
      }
      return false;
    }

    /** `MatchesPath`. */
    method MatchesParts(path: Path) returns (ignored: bool)
      ensures ignored <==> MatchesPath(patterns, path)
    {
      for i := 0 to |path|
        invariant forall k | 0 <= k < i :: !Matches(patterns, path[k], true)
      {
        var hit := MatchesName(path[i], true);
        if hit { return true; }
      }
      return false;
    }

    /** The test at the head of the loop of `walkDir`. */
    method Skips(dir: Path, e: DirEntry) returns (skip: bool)
      ensures skip <==> Ignored(patterns, dir, e)
    {
      skip := MatchesName(e.name, e.isDir);
      if !skip {
        skip := MatchesParts(dir + [e.name]);
      }
    }

    /**
     `walkDir`: the kept files of `dir` are appended in the order of the listing and counted, its
     kept subdirectories returned.
     */
    method WalkDir(dir: Path) returns (subDirs: seq<Path>)
      modifies `files, `filesScanned
      ensures subDirs == SubDirs(patterns, dir, Listing(tree, dir))
      ensures files == old(files) + FilesIn(patterns, dir, Listing(tree, dir))
      ensures filesScanned - old(filesScanned) == |files| - |old(files)|
    {
      subDirs := [];
      if dir !in tree { return; }
      var entries := tree[dir];
      for i := 0 to |entries|
        invariant subDirs == SubDirs(patterns, dir, entries[..i])
        invariant files == old(files) + FilesIn(patterns, dir, entries[..i])
        invariant filesScanned - old(filesScanned) == |files| - |old(files)|
      {
        OneMore(patterns, dir, entries, i);
        var fullPath := dir + [entries[i].name];
        var skip := Skips(dir, entries[i]);
        if !skip {
          if entries[i].isDir {
            subDirs := subDirs + [fullPath];
          } else {
            files := files + [fullPath];
            filesScanned := filesScanned + 1;
          }
        }
      }
      assert entries[..|entries|] == entries;
    }

    ghost function Config(): ScanPool.Config {
      ScanPool.Config(tree, patterns, workers)
    }

    /**
     The first part of `Scan`: the root's own files, then the directories to start from. It leaves
     what the pool starts with.
     */
    method ScanRoot() returns (r: RootResult)
      modifies `files, `filesScanned
      ensures [] !in tree ==> r == ReadError && files == old(files) && filesScanned == old(filesScanned)
      ensures [] in tree ==>
                && r == Ok(RootDirs(patterns, tree[[]]))
                && files == RootFiles(patterns, tree[[]])
                && filesScanned == old(filesScanned) + |files|
                && files == ScanPool.Start(Config()).files && r.rootDirs == ScanPool.Roots(Config())
    {
      if [] !in tree { return ReadError; }
      var entries := tree[[]];
      files := [];
      for i := 0 to |entries|
        invariant files == RootFiles(patterns, entries[..i])
        invariant filesScanned == old(filesScanned) + |files|
      {
        assert entries[..i + 1][..i] == entries[..i];
        var skip := MatchesName(entries[i].name, false);
        if !skip && !entries[i].isDir {
          files := files + [[entries[i].name]];
          filesScanned := filesScanned + 1;
        }
      }
      assert entries[..|entries|] == entries;
      var rootDirs: seq<Path> := [];
      for i := 0 to |entries|
        invariant rootDirs == RootDirs(patterns, entries[..i])
        invariant files == RootFiles(patterns, entries) && filesScanned == old(filesScanned) + |files|
      {
        assert entries[..i + 1][..i] == entries[..i];
        var skip := MatchesName(entries[i].name, true);
        if entries[i].isDir && !skip {
          rootDirs := rootDirs + [[entries[i].name]];
        }
      }
      assert entries[..|entries|] == entries;
      return Ok(rootDirs);
    }
  }
}
