/**
 When the scan can miss a file that it should list: a directory above it is dropped because there is
 no room in the queue when it is offered.
 */
module ScanLostFiles {
  import opened Order
  import opened ScanTree
  import opened ScanPool
  import opened ScanPoolSteps
  import opened ScanPoolTheorems
  import opened ScanPoolProgress
  import opened ScanFrontier
  import opened ScanDrops
  import opened ScanSchedules
  import opened ScanLoss

  ghost predicate Below(f: Path, d: Path) {
    0 < |d| < |f| && f[..|d|] == d
  }

  /** Some interleaving returns without having listed this file. */
  ghost predicate MayMiss(c: Config, f: Path) {
    exists s :: Reachable(c, s) && s.main == Returned && f !in s.files
  }

  /** A scan can miss an expected file iff it can drop a directory above it. */
  lemma MissedBelowDropped(c: Config, f: Path)
    requires ValidTree(c.tree) && c.workers > 0 && Expected(c.tree, c.patterns, f)
    ensures MayMiss(c, f) <==> exists d :: Below(f, d) && MayDropIt(c, d)
  {
    if s :| Reachable(c, s) && s.main == Returned && f !in s.files {
      ListedIff(c, s, f);
      var k :| 1 <= k < |f| && IsDropped(s, f[..k]);
      assert Below(f, f[..k]) && MayDropIt(c, f[..k]);
    }
    if d :| Below(f, d) && MayDropIt(c, d) {
      var s :| Reachable(c, s) && s.main == Returned && IsDropped(s, d);
      ListedIff(c, s, f);
      assert IsDropped(s, f[..|d|]);
    }
  }

  /** For some number of workers some scan misses the file iff a directory above it can be crowded out. */
  lemma MayMissFileIff(c: Config, f: Path)
    requires ValidTree(c.tree) && |Roots(c)| <= CAPACITY && Expected(c.tree, c.patterns, f)
    ensures (exists n | n > 0 :: MayMiss(c.(workers := n), f)) <==> exists R, d :: CrowdedOut(c, R, d) && Below(f, d)
  {
    if n :| n > 0 && MayMiss(c.(workers := n), f) {
      MissedBelowDropped(c.(workers := n), f);
      var d :| Below(f, d) && MayDropIt(c.(workers := n), d);
      MayDropItIff(c, d);
    }
    if R, d :| CrowdedOut(c, R, d) && Below(f, d) {
      MayDropItIff(c, d);
      var n :| n > 0 && MayDropIt(c.(workers := n), d);
      MissedBelowDropped(c.(workers := n), f);
    }
  }

  /** As many workers as there are live directories are enough to make that exact. */
  lemma ManyWorkersMayMissFileIff(c: Config, f: Path)
    requires ValidTree(c.tree) && c.workers > 0 && |Roots(c)| <= CAPACITY && Expected(c.tree, c.patterns, f)
    requires |LiveDirs(c.tree, c.patterns)| <= c.workers
    ensures MayMiss(c, f) <==> exists R, d :: CrowdedOut(c, R, d) && Below(f, d)
  {
    MissedBelowDropped(c, f);
    if d :| Below(f, d) && MayDropIt(c, d) {
      ManyWorkersMayDropItIff(c, d);
    }
    if R, d :| CrowdedOut(c, R, d) && Below(f, d) {
      ManyWorkersMayDropItIff(c, d);
    }
  }

  /** Some scan of the tree, with some number of workers, does not list all that it should. */
  ghost predicate MayLoseFiles(c: Config) {
    exists n, f :: n > 0 && Expected(c.tree, c.patterns, f) && MayMiss(c.(workers := n), f)
  }

  /** So a scan lists all expected files, whatever the interleaving, iff none is below what can be crowded out. */
  lemma MayLoseFilesIff(c: Config)
    requires ValidTree(c.tree) && |Roots(c)| <= CAPACITY
    ensures MayLoseFiles(c) <==>
            exists R, d, f :: CrowdedOut(c, R, d) && Expected(c.tree, c.patterns, f) && Below(f, d)
  {
    if n, f :| n > 0 && Expected(c.tree, c.patterns, f) && MayMiss(c.(workers := n), f) {
      MayMissFileIff(c, f);
    }
    if R, d, f :| CrowdedOut(c, R, d) && Expected(c.tree, c.patterns, f) && Below(f, d) {
      MayMissFileIff(c, f);
    }
  }

  /** Every live directory has an expected file somewhere below. */
  ghost predicate NoneEmpty(c: Config) {
    forall d | LiveDir(c.tree, c.patterns, d) :: exists f :: Expected(c.tree, c.patterns, f) && Below(f, d)
  }

  /**
   If no directory is empty, then with a given number of workers some scan misses a file iff they can
   take directories in some order whose frontier is more than 64.
   */
  lemma GivenWorkersMayMissIff(c: Config)
    requires ValidTree(c.tree) && c.workers > 0 && |Roots(c)| <= CAPACITY && NoneEmpty(c)
    ensures (exists f :: Expected(c.tree, c.patterns, f) && MayMiss(c, f)) <==> exists o :: OverflowingOrder(c, o)
  {
    GivenWorkersMayDropIff(c);
    if f :| Expected(c.tree, c.patterns, f) && MayMiss(c, f) {
      MissedBelowDropped(c, f);
      var d :| Below(f, d) && MayDropIt(c, d);
      var s :| Reachable(c, s) && s.main == Returned && IsDropped(s, d);
      assert !NoneDropped(s);
    }
    if MayDrop(c) {
      var s :| Reachable(c, s) && s.main == Returned && !NoneDropped(s);
      var d :| d in s.places && s.places[d] == Dropped;
      ReachableInv(c, s);
      DiscoveredIsLive(c, s, d);
      var f :| Expected(c.tree, c.patterns, f) && Below(f, d);
      assert IsDropped(s, d) && MayDropIt(c, d);
      MissedBelowDropped(c, f);
    }
  }

  // --- a tree whose scan can lose a file --------------------------------------------------

  function Name(i: nat): Name {
    seq(i + 1, _ => 'x')
  }

  /** One directory `a` in the root, with 65 subdirectories, each holding a file `f`. */
  function WideTree(): Tree {
    map[[] := [DirEntry("a", true)], ["a"] := seq(65, i requires 0 <= i < 65 => DirEntry(Name(i), true))]
    + map i: nat | i < 65 :: ["a", Name(i)] := [DirEntry("f", false)]
  }

  /** No built-in pattern begins like one of the names in that tree. */
  lemma DefaultsSpareTree(name: Name, isDir: bool)
    requires name != "" && name[0] in {'a', 'f', 'x'}
    ensures !Matches(DEFAULT_IGNORES, name, isDir)
  {
    assert forall i | 0 <= i < |DEFAULT_IGNORES| ::
             |DEFAULT_IGNORES[i]| > 2 && DEFAULT_IGNORES[i][0] !in {'a', 'f', 'x'};
  }

  lemma PathSpared(p: Path)
    requires forall i | 0 <= i < |p| :: p[i] != "" && p[i][0] in {'a', 'f', 'x'}
    ensures !MatchesPath(DEFAULT_IGNORES, p)
  {
    forall i | 0 <= i < |p| ensures !Matches(DEFAULT_IGNORES, p[i], true) {
      DefaultsSpareTree(p[i], true);
    }
  }

  lemma WideTreeValid()
    ensures ValidTree(WideTree())
    ensures Listing(WideTree(), []) == [DirEntry("a", true)]
    ensures |Listing(WideTree(), ["a"])| == 65
    ensures forall i | 0 <= i < 65 :: Listing(WideTree(), ["a"])[i] == DirEntry(Name(i), true)
    ensures forall i: nat | i < 65 :: Listing(WideTree(), ["a", Name(i)]) == [DirEntry("f", false)]
  {
    assert forall i, j | 0 <= i < j < 65 :: |Name(i)| != |Name(j)|;
    var t := WideTree();
    forall d | d in t ensures DistinctNames(t[d]) {
    }
  }

  lemma WideTreeDirs(c: Config)
    requires c.tree == WideTree() && c.patterns == DEFAULT_IGNORES
    ensures |Roots(c)| == 1 && LiveDir(c.tree, c.patterns, ["a"]) && |SubDirsOf(c, ["a"])| > CAPACITY
  {
    WideTreeValid();
    RootsFacts(c);
    PathSpared(["a"]);
    assert Listing(c.tree, [])[0] == DirEntry("a", true);
    assert KeptEntry(c.patterns, [], Listing(c.tree, []), ["a"], true);
    forall p ensures p in Roots(c) <==> p == ["a"] {
      assert p in Roots(c) ==> p == [p[0]] && BaseName(p) == "a";
    }
    DistinctSize(Roots(c));
    assert Elems(Roots(c)) == {["a"]};
    LiveDirFromParent(c.tree, c.patterns, ["a"]);
    WideTreeSubDirs(c);
  }

  lemma WideTreeSubDirs(c: Config)
    requires c.tree == WideTree() && c.patterns == DEFAULT_IGNORES
    ensures |SubDirsOf(c, ["a"])| > CAPACITY
  {
    WideTreeValid();
    SubDirsFacts(c, ["a"]);
    var dirs := seq(65, i requires 0 <= i < 65 => ["a", Name(i)]);
    forall i | 0 <= i < 65 ensures dirs[i] in SubDirsOf(c, ["a"]) {
      PathSpared(dirs[i]);
      assert ParentOf(dirs[i]) == ["a"] && Listing(c.tree, ["a"])[i] == DirEntry(Name(i), true);
    }
    forall i, j | 0 <= i < j < 65 ensures dirs[i] != dirs[j] {
      assert |dirs[i][1]| != |dirs[j][1]|;
    }
    DistinctSize(dirs);
    DistinctSize(SubDirsOf(c, ["a"]));
    SubsetSize(Elems(dirs), Elems(SubDirsOf(c, ["a"])));
  }

  lemma WideTreeSecond(c: Config, d: Path) returns (i: nat)
    requires c.tree == WideTree() && LiveDir(c.tree, c.patterns, d)
    ensures d[0] == "a" && (|d| >= 2 ==> i < 65 && d[..2] == ["a", Name(i)])
  {
    WideTreeValid();
    assert IsDir(c.tree, d[..1]);
    i := 0;
    if |d| >= 2 {
      assert IsDir(c.tree, d[..2]) && ParentOf(d[..2]) == ["a"];
      var j :| 0 <= j < 65 && Listing(c.tree, ["a"])[j] == DirEntry(d[1], true);
      i := j;
    }
  }

  lemma WideTreeShallow(c: Config, d: Path)
    requires c.tree == WideTree() && LiveDir(c.tree, c.patterns, d)
    ensures |d| <= 2
  {
    if |d| >= 3 {
      assert IsDir(c.tree, d[..3]) && ParentOf(d[..3]) == d[..2];
      var i := WideTreeSecond(c, d);
      WideTreeValid();
    }
  }

  /** Below every directory of the tree there is an expected file. */
  lemma WideTreeFileBelow(c: Config, d: Path) returns (f: Path)
    requires c.tree == WideTree() && c.patterns == DEFAULT_IGNORES && LiveDir(c.tree, c.patterns, d)
    ensures Expected(c.tree, c.patterns, f) && Below(f, d)
  {
    WideTreeShallow(c, d);
    var i := WideTreeSecond(c, d);
    if |d| == 1 { i := 0; }
    f := ["a", Name(i), "f"];
    WideTreeExpected(c, i);
    assert f[..1] == ["a"] && f[..2] == ["a", Name(i)];
    assert d == d[..|d|] == f[..|d|];
  }

  lemma WideTreeExpected(c: Config, i: nat)
    requires c.tree == WideTree() && c.patterns == DEFAULT_IGNORES && i < 65
    ensures Expected(c.tree, c.patterns, ["a", Name(i), "f"])
  {
    var f := ["a", Name(i), "f"];
    WideTreeValid();
    PathSpared(f);
    assert ParentOf(f) == ["a", Name(i)] == f[..2] && f[..1] == ["a"];
    assert ParentOf(f[..1]) == [] && ParentOf(f[..2]) == ["a"];
    assert Listing(c.tree, ["a"])[i] == DirEntry(Name(i), true) && Listing(c.tree, [])[0] == DirEntry("a", true);
    assert IsDir(c.tree, f[..1]) && IsDir(c.tree, f[..2]);
  }

  /** The failing input: with any number of workers some scan of that tree misses a file it should list. */
  lemma ScanLosesFile(c: Config)
    requires c.tree == WideTree() && c.patterns == DEFAULT_IGNORES && c.workers > 0
    ensures exists s, f ::
              Reachable(c, s) && s.main == Returned && Expected(c.tree, c.patterns, f) && f !in s.files
  {
    WideTreeValid();
    WideTreeDirs(c);
    WideDirectoryDrops(c, ["a"]);
    var s :| Reachable(c, s) && s.main == Returned && !NoneDropped(s);
    var d :| d in s.places && s.places[d] == Dropped;
    ReachableInv(c, s);
    DiscoveredIsLive(c, s, d);
    var f := WideTreeFileBelow(c, d);
    assert IsDropped(s, d) && MayDropIt(c, d);
    MissedBelowDropped(c, f);
  }
}
