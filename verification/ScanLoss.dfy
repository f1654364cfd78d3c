/** The exact conditions, on the tree alone, under which the scanner's pool can drop a directory. */
module ScanLoss {
  import opened Order
  import opened ScanTree
  import opened ScanPool
  import opened ScanPoolSteps
  import opened ScanPoolTheorems
  import opened ScanPoolProgress
  import opened ScanFrontier
  import opened ScanOverflow
  import opened ScanDrops
  import opened ScanCrowding
  import opened ScanSchedules
  import opened ScanTakes

  // --- some number of workers -------------------------------------------------------------

  lemma SameKids(c: Config, n: nat, dir: Path)
    ensures Kids(c.(workers := n), dir) == Kids(c, dir)
  {
  }

  lemma SameBefore(c: Config, n: nat, e: Path, d: Path)
    ensures EarlierKid(c.(workers := n), e, d) <==> EarlierKid(c, e, d)
  {
    var c' := c.(workers := n);
    if e != [] && d != [] && ParentOf(e) == ParentOf(d) {
      SameKids(c, n, ParentOf(d));
      forall i: nat ensures KidAt(c', e, i) == KidAt(c, e, i) && KidAt(c', d, i) == KidAt(c, d, i) {}
    }
  }

  lemma SameTakeable(c: Config, n: nat, R: set<Path>)
    requires Takeable(c, false, R)
    ensures Takeable(c.(workers := n), false, R)
  {
    var c' := c.(workers := n);
    forall e, d | d in R && LiveDir(c'.tree, c'.patterns, e) && Precedes(c', false, e, d) ensures e in R {
      SameBefore(c, n, e, d);
      assert Precedes(c, false, e, d);
    }
  }

  lemma SameFrontier(c: Config, n: nat, R: set<Path>)
    ensures Frontier(c.(workers := n), R) == Frontier(c, R)
  {
    FrontierIsLive(c, R);
    FrontierIsLive(c.(workers := n), R);
    LiveDirsExactly(c.tree, c.patterns);
    forall p ensures p in Frontier(c.(workers := n), R) <==> p in Frontier(c, R) {
      assert InFrontier(c.(workers := n), R, p) <==> InFrontier(c, R, p);
    }
  }

  /** The tree and the patterns decide what overflows, not the number of workers. */
  lemma WorkersDoNotMatter(c: Config, n: nat)
    requires Overflows(c, false)
    ensures Overflows(c.(workers := n), false)
  {
    var R :| Takeable(c, false, R) && |Frontier(c, R)| > CAPACITY;
    SameTakeable(c, n, R);
    SameFrontier(c, n, R);
  }

  lemma DropMeansOverflow(c: Config, solo: bool)
    requires ValidTree(c.tree) && c.workers > 0 && (solo ==> c.workers == 1) && MayDrop(c)
    ensures Overflows(c, solo)
  {
    var s :| Reachable(c, s) && s.main == Returned && !NoneDropped(s);
    var steps, states :| Run(c, steps, states) && states[|steps|] == s;
    if !Overflows(c, solo) {
      RunInOrder(c, solo, steps, states, |steps|);
    }
  }

  /**
   For some number of workers some interleaving drops a directory iff a takeable set of directories
   has a frontier of more than 64.
   */
  lemma MayDropIff(c: Config)
    requires ValidTree(c.tree) && |Roots(c)| <= CAPACITY
    ensures (exists n | n > 0 :: MayDrop(c.(workers := n))) <==> Overflows(c, false)
  {
    if n :| n > 0 && MayDrop(c.(workers := n)) {
      var c' := c.(workers := n);
      DropMeansOverflow(c', false);
      WorkersDoNotMatter(c', c.workers);
      assert c'.(workers := c.workers) == c;
    }
    if Overflows(c, false) {
      var R :| Takeable(c, false, R) && |Frontier(c, R)| > CAPACITY;
      var n := |R| + 1;
      SameTakeable(c, n, R);
      SameFrontier(c, n, R);
      var d := OverflowCrowdsOut(c.(workers := n), R);
      var end := CrowdedOutDrops(c.(workers := n), R, d);
    }
  }

  /** As many workers as there are live directories are enough to make that exact. */
  lemma ManyWorkersMayDropIff(c: Config)
    requires ValidTree(c.tree) && c.workers > 0 && |Roots(c)| <= CAPACITY
    requires |LiveDirs(c.tree, c.patterns)| <= c.workers
    ensures MayDrop(c) <==> Overflows(c, false)
  {
    if MayDrop(c) {
      DropMeansOverflow(c, false);
    }
    if Overflows(c, false) {
      var R :| Takeable(c, false, R) && |Frontier(c, R)| > CAPACITY;
      LiveDirsExactly(c.tree, c.patterns);
      SubsetSize(R, LiveDirs(c.tree, c.patterns));
      var d := OverflowCrowdsOut(c, R);
      var end := CrowdedOutDrops(c, R, d);
    }
  }

  // --- a given number of workers ----------------------------------------------------------

  /**
   With the given number of workers some interleaving drops a directory iff they can take directories
   in some order such that the frontier of these is more than 64.
   */
  lemma GivenWorkersMayDropIff(c: Config)
    requires ValidTree(c.tree) && c.workers > 0 && |Roots(c)| <= CAPACITY
    ensures MayDrop(c) <==> exists o :: OverflowingOrder(c, o)
  {
    if MayDrop(c) {
      DropMeansOrder(c);
    }
    if o :| OverflowingOrder(c, o) {
      OverflowingOrderDrops(c, o);
    }
  }

  // --- one directory ----------------------------------------------------------------------

  lemma SameCrowdedOut(c: Config, n: nat, R: set<Path>, d: Path)
    requires CrowdedOut(c, R, d)
    ensures CrowdedOut(c.(workers := n), R, d)
  {
    var c' := c.(workers := n);
    SameTakeable(c, n, R);
    SameFrontier(c, n, R);
    LiveDirsExactly(c.tree, c.patterns);
    forall p ensures p in Later(c', d) <==> p in Later(c, d) {
      SameBefore(c, n, d, p);
    }
    assert Later(c', d) == Later(c, d);
  }

  /** Some interleaving returns having dropped this directory. */
  ghost predicate MayDropIt(c: Config, d: Path) {
    exists s :: Reachable(c, s) && s.main == Returned && IsDropped(s, d)
  }

  /** For some number of workers some interleaving drops the directory iff it can be crowded out. */
  lemma MayDropItIff(c: Config, d: Path)
    requires ValidTree(c.tree) && |Roots(c)| <= CAPACITY
    ensures (exists n | n > 0 :: MayDropIt(c.(workers := n), d)) <==> exists R :: CrowdedOut(c, R, d)
  {
    if n :| n > 0 && MayDropIt(c.(workers := n), d) {
      var c' := c.(workers := n);
      DroppedWasCrowdedOut(c', d);
      var R :| CrowdedOut(c', R, d);
      SameCrowdedOut(c', c.workers, R, d);
      assert c'.(workers := c.workers) == c;
    }
    if R :| CrowdedOut(c, R, d) {
      SameCrowdedOut(c, |R| + 1, R, d);
      var end := CrowdedOutDrops(c.(workers := |R| + 1), R, d);
    }
  }

  lemma DroppedWasCrowdedOut(c: Config, d: Path)
    requires ValidTree(c.tree) && c.workers > 0 && MayDropIt(c, d)
    ensures exists R :: CrowdedOut(c, R, d)
  {
    var s :| Reachable(c, s) && s.main == Returned && IsDropped(s, d);
    var steps, states :| Run(c, steps, states) && states[|steps|] == s;
    RunCrowdsOut(c, steps, states, |steps|, d);
  }

  /** As many workers as there are live directories are enough. */
  lemma ManyWorkersMayDropItIff(c: Config, d: Path)
    requires ValidTree(c.tree) && c.workers > 0 && |Roots(c)| <= CAPACITY
    requires |LiveDirs(c.tree, c.patterns)| <= c.workers
    ensures MayDropIt(c, d) <==> exists R :: CrowdedOut(c, R, d)
  {
    if MayDropIt(c, d) {
      DroppedWasCrowdedOut(c, d);
    }
    if R :| CrowdedOut(c, R, d) {
      LiveDirsExactly(c.tree, c.patterns);
      SubsetSize(R, LiveDirs(c.tree, c.patterns));
      var end := CrowdedOutDrops(c, R, d);
    }
  }

  // --- one worker -------------------------------------------------------------------------

  /** A run of a single worker that has dropped nothing has taken nothing outside an overflowing set. */
  lemma {:induction false} RunTakesInside(c: Config, R: set<Path>, steps: seq<Step>, states: seq<State>, n: nat)
    requires ValidTree(c.tree) && c.workers == 1 && Run(c, steps, states) && n <= |steps| && NoneDropped(states[n])
    requires Takeable(c, true, R) && |Frontier(c, R)| > CAPACITY
    ensures InOrder(c, true, states[n]) && Taken(states[n]) <= R
  {
    if n == 0 {
      StartInOrder(c, true);
    } else {
      NoneDroppedBefore(c, steps, states, n - 1);
      RunTakesInside(c, R, steps, states, n - 1);
      RunKeepsInv(c, steps, states, n - 1);
      StepTakesInside(c, R, states[n - 1], steps[n - 1]);
    }
  }

  lemma StepTakesInside(c: Config, R: set<Path>, s: State, step: Step)
    requires ValidTree(c.tree) && c.workers == 1 && Inv(c, s) && Enabled(c, s, step) && !Drops(s, step)
    requires Takeable(c, true, R) && |Frontier(c, R)| > CAPACITY
    requires InOrder(c, true, s) && Taken(s) <= R
    ensures InOrder(c, true, Next(c, s, step)) && Taken(Next(c, s, step)) <= R
  {
    StepKeepsInv(c, s, step);
    WorkersStarted(c, Next(c, s, step));
    InOrderStep(c, true, s, step);
    if step.Receive? {
      assert NobodyActive(s);
      NextTakenInside(c, R, s);
    }
    TakenNext(c, s, step);
  }

  lemma TakenNext(c: Config, s: State, step: Step)
    requires Inv(c, s) && Enabled(c, s, step)
    ensures Taken(Next(c, s, step)) <= Taken(s) + if step.Receive? then {s.queue[0]} else {}
  {
  }

  /** With one worker, a breadth-first overflow makes every interleaving drop a directory. */
  lemma OneWorkerAlwaysDrops(c: Config, s: State)
    requires ValidTree(c.tree) && c.workers == 1 && Overflows(c, true) && Reachable(c, s) && s.main == Returned
    ensures !NoneDropped(s)
  {
    var R :| Takeable(c, true, R) && |Frontier(c, R)| > CAPACITY;
    var steps, states :| Run(c, steps, states) && states[|steps|] == s;
    if NoneDropped(s) {
      RunTakesInside(c, R, steps, states, |steps|);
      ReachableInv(c, s);
      ReturnedIsOver(c, s);
      assert NobodyActive(s);
      MoreQueued(c, R, s);
    }
  }

  /**
   With one worker an interleaving can drop a directory iff a set of directories closed under what
   comes before breadth first has a frontier of more than 64; and then every one does.
   */
  lemma OneWorkerMayDropIff(c: Config)
    requires ValidTree(c.tree) && c.workers == 1 && |Roots(c)| <= CAPACITY
    ensures MayDrop(c) <==> Overflows(c, true)
    ensures MayDrop(c) <==> forall s | Reachable(c, s) && s.main == Returned :: !NoneDropped(s)
  {
    if MayDrop(c) {
      DropMeansOverflow(c, true);
    }
    if Overflows(c, true) {
      BreadthFirstOverflowDrops(c);
      forall s | Reachable(c, s) && s.main == Returned ensures !NoneDropped(s) {
        OneWorkerAlwaysDrops(c, s);
      }
    }
    StartReachable(c);
    var end := CanReturn(c, Start(c));
  }

  // --- wide levels and wide directories ---------------------------------------------------

  ghost function Level(c: Config, k: nat): set<Path> {
    set p | p in LiveDirs(c.tree, c.patterns) && |p| == k
  }

  ghost function Above(c: Config, k: nat): set<Path> {
    set p | p in LiveDirs(c.tree, c.patterns) && |p| < k
  }

  lemma {:induction false} NotDeeper(c: Config, e: Path, d: Path)
    requires BreadthFirst(c, e, d)
    ensures |e| <= |d|
  {
  }

  lemma AboveTakeable(c: Config, k: nat)
    requires ValidTree(c.tree)
    ensures Takeable(c, true, Above(c, k))
  {
    LiveDirsExactly(c.tree, c.patterns);
    forall d | d in Above(c, k) ensures LiveDir(c.tree, c.patterns, d) && (|d| > 1 ==> ParentOf(d) in Above(c, k)) {
      LiveIsKid(c, d);
    }
    forall e, d | d in Above(c, k) && LiveDir(c.tree, c.patterns, e) && Precedes(c, true, e, d)
      ensures e in Above(c, k)
    {
      NotDeeper(c, e, d);
    }
  }

  /** As soon as some level below the root directories has more than 64 live directories, one can be dropped. */
  lemma WideLevelDrops(c: Config, k: nat)
    requires ValidTree(c.tree) && c.workers > 0 && |Roots(c)| <= CAPACITY
    requires k >= 2 && |Level(c, k)| > CAPACITY
    ensures MayDrop(c)
  {
    AboveTakeable(c, k);
    LiveDirsExactly(c.tree, c.patterns);
    forall p | p in Level(c, k) ensures p in Frontier(c, Above(c, k)) {
      LiveIsKid(c, p);
      assert InFrontier(c, Above(c, k), p);
    }
    SubsetSize(Level(c, k), Frontier(c, Above(c, k)));
    BreadthFirstOverflowDrops(c);
  }

  /** In particular as soon as one live directory keeps more than 64 subdirectories. */
  lemma WideDirectoryDrops(c: Config, d: Path)
    requires ValidTree(c.tree) && c.workers > 0 && |Roots(c)| <= CAPACITY
    requires LiveDir(c.tree, c.patterns, d) && |SubDirsOf(c, d)| > CAPACITY
    ensures MayDrop(c)
  {
    SubDirsFacts(c, d);
    LiveDirsExactly(c.tree, c.patterns);
    forall p | p in Elems(SubDirsOf(c, d)) ensures p in Level(c, |d| + 1) {
      LiveIsKid(c, p);
    }
    DistinctSize(SubDirsOf(c, d));
    SubsetSize(Elems(SubDirsOf(c, d)), Level(c, |d| + 1));
    WideLevelDrops(c, |d| + 1);
  }
}
