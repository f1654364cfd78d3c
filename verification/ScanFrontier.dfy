/**
 In what order the scanner's pool takes directories, and what a dropped send says about the tree:
 a set of directories was taken whose frontier does not fit the queue.
 */
module ScanFrontier {
  import opened Order
  import opened ScanTree
  import opened ScanPool
  import opened ScanPoolSteps
  import opened ScanPoolTheorems

  // --- orders on the tree -----------------------------------------------------------------

  /** The kept subdirectories of a directory or of the root, in listing order. */
  ghost function Kids(c: Config, dir: Path): seq<Path> {
    if dir == [] then Roots(c) else SubDirsOf(c, dir)
  }

  ghost predicate EarlierKid(c: Config, e: Path, d: Path) {
    && e != [] && d != [] && ParentOf(e) == ParentOf(d)
    && exists i, j :: 0 <= i < j < |Kids(c, ParentOf(d))| && KidAt(c, e, i) && KidAt(c, d, j)
  }

  ghost predicate KidAt(c: Config, d: Path, i: nat)
    requires d != []
  {
    i < |Kids(c, ParentOf(d))| && Kids(c, ParentOf(d))[i] == d
  }

  /** Every interleaving takes `e` before `d`: an earlier sibling, or a root directory before a nested one. */
  ghost predicate Before(c: Config, e: Path, d: Path) {
    EarlierKid(c, e, d) || (|e| == 1 && |d| > 1)
  }

  /** A worker alone takes `e` before `d`: breadth first, level by level. */
  ghost predicate BreadthFirst(c: Config, e: Path, d: Path)
    decreases |d|
  {
    || |e| < |d|
    || (|e| == |d| && d != [] && (EarlierKid(c, e, d) || BreadthFirst(c, ParentOf(e), ParentOf(d))))
  }

  ghost predicate Precedes(c: Config, solo: bool, e: Path, d: Path) {
    if solo then BreadthFirst(c, e, d) else Before(c, e, d)
  }

  /** Directories that can be the ones taken at some moment. */
  ghost predicate Takeable(c: Config, solo: bool, R: set<Path>) {
    && (forall d | d in R :: LiveDir(c.tree, c.patterns, d) && (|d| > 1 ==> ParentOf(d) in R))
    && forall e, d | d in R && LiveDir(c.tree, c.patterns, e) && Precedes(c, solo, e, d) :: e in R
  }

  /** The live directories outside `R` that are in the root or in a directory of `R`. */
  ghost function Frontier(c: Config, R: set<Path>): set<Path> {
    set p | p in LiveDirs(c.tree, c.patterns) && InFrontier(c, R, p)
  }

  ghost predicate InFrontier(c: Config, R: set<Path>, p: Path) {
    p !in R && p != [] && (|p| == 1 || ParentOf(p) in R)
  }

  /** A live directory is a kid of its parent, and the kids of the root and of live directories are live. */
  lemma LiveIsKid(c: Config, d: Path)
    requires ValidTree(c.tree) && d != []
    ensures LiveDir(c.tree, c.patterns, d) <==>
            d in Kids(c, ParentOf(d)) && (|d| == 1 || LiveDir(c.tree, c.patterns, ParentOf(d)))
  {
    LiveDirFromParent(c.tree, c.patterns, d);
    RootsFacts(c);
    SubDirsFacts(c, ParentOf(d));
    if |d| == 1 { assert ParentOf(d) == []; }
  }

  lemma KidsDistinct(c: Config, dir: Path)
    requires ValidTree(c.tree)
    ensures Distinct(Kids(c, dir))
  {
    RootsFacts(c);
    SubDirsFacts(c, dir);
  }

  lemma EarlierAt(c: Config, e: Path, d: Path, i: nat, j: nat)
    requires e != [] && d != [] && ParentOf(e) == ParentOf(d) && KidAt(c, e, i) && KidAt(c, d, j) && i < j
    ensures EarlierKid(c, e, d)
  {
  }

  lemma NotEarlierThanEarlier(c: Config, e: Path, d: Path, i: nat, j: nat)
    requires ValidTree(c.tree) && e != [] && d != [] && ParentOf(e) == ParentOf(d)
    requires KidAt(c, e, i) && KidAt(c, d, j)
    ensures EarlierKid(c, e, d) <==> i < j
  {
    KidsDistinct(c, ParentOf(d));
  }

  lemma SiblingsOrdered(c: Config, e: Path, d: Path)
    requires ValidTree(c.tree) && e != [] && d != [] && e != d && ParentOf(e) == ParentOf(d)
    requires e in Kids(c, ParentOf(d)) && d in Kids(c, ParentOf(d))
    ensures EarlierKid(c, e, d) || EarlierKid(c, d, e)
  {
    var i :| 0 <= i < |Kids(c, ParentOf(d))| && Kids(c, ParentOf(d))[i] == e;
    var j :| 0 <= j < |Kids(c, ParentOf(d))| && Kids(c, ParentOf(d))[j] == d;
    if i < j { EarlierAt(c, e, d, i, j); } else { EarlierAt(c, d, e, j, i); }
  }

  /** Any two live directories are ordered. */
  lemma {:induction false} BreadthFirstTotal(c: Config, e: Path, d: Path)
    requires ValidTree(c.tree) && LiveDir(c.tree, c.patterns, e) && LiveDir(c.tree, c.patterns, d) && e != d
    ensures BreadthFirst(c, e, d) || BreadthFirst(c, d, e)
    decreases |d|
  {
    if |e| == |d| {
      LiveIsKid(c, e);
      LiveIsKid(c, d);
      if ParentOf(e) == ParentOf(d) {
        SiblingsOrdered(c, e, d);
      } else {
        assert |d| > 1;
        BreadthFirstTotal(c, ParentOf(e), ParentOf(d));
      }
    }
  }

  // --- first in, first out ----------------------------------------------------------------

  /** If `e` is still in the queue, `d` is behind it. */
  ghost predicate Behind(queue: seq<Path>, e: Path, d: Path) {
    forall j | 0 <= j < |queue| && queue[j] == e :: d in queue[j + 1..]
  }

  /** Directories are discovered and taken in the given order, those that were dropped aside. */
  ghost predicate Fifo(c: Config, solo: bool, s: State) {
    forall e, d | Kept(s, d) && LiveDir(c.tree, c.patterns, e) && Precedes(c, solo, e, d) ::
      e in s.places && Behind(s.queue, e, d)
  }

  /** Discovered and not dropped. */
  predicate Kept(s: State, d: Path) {
    d in s.places && s.places[d] != Dropped
  }

  /** A worker alone has dealt with all it took before the directory it is at. */
  ghost predicate Lead(c: Config, s: State) {
    forall e, d | e in s.places && d in s.places && s.places[e].With? && BreadthFirst(c, e, d) :: s.places[d] == Queued
  }

  ghost predicate InOrder(c: Config, solo: bool, s: State) {
    && NoneDropped(s) && Fifo(c, solo, s)
    && (s.main.Enqueuing? ==> forall d | d in s.places :: s.places[d] == Queued)
    && (solo ==> |s.workers| <= 1 && Lead(c, s))
  }

  predicate Drops(s: State, step: Step) {
    step.Push? && |s.queue| == CAPACITY
  }

  /** `d` is the next to be discovered: all that precede it are discovered, none that it precedes. */
  ghost predicate IsNext(c: Config, solo: bool, s: State, d: Path) {
    && d !in s.places
    && (forall e | LiveDir(c.tree, c.patterns, e) && Precedes(c, solo, e, d) :: e in s.places)
    && forall x | x in s.places :: !Precedes(c, solo, d, x)
  }

  lemma FifoDiscovered(c: Config, solo: bool, s: State, s': State, d: Path)
    requires Fifo(c, solo, s) && IsNext(c, solo, s, d)
    requires s'.queue == s.queue + [d] && s'.places == s.places[d := Queued]
    ensures Fifo(c, solo, s')
  {
    forall e, x | Kept(s', x) && LiveDir(c.tree, c.patterns, e) && Precedes(c, solo, e, x)
      ensures e in s'.places && Behind(s'.queue, e, x)
    {
      if x == d {
        assert e in s.places;
        forall j | 0 <= j < |s'.queue| && s'.queue[j] == e ensures d in s'.queue[j + 1..] {
          assert s'.queue[j + 1..][|s.queue| - (j + 1)] == d;
        }
      } else {
        assert Kept(s, x) && Behind(s.queue, e, x) && e != d;
        forall j | 0 <= j < |s'.queue| && s'.queue[j] == e ensures x in s'.queue[j + 1..] {
          assert s.queue[j] == e;
          assert s'.queue[j + 1..] == s.queue[j + 1..] + [d];
        }
      }
    }
  }

  lemma FifoReceived(c: Config, solo: bool, s: State, s': State)
    requires Fifo(c, solo, s) && s.queue != [] && s'.queue == s.queue[1..]
    requires s'.places.Keys == s.places.Keys && forall x :: Kept(s', x) ==> Kept(s, x)
    ensures Fifo(c, solo, s')
  {
    forall e, x | Kept(s', x) && LiveDir(c.tree, c.patterns, e) && Precedes(c, solo, e, x)
      ensures e in s'.places && Behind(s'.queue, e, x)
    {
      assert Kept(s, x) && Behind(s.queue, e, x);
      forall j | 0 <= j < |s'.queue| && s'.queue[j] == e ensures x in s'.queue[j + 1..] {
        assert s.queue[j + 1] == e;
        assert s'.queue[j + 1..] == s.queue[j + 2..];
      }
    }
  }

  /** Among the root directories both orders are the listing order. */
  lemma RootOrder(c: Config, solo: bool, e: Path, d: Path)
    requires e != [] && |d| == 1
    ensures Precedes(c, solo, e, d) <==> EarlierKid(c, e, d)
  {
    assert ParentOf(d) == [] && (|e| == 1 ==> ParentOf(e) == []);
    assert !BreadthFirst(c, [], []);
  }

  // --- what is discovered next ------------------------------------------------------------

  lemma NextRoot(c: Config, solo: bool, s: State)
    requires ValidTree(c.tree) && Inv(c, s) && Enabled(c, s, Enqueue)
    requires forall d | d in s.places :: s.places[d] == Queued
    ensures IsNext(c, solo, s, Roots(c)[s.main.next])
  {
    var k, d := s.main.next, Roots(c)[s.main.next];
    NextRootIsNew(c, s);
    RootsFacts(c);
    assert ParentOf(d) == [] && KidAt(c, d, k);
    forall e | LiveDir(c.tree, c.patterns, e) && Precedes(c, solo, e, d) ensures e in s.places {
      RootOrder(c, solo, e, d);
      EarlierRootQueued(c, s, e, d);
    }
    forall x | x in s.places ensures !Precedes(c, solo, d, x) {
      assert x in s.queue && x in Roots(c)[..k];
      RootOrder(c, solo, d, x);
      var i :| 0 <= i < k && Roots(c)[..k][i] == x;
      NotEarlierThanEarlier(c, d, x, k, i);
    }
  }

  lemma EarlierRootQueued(c: Config, s: State, e: Path, d: Path)
    requires ValidTree(c.tree) && PhaseOk(c, s) && PlacesOk(s.queue, s.workers, s.places) && Enabled(c, s, Enqueue)
    requires d == Roots(c)[s.main.next] && |d| == 1 && EarlierKid(c, e, d)
    ensures e in s.places
  {
    var k := s.main.next;
    assert ParentOf(d) == [];
    KidsDistinct(c, []);
    var i, j :| 0 <= i < j < |Roots(c)| && KidAt(c, e, i) && KidAt(c, d, j);
    assert j == k && Roots(c)[..k][i] == e;
  }

  /** Where the walker of a nested directory stands when it offers its next subdirectory. */
  lemma NextSub(c: Config, solo: bool, s: State, w: nat)
    requires ValidTree(c.tree) && Inv(c, s) && Enabled(c, s, Push(w)) && (solo ==> InOrder(c, true, s))
    ensures IsNext(c, solo, s, s.workers[w].subs[s.workers[w].next])
  {
    var d := s.workers[w].subs[s.workers[w].next];
    NextSubIsNew(c, s, w);
    forall e | LiveDir(c.tree, c.patterns, e) && Precedes(c, solo, e, d) ensures e in s.places {
      if EarlierKid(c, e, d) {
        EarlierSubOffered(c, s, w, e);
      } else if solo {
        SoloEarlier(c, s, w, e);
      } else {
        RootOffered(c, s, w, e);
      }
    }
    forall x | x in s.places ensures !Precedes(c, solo, d, x) {
      if EarlierKid(c, d, x) {
        LaterSubNotOffered(c, s, w, x);
      } else if solo && BreadthFirst(c, d, x) {
        SoloLater(c, s, w, x);
      }
    }
  }

  lemma SubPosition(c: Config, s: State, w: nat)
    requires ValidTree(c.tree) && Inv(c, s) && Enabled(c, s, Push(w))
    ensures var d := s.workers[w].subs[s.workers[w].next];
            && d !in s.places && |d| > 1 && ParentOf(d) == s.workers[w].dir && s.workers[w].dir != []
            && s.workers[w].subs == Kids(c, s.workers[w].dir) && KidAt(c, d, s.workers[w].next)
            && s.workers[w].dir in s.places && s.places[s.workers[w].dir] == With(w)
  {
    NextSubIsNew(c, s, w);
    PlacesNonEmpty(c, s, s.workers[w].dir);
    assert WorkerOk(c, s.workers[w]);
  }

  lemma EarlierSubOffered(c: Config, s: State, w: nat, e: Path)
    requires ValidTree(c.tree) && Inv(c, s) && Enabled(c, s, Push(w))
    requires EarlierKid(c, e, s.workers[w].subs[s.workers[w].next])
    ensures e in s.places
  {
    var d, n := s.workers[w].subs[s.workers[w].next], s.workers[w].next;
    SubPosition(c, s, w);
    KidsDistinct(c, s.workers[w].dir);
    var i, j :| 0 <= i < j < |Kids(c, ParentOf(d))| && KidAt(c, e, i) && KidAt(c, d, j);
    assert j == n && s.workers[w].subs[..n][i] == e;
    assert Offered(c, s, e);
  }

  lemma RootOffered(c: Config, s: State, w: nat, e: Path)
    requires ValidTree(c.tree) && Inv(c, s) && w < |s.workers| && |e| == 1 && LiveDir(c.tree, c.patterns, e)
    ensures e in s.places
  {
    LiveIsKid(c, e);
    assert ParentOf(e) == [];
    assert Offered(c, s, e);
  }

  lemma LaterSubNotOffered(c: Config, s: State, w: nat, x: Path)
    requires ValidTree(c.tree) && Inv(c, s) && Enabled(c, s, Push(w)) && x in s.places
    ensures !EarlierKid(c, s.workers[w].subs[s.workers[w].next], x)
  {
    var d, n := s.workers[w].subs[s.workers[w].next], s.workers[w].next;
    SubPosition(c, s, w);
    if EarlierKid(c, d, x) {
      assert Offered(c, s, x);
      var i :| 0 <= i < n && s.workers[w].subs[..n][i] == x;
      assert KidAt(c, x, i);
      NotEarlierThanEarlier(c, d, x, n, i);
    }
  }

  /** Everything that precedes the single worker's directory, or is as deep, is discovered. */
  lemma SoloEarlier(c: Config, s: State, w: nat, e: Path)
    requires ValidTree(c.tree) && Inv(c, s) && InOrder(c, true, s) && Enabled(c, s, Push(w))
    requires LiveDir(c.tree, c.patterns, e) && BreadthFirst(c, e, s.workers[w].subs[s.workers[w].next])
    requires !EarlierKid(c, e, s.workers[w].subs[s.workers[w].next])
    ensures e in s.places
  {
    var d, dir := s.workers[w].subs[s.workers[w].next], s.workers[w].dir;
    SubPosition(c, s, w);
    if |e| == 1 {
      RootOffered(c, s, w, e);
    } else {
      var q := ParentOf(e);
      LiveIsKid(c, e);
      if q != dir {
        assert BreadthFirst(c, q, dir);
        SoloWalked(c, s, w, q);
        assert Offered(c, s, e);
      } else {
        assert false;
      }
    }
  }

  lemma HeldAt(s: State, q: Path)
    requires PlacesOk(s.queue, s.workers, s.places)
    ensures q in s.places && s.places[q].With? ==> HeldBy(s.workers, s.places[q].worker, q)
  {
  }

  lemma BehindMeans(queue: seq<Path>, e: Path, d: Path)
    requires Behind(queue, e, d)
    ensures e in queue ==> d in queue
  {
    if e in queue {
      var j :| 0 <= j < |queue| && queue[j] == e;
      assert d in queue[j + 1..];
    }
  }

  lemma SoloWalked(c: Config, s: State, w: nat, q: Path)
    requires ValidTree(c.tree) && Inv(c, s) && InOrder(c, true, s) && w < |s.workers| && Active(s.workers[w])
    requires LiveDir(c.tree, c.patterns, q) && q != s.workers[w].dir && BreadthFirst(c, q, s.workers[w].dir)
    ensures q in s.places && s.places[q] == Walked
  {
    var dir := s.workers[w].dir;
    assert Precedes(c, true, q, dir) && q in s.places && Behind(s.queue, q, dir);
    BehindMeans(s.queue, q, dir);
    HeldAt(s, q);
  }

  lemma ParentsBreadthFirst(c: Config, d: Path, x: Path)
    requires d != [] && x != [] && BreadthFirst(c, d, x) && !EarlierKid(c, d, x)
    ensures BreadthFirst(c, ParentOf(d), ParentOf(x))
  {
  }

  lemma SoloLater(c: Config, s: State, w: nat, x: Path)
    requires ValidTree(c.tree) && Inv(c, s) && InOrder(c, true, s) && Enabled(c, s, Push(w)) && x in s.places
    requires !EarlierKid(c, s.workers[w].subs[s.workers[w].next], x)
    ensures !BreadthFirst(c, s.workers[w].subs[s.workers[w].next], x)
  {
    var d, dir := s.workers[w].subs[s.workers[w].next], s.workers[w].dir;
    SubPosition(c, s, w);
    DiscoveredByParent(c, s, x);
    if BreadthFirst(c, d, x) {
      ParentsBreadthFirst(c, d, x);
    }
  }

  // --- every step that does not drop keeps the order --------------------------------------

  lemma StartInOrder(c: Config, solo: bool)
    ensures InOrder(c, solo, Start(c))
  {
  }

  lemma LeadStays(c: Config, s: State, s': State, d: Path)
    requires Lead(c, s) && d !in s.places && s'.places == s.places[d := Queued]
    ensures Lead(c, s')
  {
  }

  lemma LeadReceived(c: Config, s: State, w: nat)
    requires Inv(c, s) && InOrder(c, true, s) && Enabled(c, s, Receive(w))
    requires LiveDir(c.tree, c.patterns, s.queue[0])
    ensures Lead(c, Next(c, s, Receive(w)))
  {
    var s', f := Next(c, s, Receive(w)), s.queue[0];
    assert w == 0;
    forall e, d | e in s'.places && d in s'.places && s'.places[e].With? && BreadthFirst(c, e, d)
      ensures s'.places[d] == Queued
    {
      HeldAt(s, e);
      if e == f {
        assert Precedes(c, true, f, d) && Behind(s.queue, f, d);
        assert d in s.queue[1..] && d in s.queue;
        assert d != f;
      }
    }
  }

  lemma DiscoveryInOrder(c: Config, solo: bool, s: State, s': State, d: Path)
    requires InOrder(c, solo, s) && IsNext(c, solo, s, d) && (s'.main.Enqueuing? ==> s.main.Enqueuing?)
    requires s'.queue == s.queue + [d] && s'.places == s.places[d := Queued] && |s'.workers| == |s.workers|
    ensures InOrder(c, solo, s')
  {
    FifoDiscovered(c, solo, s, s', d);
    if solo { LeadStays(c, s, s', d); }
  }

  lemma ReceiveInOrder(c: Config, solo: bool, s: State, w: nat)
    requires ValidTree(c.tree) && Inv(c, s) && InOrder(c, solo, s) && Enabled(c, s, Receive(w))
    ensures InOrder(c, solo, Next(c, s, Receive(w)))
  {
    assert s.queue[0] in s.queue;
    FifoReceived(c, solo, s, Next(c, s, Receive(w)));
    DiscoveredIsLive(c, s, s.queue[0]);
    if solo { LeadReceived(c, s, w); }
  }

  lemma InOrderStep(c: Config, solo: bool, s: State, step: Step)
    requires ValidTree(c.tree) && Inv(c, s) && InOrder(c, solo, s) && Enabled(c, s, step) && !Drops(s, step)
    requires solo ==> |Next(c, s, step).workers| <= 1
    ensures InOrder(c, solo, Next(c, s, step))
  {
    var s' := Next(c, s, step);
    match step
    case Enqueue =>
      NextRoot(c, solo, s);
      DiscoveryInOrder(c, solo, s, s', Roots(c)[s.main.next]);
    case Push(w) =>
      NextSub(c, solo, s, w);
      DiscoveryInOrder(c, solo, s, s', s.workers[w].subs[s.workers[w].next]);
    case Receive(w) => ReceiveInOrder(c, solo, s, w);
    case EndPush(_) =>
    case _ =>
  }

  // --- what a drop says -------------------------------------------------------------------

  /** The directories that some worker has taken. */
  ghost function Taken(s: State): set<Path> {
    set d | d in s.places && (s.places[d].With? || s.places[d] == Walked)
  }

  lemma TakenIsTakeable(c: Config, solo: bool, s: State)
    requires ValidTree(c.tree) && Inv(c, s) && InOrder(c, solo, s)
    ensures Takeable(c, solo, Taken(s))
  {
    forall d | d in Taken(s) ensures LiveDir(c.tree, c.patterns, d) && (|d| > 1 ==> ParentOf(d) in Taken(s)) {
      DiscoveredIsLive(c, s, d);
      DiscoveredByParent(c, s, d);
    }
    forall e, d | d in Taken(s) && LiveDir(c.tree, c.patterns, e) && Precedes(c, solo, e, d) ensures e in Taken(s) {
      assert e in s.places && Behind(s.queue, e, d);
      assert s.places[e] == Queued ==> e in s.queue;
      BehindMeans(s.queue, e, d);
    }
  }

  lemma QueueInFrontier(c: Config, s: State)
    requires ValidTree(c.tree) && Inv(c, s)
    ensures Elems(s.queue) <= Frontier(c, Taken(s)) && |Elems(s.queue)| == |s.queue|
  {
    LiveDirsExactly(c.tree, c.patterns);
    forall q | q in Elems(s.queue) ensures q in Frontier(c, Taken(s)) {
      DiscoveredIsLive(c, s, q);
      DiscoveredByParent(c, s, q);
      assert InFrontier(c, Taken(s), q);
    }
    DistinctSize(s.queue);
  }

  /** What is in the queue, and what does not fit any more, is in the frontier of what was taken. */
  lemma DropOverflows(c: Config, s: State, w: nat)
    requires ValidTree(c.tree) && Inv(c, s) && NoneDropped(s) && Enabled(c, s, Push(w)) && |s.queue| == CAPACITY
    ensures |Frontier(c, Taken(s))| > CAPACITY
  {
    var d := s.workers[w].subs[s.workers[w].next];
    SubPosition(c, s, w);
    FrontierUnrelated(c, s, w);
    LiveDirsExactly(c.tree, c.patterns);
    QueueInFrontier(c, s);
    assert InFrontier(c, Taken(s), d) && d !in Elems(s.queue);
    assert |Elems(s.queue) + {d}| == CAPACITY + 1;
    SubsetSize(Elems(s.queue) + {d}, Frontier(c, Taken(s)));
  }

  /** A set of directories can be taken whose frontier does not fit the queue. */
  ghost predicate Overflows(c: Config, solo: bool) {
    exists R :: Takeable(c, solo, R) && |Frontier(c, R)| > CAPACITY
  }

  /** As long as nothing overflows, a run stays in order; so a drop in it means an overflow. */
  lemma {:induction false} RunInOrder(c: Config, solo: bool, steps: seq<Step>, states: seq<State>, n: nat)
    requires ValidTree(c.tree) && c.workers > 0 && Run(c, steps, states) && n <= |steps|
    requires (solo ==> c.workers == 1) && !Overflows(c, solo)
    ensures InOrder(c, solo, states[n])
  {
    if n == 0 {
      StartInOrder(c, solo);
    } else {
      RunInOrder(c, solo, steps, states, n - 1);
      RunKeepsInv(c, steps, states, n - 1);
      StepInOrder(c, solo, states[n - 1], steps[n - 1]);
    }
  }

  lemma StepInOrder(c: Config, solo: bool, s: State, step: Step)
    requires ValidTree(c.tree) && c.workers > 0 && (solo ==> c.workers == 1) && !Overflows(c, solo)
    requires Inv(c, s) && InOrder(c, solo, s) && Enabled(c, s, step)
    ensures InOrder(c, solo, Next(c, s, step))
  {
    if Drops(s, step) {
      TakenIsTakeable(c, solo, s);
      DropOverflows(c, s, step.w);
    }
    StepKeepsInv(c, s, step);
    WorkersStarted(c, Next(c, s, step));
    InOrderStep(c, solo, s, step);
  }

  lemma WorkersStarted(c: Config, s: State)
    requires Inv(c, s)
    ensures s.main != Returned ==> |s.workers| <= c.workers
  {
  }
}
