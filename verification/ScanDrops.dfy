/**
 Which directories an interleaving of the scanner's pool can drop, whatever it dropped before: one
 for which there is no room because others can have been discovered.
 */
module ScanDrops {
  import opened Order
  import opened ScanTree
  import opened ScanPool
  import opened ScanPoolSteps
  import opened ScanPoolTheorems
  import opened ScanPoolProgress
  import opened ScanFrontier

  /** The siblings that are offered after `d`. */
  ghost function Later(c: Config, d: Path): set<Path> {
    set p | p in LiveDirs(c.tree, c.patterns) && EarlierKid(c, d, p)
  }

  /**
   `R` can be what has been taken when `d` is offered, and without the later siblings of `d` its
   frontier does not fit the queue.
   */
  ghost predicate CrowdedOut(c: Config, R: set<Path>, d: Path) {
    && Takeable(c, false, R) && d in Frontier(c, R) && |d| > 1
    && |Frontier(c, R) - Later(c, d)| > CAPACITY
  }

  // --- order, whatever is dropped ---------------------------------------------------------

  /** What was not dropped is discovered and taken in order, and no root directory is dropped. */
  ghost predicate Ordered(c: Config, s: State) {
    && Fifo(c, false, s)
    && (s.main.Enqueuing? ==> forall d | d in s.places :: s.places[d] == Queued)
    && (forall d | IsDropped(s, d) :: |d| > 1)
  }

  lemma FifoDropped(c: Config, s: State, s': State, d: Path)
    requires Fifo(c, false, s) && d !in s.places
    requires s'.queue == s.queue && s'.places == s.places[d := Dropped]
    ensures Fifo(c, false, s')
  {
    forall e, x | Kept(s', x) && LiveDir(c.tree, c.patterns, e) && Precedes(c, false, e, x)
      ensures e in s'.places && Behind(s'.queue, e, x)
    {
      assert Kept(s, x);
    }
  }

  lemma FifoSame(c: Config, s: State, s': State)
    requires Fifo(c, false, s) && s'.queue == s.queue && s'.places.Keys == s.places.Keys
    requires forall x :: Kept(s', x) ==> Kept(s, x)
    ensures Fifo(c, false, s')
  {
    forall e, x | Kept(s', x) && LiveDir(c.tree, c.patterns, e) && Precedes(c, false, e, x)
      ensures e in s'.places && Behind(s'.queue, e, x)
    {
      assert Kept(s, x);
    }
  }

  lemma PushOrdered(c: Config, s: State, w: nat)
    requires ValidTree(c.tree) && Inv(c, s) && Ordered(c, s) && Enabled(c, s, Push(w))
    ensures Ordered(c, Next(c, s, Push(w)))
  {
    var s', d := Next(c, s, Push(w)), s.workers[w].subs[s.workers[w].next];
    SubPosition(c, s, w);
    if Drops(s, Push(w)) {
      FifoDropped(c, s, s', d);
    } else {
      NextSub(c, false, s, w);
      FifoDiscovered(c, false, s, s', d);
    }
  }

  lemma ReceiveOrdered(c: Config, s: State, w: nat)
    requires Inv(c, s) && Ordered(c, s) && Enabled(c, s, Receive(w))
    ensures Ordered(c, Next(c, s, Receive(w)))
  {
    assert s.queue[0] in s.queue;
    FifoReceived(c, false, s, Next(c, s, Receive(w)));
  }

  lemma OrderedStep(c: Config, s: State, step: Step)
    requires ValidTree(c.tree) && Inv(c, s) && Ordered(c, s) && Enabled(c, s, step)
    ensures Ordered(c, Next(c, s, step))
  {
    var s' := Next(c, s, step);
    match step
    case Enqueue =>
      NextRoot(c, false, s);
      FifoDiscovered(c, false, s, s', Roots(c)[s.main.next]);
    case Push(w) => PushOrdered(c, s, w);
    case Receive(w) => ReceiveOrdered(c, s, w);
    case EndPush(w) => FifoSame(c, s, s');
    case _ => FifoSame(c, s, s');
  }

  lemma {:induction false} RunOrdered(c: Config, steps: seq<Step>, states: seq<State>, n: nat)
    requires ValidTree(c.tree) && c.workers > 0 && Run(c, steps, states) && n <= |steps|
    ensures Ordered(c, states[n])
  {
    if n > 0 {
      RunOrdered(c, steps, states, n - 1);
      RunKeepsInv(c, steps, states, n - 1);
      OrderedStep(c, states[n - 1], steps[n - 1]);
    }
  }

  // --- what was taken, with the siblings before it ----------------------------------------

  ghost predicate BeforeTaken(c: Config, s: State, e: Path) {
    exists t :: t in Taken(s) && EarlierKid(c, e, t)
  }

  ghost function TakenOrBefore(c: Config, s: State): set<Path> {
    Taken(s) + set e | e in LiveDirs(c.tree, c.patterns) && BeforeTaken(c, s, e)
  }

  lemma EarlierThenEarlier(c: Config, a: Path, b: Path, d: Path)
    requires ValidTree(c.tree) && EarlierKid(c, a, b) && EarlierKid(c, b, d)
    ensures EarlierKid(c, a, d)
  {
    KidsDistinct(c, ParentOf(d));
    var i, j :| 0 <= i < j < |Kids(c, ParentOf(b))| && KidAt(c, a, i) && KidAt(c, b, j);
    var k, l :| 0 <= k < l < |Kids(c, ParentOf(d))| && KidAt(c, b, k) && KidAt(c, d, l);
    assert j == k;
  }

  lemma TakenIsLive(c: Config, s: State, t: Path)
    requires ValidTree(c.tree) && Inv(c, s) && t in Taken(s)
    ensures LiveDir(c.tree, c.patterns, t) && (|t| > 1 ==> ParentOf(t) in Taken(s))
  {
    DiscoveredIsLive(c, s, t);
    DiscoveredByParent(c, s, t);
  }

  /** Siblings have the same depth. */
  lemma SameDepth(e: Path, d: Path)
    requires e != [] && d != [] && ParentOf(e) == ParentOf(d)
    ensures |e| == |d|
  {
    assert |ParentOf(e)| == |e| - 1 && |ParentOf(d)| == |d| - 1;
  }

  lemma RootTaken(c: Config, s: State, e: Path, t: Path)
    requires ValidTree(c.tree) && Inv(c, s) && Ordered(c, s) && t in Taken(s)
    requires LiveDir(c.tree, c.patterns, e) && |e| == 1 && |t| > 1
    ensures e in Taken(s)
  {
    assert Kept(s, t) && Precedes(c, false, e, t) && Behind(s.queue, e, t);
    BehindMeans(s.queue, e, t);
    assert !IsDropped(s, e);
  }

  lemma TakenOrBeforeTakeable(c: Config, s: State)
    requires ValidTree(c.tree) && Inv(c, s) && Ordered(c, s)
    ensures Takeable(c, false, TakenOrBefore(c, s))
  {
    var R := TakenOrBefore(c, s);
    LiveDirsExactly(c.tree, c.patterns);
    forall d | d in R ensures LiveDir(c.tree, c.patterns, d) && (|d| > 1 ==> ParentOf(d) in R) {
      if d in Taken(s) {
        TakenIsLive(c, s, d);
      } else {
        var t :| t in Taken(s) && EarlierKid(c, d, t);
        TakenIsLive(c, s, t);
        SameDepth(d, t);
      }
    }
    forall e, d | d in R && LiveDir(c.tree, c.patterns, e) && Precedes(c, false, e, d) ensures e in R {
      BeforeIsInside(c, s, e, d);
    }
  }

  lemma BeforeIsInside(c: Config, s: State, e: Path, d: Path)
    requires ValidTree(c.tree) && Inv(c, s) && Ordered(c, s) && d in TakenOrBefore(c, s)
    requires LiveDir(c.tree, c.patterns, e) && Before(c, e, d)
    ensures e in TakenOrBefore(c, s)
  {
    LiveDirsExactly(c.tree, c.patterns);
    var t := d;
    if d !in Taken(s) {
      t :| t in Taken(s) && EarlierKid(c, d, t);
      SameDepth(d, t);
    }
    if EarlierKid(c, e, d) {
      if t != d { EarlierThenEarlier(c, e, d, t); }
      assert BeforeTaken(c, s, e);
    } else {
      RootTaken(c, s, e, t);
    }
  }

  // --- what a drop says -------------------------------------------------------------------

  lemma NextNotInside(c: Config, s: State, w: nat)
    requires ValidTree(c.tree) && Inv(c, s) && Enabled(c, s, Push(w))
    ensures var d := s.workers[w].subs[s.workers[w].next];
            |d| > 1 && d in Frontier(c, TakenOrBefore(c, s)) && d !in s.queue
  {
    var d := s.workers[w].subs[s.workers[w].next];
    SubPosition(c, s, w);
    NextIsLive(c, s, w);
    if t :| t in Taken(s) && EarlierKid(c, d, t) {
      LaterSubNotOffered(c, s, w, t);
    }
    assert ParentOf(d) in Taken(s);
    assert InFrontier(c, TakenOrBefore(c, s), d);
    LiveDirsExactly(c.tree, c.patterns);
  }

  lemma NextIsLive(c: Config, s: State, w: nat)
    requires ValidTree(c.tree) && Inv(c, s) && Enabled(c, s, Push(w))
    ensures LiveDir(c.tree, c.patterns, s.workers[w].subs[s.workers[w].next])
  {
    var d := s.workers[w].subs[s.workers[w].next];
    SubPosition(c, s, w);
    DiscoveredIsLive(c, s, s.workers[w].dir);
    LiveIsKid(c, d);
  }

  lemma QueuedNotInside(c: Config, s: State, w: nat, q: Path)
    requires ValidTree(c.tree) && Inv(c, s) && Ordered(c, s) && Enabled(c, s, Push(w)) && q in s.queue
    ensures q in Frontier(c, TakenOrBefore(c, s)) - Later(c, s.workers[w].subs[s.workers[w].next])
  {
    DiscoveredIsLive(c, s, q);
    DiscoveredByParent(c, s, q);
    LiveDirsExactly(c.tree, c.patterns);
    if t :| t in Taken(s) && EarlierKid(c, q, t) {
      assert Kept(s, t) && Precedes(c, false, q, t) && Behind(s.queue, q, t);
      BehindMeans(s.queue, q, t);
    }
    assert InFrontier(c, TakenOrBefore(c, s), q);
    LaterSubNotOffered(c, s, w, q);
  }

  lemma NotLaterThanItself(c: Config, d: Path)
    requires ValidTree(c.tree) && d != []
    ensures !EarlierKid(c, d, d)
  {
    KidsDistinct(c, ParentOf(d));
  }

  lemma DropCrowdsOut(c: Config, s: State, w: nat)
    requires ValidTree(c.tree) && Inv(c, s) && Ordered(c, s) && Enabled(c, s, Push(w)) && Drops(s, Push(w))
    ensures CrowdedOut(c, TakenOrBefore(c, s), s.workers[w].subs[s.workers[w].next])
  {
    var d, F := s.workers[w].subs[s.workers[w].next], Frontier(c, TakenOrBefore(c, s));
    TakenOrBeforeTakeable(c, s);
    NextNotInside(c, s, w);
    NotLaterThanItself(c, d);
    forall q | q in Elems(s.queue) ensures q in F - Later(c, d) {
      QueuedNotInside(c, s, w, q);
    }
    OneTooMany(s.queue, d, F - Later(c, d));
  }

  lemma OneTooMany(queue: seq<Path>, d: Path, F: set<Path>)
    requires Distinct(queue) && |queue| == CAPACITY && d !in queue && d in F && Elems(queue) <= F
    ensures |F| > CAPACITY
  {
    DistinctSize(queue);
    assert |Elems(queue) + {d}| == CAPACITY + 1;
    SubsetSize(Elems(queue) + {d}, F);
  }

  /** A directory that some run has dropped was crowded out. */
  lemma {:induction false} RunCrowdsOut(c: Config, steps: seq<Step>, states: seq<State>, n: nat, d: Path)
    requires ValidTree(c.tree) && c.workers > 0 && Run(c, steps, states) && n <= |steps| && IsDropped(states[n], d)
    ensures exists R :: CrowdedOut(c, R, d)
  {
    assert n > 0;
    if IsDropped(states[n - 1], d) {
      RunCrowdsOut(c, steps, states, n - 1, d);
    } else {
      RunKeepsInv(c, steps, states, n - 1);
      RunOrdered(c, steps, states, n - 1);
      DropIsPush(c, states[n - 1], steps[n - 1], d);
      DropCrowdsOut(c, states[n - 1], steps[n - 1].w);
    }
  }

  lemma DropIsPush(c: Config, s: State, step: Step, d: Path)
    requires Inv(c, s) && Enabled(c, s, step) && !IsDropped(s, d) && IsDropped(Next(c, s, step), d)
    ensures Drops(s, step) && d == s.workers[step.w].subs[s.workers[step.w].next]
  {
  }
}
