/**
 A breadth-first set of directories whose frontier does not fit the queue makes some interleaving of
 the scanner's pool drop a directory, whatever the number of workers: one of them works alone.
 */
module ScanOverflow {
  import opened Order
  import opened ScanTree
  import opened ScanPool
  import opened ScanPoolSteps
  import opened ScanPoolTheorems
  import opened ScanPoolProgress
  import opened ScanFrontier

  lemma FrontierIsLive(c: Config, R: set<Path>)
    ensures forall p | p in Frontier(c, R) :: LiveDir(c.tree, c.patterns, p) && InFrontier(c, R, p)
  {
    LiveDirsExactly(c.tree, c.patterns);
  }

  /** An overflowing set leaves out some live directory, so there are root directories. */
  lemma OverflowHasRoots(c: Config, R: set<Path>)
    requires ValidTree(c.tree) && |Frontier(c, R)| > CAPACITY
    ensures Roots(c) != [] && exists p :: p in Frontier(c, R)
  {
    assert Frontier(c, R) == {} ==> |Frontier(c, R)| == 0;
    var p :| p in Frontier(c, R);
    FrontierIsLive(c, R);
    SomeRoot(c, p);
  }

  /** If the frontier of what has been taken has all been offered, it is in the queue, and fits. */
  lemma FrontierFits(c: Config, s: State, R: set<Path>)
    requires Inv(c, s) && NoneDropped(s) && Taken(s) == R
    requires forall p | p in Frontier(c, R) :: p in s.places
    ensures |Frontier(c, R)| <= CAPACITY
  {
    forall p | p in Frontier(c, R) ensures p in Elems(s.queue) {
      assert InFrontier(c, R, p) && p !in Taken(s);
    }
    DistinctSize(s.queue);
    SubsetSize(Frontier(c, R), Elems(s.queue));
  }

  lemma DropGoesOn(c: Config, s: State, step: Step)
    requires ValidTree(c.tree) && c.workers > 0 && |Roots(c)| <= CAPACITY
    requires Reachable(c, s) && Enabled(c, s, step) && Drops(s, step)
    ensures MayDrop(c)
  {
    var w := step.w;
    var s', d := Next(c, s, step), s.workers[w].subs[s.workers[w].next];
    StepReachable(c, s, step);
    assert IsDropped(s', d);
    var end := CanReturn(c, s');
    assert IsDropped(end, d);
  }

  lemma StepShrinks(c: Config, s: State, step: Step)
    requires ValidTree(c.tree) && c.workers > 0 && Reachable(c, s) && Enabled(c, s, step)
    ensures Reachable(c, Next(c, s, step)) && Inv(c, s) && Inv(c, Next(c, s, step))
    ensures 0 <= Left(c, Next(c, s, step)) < Left(c, s)
  {
    StepReachable(c, s, step);
    ReachableInv(c, s);
    ReachableInv(c, Next(c, s, step));
    StepMakesProgress(c, s, step);
    LeftNonNegative(c, Next(c, s, step));
  }

  // --- one worker alone -------------------------------------------------------------------

  /** The first worker works alone and has taken nothing outside `R`. */
  ghost predicate Alone(c: Config, R: set<Path>, s: State) {
    && InOrder(c, true, s) && Taken(s) <= R
    && (s.main.Enqueuing? || (s.main.Spawning? && s.main.next == |s.workers|))
    && forall w | 0 <= w < |s.workers| :: !s.workers[w].Exited?
  }

  ghost predicate NobodyActive(s: State) {
    forall w | 0 <= w < |s.workers| :: !Active(s.workers[w])
  }

  /** What the single worker takes next is in `R`: otherwise all of `R` is done and its frontier queued. */
  lemma NextTakenInside(c: Config, R: set<Path>, s: State)
    requires ValidTree(c.tree) && Inv(c, s) && InOrder(c, true, s) && Taken(s) <= R && !s.main.Enqueuing?
    requires Takeable(c, true, R) && |Frontier(c, R)| > CAPACITY
    requires NobodyActive(s)
    ensures s.queue != [] && s.queue[0] in R
  {
    MoreQueued(c, R, s);
    if s.queue[0] !in R {
      forall d | d in R ensures d in Taken(s) {
        PrecedesFrontTaken(c, s, R, d);
      }
      assert Taken(s) == R;
      forall p | p in Frontier(c, R) ensures p in s.places {
        AloneOffered(c, R, s, p);
      }
      FrontierFits(c, s, R);
    }
  }

  lemma PrecedesFrontTaken(c: Config, s: State, R: set<Path>, d: Path)
    requires ValidTree(c.tree) && Inv(c, s) && InOrder(c, true, s) && s.queue != []
    requires Takeable(c, true, R) && s.queue[0] !in R && d in R
    ensures d in Taken(s)
  {
    var f := s.queue[0];
    assert f in s.queue;
    DiscoveredIsLive(c, s, f);
    InsideIsBefore(c, R, d, f);
    BeforeFrontTaken(c, s, d);
  }

  lemma InsideIsBefore(c: Config, R: set<Path>, d: Path, f: Path)
    requires ValidTree(c.tree) && Takeable(c, true, R) && d in R && f !in R && LiveDir(c.tree, c.patterns, f)
    ensures LiveDir(c.tree, c.patterns, d) && Precedes(c, true, d, f)
  {
    BreadthFirstTotal(c, d, f);
    assert Precedes(c, true, f, d) ==> f in R;
  }

  lemma BeforeFrontTaken(c: Config, s: State, d: Path)
    requires PlacesOk(s.queue, s.workers, s.places) && InOrder(c, true, s) && s.queue != []
    requires LiveDir(c.tree, c.patterns, d) && Precedes(c, true, d, s.queue[0])
    ensures d in Taken(s)
  {
    assert s.queue[0] in s.queue && Kept(s, s.queue[0]);
    assert d in s.places && Behind(s.queue, d, s.queue[0]);
    FrontNotBehind(s.queue, d);
  }

  lemma FrontNotBehind(queue: seq<Path>, d: Path)
    requires Distinct(queue) && queue != [] && Behind(queue, d, queue[0])
    ensures d !in queue
  {
    assert forall k | 0 < k < |queue| :: queue[k] != queue[0];
  }

  lemma AloneOffered(c: Config, R: set<Path>, s: State, p: Path)
    requires ValidTree(c.tree) && Inv(c, s) && !s.main.Enqueuing? && Taken(s) == R && p in Frontier(c, R)
    requires NobodyActive(s)
    ensures p in s.places
  {
    FrontierIsLive(c, R);
    LiveIsKid(c, p);
    assert Offered(c, s, p) <==> p in s.places;
    if |p| > 1 {
      HeldAt(s, ParentOf(p));
    } else {
      assert ParentOf(p) == [];
    }
  }

  /** A step of the run in which the first worker works alone; it can always go on. */
  lemma AloneStep(c: Config, R: set<Path>, s: State) returns (step: Step)
    requires ValidTree(c.tree) && c.workers > 0 && |Roots(c)| <= CAPACITY && Inv(c, s) && Alone(c, R, s)
    requires Takeable(c, true, R) && |Frontier(c, R)| > CAPACITY
    ensures Enabled(c, s, step) && !step.Exit? && !step.StopSpawning? && !step.Return?
    ensures step.Spawn? ==> s.workers == []
    ensures step.Receive? ==> s.queue[0] in R
  {
    if s.main.Enqueuing? {
      step := if s.main.next < |Roots(c)| then Enqueue else StartSpawning;
    } else if s.workers == [] {
      step := Spawn;
    } else {
      step := AloneWorkerStep(c, R, s);
    }
  }

  lemma AloneWorkerStep(c: Config, R: set<Path>, s: State) returns (step: Step)
    requires ValidTree(c.tree) && Inv(c, s) && Alone(c, R, s) && !s.main.Enqueuing? && s.workers != []
    requires Takeable(c, true, R) && |Frontier(c, R)| > CAPACITY
    ensures Enabled(c, s, step) && !step.Exit? && !step.StopSpawning? && !step.Return? && !step.Spawn?
    ensures step.Receive? ==> s.queue[0] in R
  {
    if s.workers[0].Idle? {
      step := Receive(0);
      LoneIdle(s);
      NextTakenInside(c, R, s);
    } else {
      step := WorkerStep(c, s, 0);
    }
  }

  lemma LoneIdle(s: State)
    requires |s.workers| == 1 && s.workers[0].Idle?
    ensures NobodyActive(s)
  {
  }

  /** What a worker that has not exited does next, taking a directory if it is idle. */
  lemma WorkerStep(c: Config, s: State, w: nat) returns (step: Step)
    requires WorkersOk(c, s.workers) && w < |s.workers| && !s.workers[w].Exited?
    ensures s.workers[w].Idle? ==> step == Receive(w)
    ensures !s.workers[w].Idle? ==> Enabled(c, s, step) && !step.Receive? && !step.Exit? && !step.Spawn?
    ensures !step.StopSpawning? && !step.Return? && !step.Spawn? && !step.Exit?
    ensures s.workers[w].Walking? ==> !step.Push? && !step.EndPush?
  {
    assert WorkerOk(c, s.workers[w]);
    match s.workers[w]
    case Idle => step := Receive(w);
    case Walking(dir, next, _, counting) =>
      step := if counting then CountFile(w) else if next < |Listing(c.tree, dir)| then Entry(w) else EndWalk(w);
    case Pushing(_, subs, next) =>
      step := if next < |subs| then Push(w) else EndPush(w);
  }

  lemma MoreQueued(c: Config, R: set<Path>, s: State)
    requires ValidTree(c.tree) && Inv(c, s) && NoneDropped(s) && Taken(s) <= R && !s.main.Enqueuing?
    requires |Frontier(c, R)| > CAPACITY
    requires NobodyActive(s)
    ensures s.queue != []
  {
    if s.queue == [] {
      OverflowHasRoots(c, R);
      var p :| p in Frontier(c, R);
      FrontierIsLive(c, R);
      AllTaken(c, s, p);
    }
  }

  lemma AloneGoesOn(c: Config, R: set<Path>, s: State, step: Step)
    requires ValidTree(c.tree) && Inv(c, s) && Alone(c, R, s) && Enabled(c, s, step) && !Drops(s, step)
    requires !step.Exit? && !step.StopSpawning? && !step.Return? && (step.Spawn? ==> s.workers == [])
    requires step.Receive? ==> s.queue[0] in R
    ensures Alone(c, R, Next(c, s, step))
  {
    InOrderStep(c, true, s, step);
  }

  lemma {:induction false} AloneDrops(c: Config, R: set<Path>, s: State)
    requires ValidTree(c.tree) && c.workers > 0 && |Roots(c)| <= CAPACITY
    requires Reachable(c, s) && Alone(c, R, s)
    requires Takeable(c, true, R) && |Frontier(c, R)| > CAPACITY
    ensures MayDrop(c)
    decreases Left(c, s)
  {
    ReachableInv(c, s);
    var step := AloneStep(c, R, s);
    if Drops(s, step) {
      DropGoesOn(c, s, step);
    } else {
      StepShrinks(c, s, step);
      AloneGoesOn(c, R, s, step);
      LeftNonNegative(c, s);
      AloneDrops(c, R, Next(c, s, step));
    }
  }

  /** With any number of workers, a breadth-first overflow makes some interleaving drop a directory. */
  lemma BreadthFirstOverflowDrops(c: Config)
    requires ValidTree(c.tree) && c.workers > 0 && |Roots(c)| <= CAPACITY && Overflows(c, true)
    ensures MayDrop(c)
  {
    var R :| Takeable(c, true, R) && |Frontier(c, R)| > CAPACITY;
    OverflowHasRoots(c, R);
    StartReachable(c);
    StartInOrder(c, true);
    AloneDrops(c, R, Start(c));
  }
}
