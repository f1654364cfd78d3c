/**
 With enough workers, what is crowded out can be dropped: each directory that must have been taken
 is held by a worker of its own, then all that comes before is offered until the queue is full.
 */
module ScanCrowding {
  import opened Order
  import opened ScanTree
  import opened ScanPool
  import opened ScanPoolSteps
  import opened ScanPoolTheorems
  import opened ScanPoolProgress
  import opened ScanFrontier
  import opened ScanOverflow
  import opened ScanDrops

  /** Every worker that takes a directory of `R` keeps it, and nothing else has been taken. */
  ghost predicate Holding(c: Config, R: set<Path>, s: State) {
    && (NoneDropped(s) || |s.queue| == CAPACITY) && Taken(s) <= R && (forall d | d in s.places :: s.places[d] != Walked)
    && s.main == Spawning(c.workers) && |s.workers| == c.workers >= |R|
    && forall w | 0 <= w < |s.workers| :: !s.workers[w].Exited?
  }

  /** So far only subdirectories in `R` have been offered, and what is in `R` is in front. */
  ghost predicate Gathering(R: set<Path>, s: State) {
    && NoneDropped(s)
    && (forall d | d in s.places && |d| > 1 :: d in R)
    && forall i, j | 0 <= i < j < |s.queue| && s.queue[j] in R :: s.queue[i] in R
  }

  ghost predicate NobodyWalks(s: State) {
    forall w | 0 <= w < |s.workers| :: !s.workers[w].Walking?
  }

  /** Some directory of `R` not taken yet is in the root or in a taken one. */
  lemma {:induction false} NextInside(c: Config, R: set<Path>, s: State, d: Path) returns (e: Path)
    requires Takeable(c, false, R) && d in R && d !in Taken(s)
    ensures e in R && e !in Taken(s) && e != [] && (|e| == 1 || ParentOf(e) in Taken(s))
    decreases |d|
  {
    assert LiveDir(c.tree, c.patterns, d);
    if |d| == 1 || ParentOf(d) in Taken(s) {
      e := d;
    } else {
      e := NextInside(c, R, s, ParentOf(d));
    }
  }

  /** If each holder has offered its subdirectories in `R`, those are discovered. */
  lemma InsideOffered(c: Config, R: set<Path>, s: State, e: Path)
    requires ValidTree(c.tree) && Inv(c, s) && Holding(c, R, s) && Takeable(c, false, R) && NobodyWalks(s)
    requires e in R && e != [] && (|e| == 1 || ParentOf(e) in Taken(s))
    requires forall w: nat :: !OffersInside(R, s, w)
    ensures e in s.places
  {
    LiveIsKid(c, e);
    assert Offered(c, s, e) <==> e in s.places;
    if |e| == 1 {
      assert ParentOf(e) == [];
    } else {
      var q := ParentOf(e);
      HeldAt(s, q);
      var w := s.places[q].worker;
      assert WorkerOk(c, s.workers[w]) && !OffersInside(R, s, w);
      PlacesNonEmpty(c, s, q);
      var j :| 0 <= j < |s.workers[w].subs| && s.workers[w].subs[j] == e;
      if j >= s.workers[w].next {
        EarlierInside(c, R, e, s.workers[w].next, j);
      }
      assert s.workers[w].subs[..s.workers[w].next][j] == e;
    }
  }

  lemma EarlierInside(c: Config, R: set<Path>, e: Path, i: nat, j: nat)
    requires ValidTree(c.tree) && Takeable(c, false, R) && e in R && |e| > 1 && i <= j && KidAt(c, e, j)
    ensures Kids(c, ParentOf(e))[i] in R
  {
    var d := Kids(c, ParentOf(e))[i];
    assert d in Kids(c, ParentOf(e));
    SubDirsFacts(c, ParentOf(e));
    LiveIsKid(c, e);
    LiveIsKid(c, d);
    if i < j {
      assert KidAt(c, d, i);
      assert EarlierKid(c, d, e) && Precedes(c, false, d, e);
    }
  }

  /** While something of `R` is missing, some worker holds nothing. */
  lemma SomeoneIdle(c: Config, R: set<Path>, s: State) returns (w: nat)
    requires Inv(c, s) && Holding(c, R, s) && Taken(s) != R
    ensures w < |s.workers| && s.workers[w].Idle?
  {
    if forall v | 0 <= v < |s.workers| :: Active(s.workers[v]) {
      var dirs := seq(|s.workers|, v requires 0 <= v < |s.workers| => s.workers[v].dir);
      forall i, j | 0 <= i < j < |dirs| ensures dirs[i] != dirs[j] {
        assert s.places[dirs[i]] == With(i) && s.places[dirs[j]] == With(j);
      }
      forall d | d in Elems(dirs) ensures d in Taken(s) {
        var v :| 0 <= v < |dirs| && dirs[v] == d;
        assert s.places[dirs[v]] == With(v);
      }
      DistinctSize(dirs);
      SubsetSize(Elems(dirs), Taken(s));
      SubsetSize(Taken(s), R);
    }
    w :| 0 <= w < |s.workers| && !Active(s.workers[w]);
  }

  predicate OffersInside(R: set<Path>, s: State, w: nat) {
    Offering(s, w) && s.workers[w].subs[s.workers[w].next] in R
  }

  /** The next step towards all of `R` being taken: what can be taken is taken first. */
  lemma GatherStep(c: Config, R: set<Path>, s: State) returns (step: Step)
    requires ValidTree(c.tree) && Inv(c, s) && Holding(c, R, s) && Gathering(R, s)
    requires Takeable(c, false, R) && Taken(s) != R
    ensures Enabled(c, s, step) && (step.Receive? || step.Push? || step.Entry? || step.CountFile? || step.EndWalk?)
    ensures step.Receive? ==> s.queue[0] in R
    ensures step.Push? ==> OffersInside(R, s, step.w) && (s.queue == [] || s.queue[0] !in R)
  {
    if s.queue != [] && s.queue[0] in R {
      var w := SomeoneIdle(c, R, s);
      step := Receive(w);
    } else if w :| 0 <= w < |s.workers| && s.workers[w].Walking? {
      step := WorkerStep(c, s, w);
    } else if w :| 0 <= w < |s.workers| && OffersInside(R, s, w) {
      step := Push(w);
    } else {
      FrontInside(c, R, s);
      step := Return;
    }
  }

  lemma FrontInside(c: Config, R: set<Path>, s: State)
    requires ValidTree(c.tree) && Inv(c, s) && Holding(c, R, s) && Gathering(R, s) && NobodyWalks(s)
    requires Takeable(c, false, R) && Taken(s) != R && forall w: nat :: !OffersInside(R, s, w)
    ensures s.queue != [] && s.queue[0] in R
  {
    var d := SomeMissing(R, Taken(s));
    var e := NextInside(c, R, s, d);
    InsideOffered(c, R, s, e);
    assert e in s.queue;
    InsideIsFirst(R, s, e);
  }

  lemma SomeMissing(R: set<Path>, taken: set<Path>) returns (d: Path)
    requires taken <= R && taken != R
    ensures d in R && d !in taken
  {
    assert taken + (R - taken) == R;
    d :| d in R - taken;
  }

  lemma InsideIsFirst(R: set<Path>, s: State, e: Path)
    requires Gathering(R, s) && e in s.queue && e in R
    ensures s.queue != [] && s.queue[0] in R
  {
    var j :| 0 <= j < |s.queue| && s.queue[j] == e;
    assert j > 0 ==> s.queue[0] in R;
  }

  /** Offering a directory of `R` means all that was offered before is in `R` too. */
  lemma AllInside(c: Config, R: set<Path>, s: State, w: nat)
    requires ValidTree(c.tree) && Inv(c, s) && Gathering(R, s) && Takeable(c, false, R)
    requires Enabled(c, s, Push(w)) && OffersInside(R, s, w)
    ensures forall d | d in s.places :: d in R
  {
    var e := s.workers[w].subs[s.workers[w].next];
    SubPosition(c, s, w);
    forall d | d in s.places ensures d in R {
      DiscoveredIsLive(c, s, d);
      if |d| == 1 { assert Before(c, d, e) && Precedes(c, false, d, e); }
    }
  }

  /** So the queue is empty, and there is room. */
  lemma GatherPush(c: Config, R: set<Path>, s: State, w: nat)
    requires ValidTree(c.tree) && Inv(c, s) && Holding(c, R, s) && Gathering(R, s) && Takeable(c, false, R)
    requires Enabled(c, s, Push(w)) && OffersInside(R, s, w) && (s.queue == [] || s.queue[0] !in R)
    ensures Holding(c, R, Next(c, s, Push(w))) && Gathering(R, Next(c, s, Push(w)))
  {
    AllInside(c, R, s, w);
    FrontDiscovered(s);
    NextSubIsNew(c, s, w);
    PushStaysHolding(c, R, s, w);
  }

  lemma FrontDiscovered(s: State)
    requires PlacesOk(s.queue, s.workers, s.places)
    ensures s.queue != [] ==> s.queue[0] in s.places
  {
    if s.queue != [] { assert s.queue[0] in s.queue; }
  }

  lemma PushStaysHolding(c: Config, R: set<Path>, s: State, w: nat)
    requires Holding(c, R, s) && Enabled(c, s, Push(w)) && |s.queue| <= CAPACITY
    requires s.workers[w].subs[s.workers[w].next] !in s.places
    ensures var s' := Next(c, s, Push(w));
            && Holding(c, R, s') && Taken(s') == Taken(s)
            && s'.places.Keys == s.places.Keys + {s.workers[w].subs[s.workers[w].next]}
  {
  }

  lemma GatherReceive(c: Config, R: set<Path>, s: State, w: nat)
    requires Inv(c, s) && Holding(c, R, s) && Gathering(R, s)
    requires Enabled(c, s, Receive(w)) && s.queue[0] in R
    ensures Holding(c, R, Next(c, s, Receive(w))) && Gathering(R, Next(c, s, Receive(w)))
  {
    assert s.queue[0] in s.queue;
  }

  lemma WalkStaysHolding(c: Config, R: set<Path>, s: State, step: Step)
    requires Holding(c, R, s) && Enabled(c, s, step) && (step.Entry? || step.CountFile? || step.EndWalk?)
    ensures var s' := Next(c, s, step);
            && Holding(c, R, s') && Taken(s') == Taken(s) && s'.queue == s.queue && s'.places == s.places
  {
  }

  lemma GatherGoesOn(c: Config, R: set<Path>, s: State, step: Step)
    requires ValidTree(c.tree) && Inv(c, s) && Holding(c, R, s) && Gathering(R, s) && Takeable(c, false, R)
    requires Enabled(c, s, step)
    requires step.Receive? || step.Push? || step.Entry? || step.CountFile? || step.EndWalk?
    requires step.Receive? ==> s.queue[0] in R
    requires step.Push? ==> OffersInside(R, s, step.w) && (s.queue == [] || s.queue[0] !in R)
    ensures Holding(c, R, Next(c, s, step)) && Gathering(R, Next(c, s, step))
  {
    match step
    case Push(w) => GatherPush(c, R, s, w);
    case Receive(w) => GatherReceive(c, R, s, w);
    case _ => WalkStaysHolding(c, R, s, step);
  }

  lemma {:induction false} CanGather(c: Config, R: set<Path>, s: State) returns (end: State)
    requires ValidTree(c.tree) && c.workers > 0 && |Roots(c)| <= CAPACITY && Reachable(c, s)
    requires Holding(c, R, s) && Gathering(R, s) && Takeable(c, false, R)
    ensures Reachable(c, end) && Holding(c, R, end) && Gathering(R, end) && Taken(end) == R
    decreases Left(c, s)
  {
    ReachableInv(c, s);
    if Taken(s) == R {
      end := s;
    } else {
      var step := GatherStep(c, R, s);
      StepShrinks(c, s, step);
      LeftNonNegative(c, s);
      GatherGoesOn(c, R, s, step);
      end := CanGather(c, R, Next(c, s, step));
    }
  }

  // --- all but `d` and its later siblings are offered, and then `d` -----------------------

  predicate Offering(s: State, w: nat) {
    w < |s.workers| && s.workers[w].Pushing? && s.workers[w].next < |s.workers[w].subs|
  }

  /** The worker offers `d` next. */
  predicate IsAt(s: State, w: nat, d: Path) {
    Offering(s, w) && s.workers[w].subs[s.workers[w].next] == d
  }

  /** No worker that holds a directory of `R` can go on but by offering `d`. */
  ghost predicate AllElseOffered(s: State, d: Path) {
    && NobodyWalks(s)
    && forall w | Offering(s, w) :: IsAt(s, w, d)
  }

  lemma FillStep(c: Config, R: set<Path>, s: State, d: Path) returns (step: Step)
    requires Inv(c, s) && Holding(c, R, s) && !AllElseOffered(s, d)
    ensures Enabled(c, s, step) && (step.Push? || step.Entry? || step.CountFile? || step.EndWalk?)
    ensures step.Push? ==> !IsAt(s, step.w, d)
  {
    if w :| 0 <= w < |s.workers| && s.workers[w].Walking? {
      step := WorkerStep(c, s, w);
    } else {
      var w :| Offering(s, w) && !IsAt(s, w, d);
      step := Push(w);
    }
  }

  lemma FillGoesOn(c: Config, R: set<Path>, s: State, d: Path, step: Step)
    requires ValidTree(c.tree) && Inv(c, s) && Holding(c, R, s) && Taken(s) == R && d !in s.places
    requires Enabled(c, s, step) && (step.Push? || step.Entry? || step.CountFile? || step.EndWalk?)
    requires step.Push? ==> !IsAt(s, step.w, d)
    ensures Holding(c, R, Next(c, s, step)) && Taken(Next(c, s, step)) == R && d !in Next(c, s, step).places
  {
    if step.Push? {
      NextSubIsNew(c, s, step.w);
      PushStaysHolding(c, R, s, step.w);
    } else {
      WalkStaysHolding(c, R, s, step);
    }
  }

  lemma {:induction false} CanFill(c: Config, R: set<Path>, s: State, d: Path) returns (end: State)
    requires ValidTree(c.tree) && c.workers > 0 && |Roots(c)| <= CAPACITY && Reachable(c, s)
    requires Holding(c, R, s) && Taken(s) == R && d !in s.places
    ensures Reachable(c, end) && Holding(c, R, end) && Taken(end) == R && d !in end.places && AllElseOffered(end, d)
    decreases Left(c, s)
  {
    ReachableInv(c, s);
    if AllElseOffered(s, d) {
      end := s;
    } else {
      var step := FillStep(c, R, s, d);
      StepShrinks(c, s, step);
      LeftNonNegative(c, s);
      FillGoesOn(c, R, s, d, step);
      end := CanFill(c, R, Next(c, s, step), d);
    }
  }

  /** Who holds the parent of a nested directory of the frontier. */
  lemma ParentHolder(c: Config, R: set<Path>, s: State, p: Path) returns (w: nat, j: nat)
    requires ValidTree(c.tree) && Inv(c, s) && Holding(c, R, s) && Taken(s) == R && NobodyWalks(s)
    requires p in Frontier(c, R) && |p| > 1
    ensures w < |s.workers| && s.workers[w].Pushing? && s.workers[w].dir == ParentOf(p)
    ensures s.workers[w].subs == Kids(c, ParentOf(p)) && KidAt(c, p, j)
    ensures p in s.places <==> j < s.workers[w].next
  {
    FrontierIsLive(c, R);
    LiveIsKid(c, p);
    var q := ParentOf(p);
    HeldAt(s, q);
    w := s.places[q].worker;
    assert WorkerOk(c, s.workers[w]);
    PlacesNonEmpty(c, s, q);
    j :| 0 <= j < |Kids(c, q)| && Kids(c, q)[j] == p;
    OfferedUpTo(c, s, w, p, j);
  }

  lemma OfferedUpTo(c: Config, s: State, w: nat, p: Path, j: nat)
    requires ValidTree(c.tree) && Inv(c, s) && w < |s.workers| && s.workers[w].Pushing? && |p| > 1
    requires s.workers[w].dir == ParentOf(p) && s.workers[w].subs == Kids(c, ParentOf(p)) && KidAt(c, p, j)
    ensures p in s.places <==> j < s.workers[w].next
  {
    assert WorkerOk(c, s.workers[w]);
    KidsDistinct(c, ParentOf(p));
    assert Offered(c, s, p) <==> p in s.places;
    assert p in s.workers[w].subs[..s.workers[w].next] <==> j < s.workers[w].next by {
      if j < s.workers[w].next { assert s.workers[w].subs[..s.workers[w].next][j] == p; }
    }
  }

  /** Everything but `d` and its later siblings has been offered. */
  lemma AllButLaterOffered(c: Config, R: set<Path>, s: State, d: Path, p: Path)
    requires ValidTree(c.tree) && Inv(c, s) && Holding(c, R, s) && Taken(s) == R && AllElseOffered(s, d)
    requires d in Frontier(c, R) && |d| > 1 && p in Frontier(c, R) && p != d && !EarlierKid(c, d, p)
    ensures p in s.places
  {
    FrontierIsLive(c, R);
    if |p| == 1 {
      RootDiscovered(c, s, p);
    } else {
      var w, j := ParentHolder(c, R, s, p);
      if j >= s.workers[w].next {
        assert IsAt(s, w, d);
        SubPosition(c, s, w);
        SameOrLater(c, d, p, s.workers[w].next, j);
      }
    }
  }

  lemma RootDiscovered(c: Config, s: State, p: Path)
    requires ValidTree(c.tree) && DirsOk(c, s) && !s.main.Enqueuing? && LiveDir(c.tree, c.patterns, p) && |p| == 1
    ensures p in s.places
  {
    LiveIsKid(c, p);
    assert ParentOf(p) == [];
    assert Offered(c, s, p) <==> p in s.places;
  }

  lemma SameOrLater(c: Config, d: Path, p: Path, i: nat, j: nat)
    requires d != [] && p != [] && ParentOf(d) == ParentOf(p) && KidAt(c, d, i) && KidAt(c, p, j) && i <= j
    ensures d == p || EarlierKid(c, d, p)
  {
    if i < j { EarlierAt(c, d, p, i, j); }
  }

  /** So the queue is full, and `d` is dropped. */
  lemma NowFull(c: Config, R: set<Path>, s: State, d: Path) returns (w: nat)
    requires ValidTree(c.tree) && Inv(c, s) && Holding(c, R, s) && Taken(s) == R && AllElseOffered(s, d)
    requires CrowdedOut(c, R, d) && d !in s.places
    ensures Enabled(c, s, Push(w)) && IsDropped(Next(c, s, Push(w)), d)
  {
    var j;
    w, j := ParentHolder(c, R, s, d);
    assert IsAt(s, w, d);
    if |s.queue| < CAPACITY {
      AllQueued(c, R, s, d);
      FewerThan(s.queue, Frontier(c, R) - Later(c, d), d);
    }
  }

  lemma AllQueued(c: Config, R: set<Path>, s: State, d: Path)
    requires ValidTree(c.tree) && Inv(c, s) && Holding(c, R, s) && Taken(s) == R && AllElseOffered(s, d)
    requires d in Frontier(c, R) && |d| > 1 && |s.queue| < CAPACITY
    ensures Frontier(c, R) - Later(c, d) - {d} <= Elems(s.queue)
  {
    FrontierIsLive(c, R);
    LiveDirsExactly(c.tree, c.patterns);
    forall p | p in Frontier(c, R) - Later(c, d) - {d} ensures p in Elems(s.queue) {
      AllButLaterOffered(c, R, s, d, p);
      assert p in s.places && p !in Taken(s);
    }
  }

  lemma FewerThan(queue: seq<Path>, F: set<Path>, d: Path)
    requires Distinct(queue) && F - {d} <= Elems(queue)
    ensures |F| <= |queue| + 1
  {
    DistinctSize(queue);
    SubsetSize(F - {d}, Elems(queue));
    SubsetSize(F, F - {d} + {d});
  }

  /** All workers started, nothing taken yet. */
  lemma {:induction false} CanSpawn(c: Config, k: nat) returns (s: State)
    requires ValidTree(c.tree) && c.workers > 0 && 0 < |Roots(c)| <= CAPACITY && k <= c.workers
    ensures Reachable(c, s) && s.main == Spawning(k) && s.queue == Roots(c) && |s.workers| == k
    ensures forall w | 0 <= w < k :: s.workers[w] == Idle
    ensures forall p | p in s.places :: s.places[p] == Queued
  {
    if k == 0 {
      var r := CanEnqueue(c, |Roots(c)|);
      ReachableInv(c, r);
      StepReachable(c, r, StartSpawning);
      s := Next(c, r, StartSpawning);
      assert Roots(c)[..|Roots(c)|] == Roots(c);
    } else {
      var r := CanSpawn(c, k - 1);
      StepReachable(c, r, Spawn);
      s := Next(c, r, Spawn);
    }
  }

  lemma StartGathering(c: Config, R: set<Path>, s: State)
    requires ValidTree(c.tree) && Inv(c, s) && s.queue == Roots(c) && Takeable(c, false, R)
    requires forall p | p in s.places :: s.places[p] == Queued
    ensures Gathering(R, s) && Taken(s) == {}
  {
    RootsFacts(c);
    forall i, j | 0 <= i < j < |s.queue| && s.queue[j] in R ensures s.queue[i] in R {
      var e, d := s.queue[i], s.queue[j];
      assert e in Roots(c) && d in Roots(c) && ParentOf(e) == [] && ParentOf(d) == [];
      LiveIsKid(c, e);
      assert KidAt(c, e, i) && KidAt(c, d, j);
      assert EarlierKid(c, e, d) && Precedes(c, false, e, d);
    }
  }

  /** With enough workers some interleaving drops just this directory, among others. */
  lemma CrowdedOutDrops(c: Config, R: set<Path>, d: Path) returns (end: State)
    requires ValidTree(c.tree) && c.workers > 0 && |Roots(c)| <= CAPACITY && |R| <= c.workers
    requires CrowdedOut(c, R, d)
    ensures Reachable(c, end) && end.main == Returned && IsDropped(end, d)
  {
    FrontierIsLive(c, R);
    SomeRoot(c, d);
    var s := CanSpawn(c, c.workers);
    ReachableInv(c, s);
    StartGathering(c, R, s);
    s := CanGather(c, R, s);
    ReachableInv(c, s);
    assert d !in s.places;
    s := CanFill(c, R, s, d);
    ReachableInv(c, s);
    var w := NowFull(c, R, s, d);
    StepReachable(c, s, Push(w));
    end := CanReturn(c, Next(c, s, Push(w)));
  }

  /** Wherever more than 64 directories can be waiting, the last of some siblings is crowded out. */
  lemma OverflowCrowdsOut(c: Config, R: set<Path>) returns (d: Path)
    requires ValidTree(c.tree) && |Roots(c)| <= CAPACITY
    requires Takeable(c, false, R) && |Frontier(c, R)| > CAPACITY
    ensures CrowdedOut(c, R, d)
  {
    var p := SomeNested(c, R);
    d := LastSibling(c, p);
    LaterIsOutside(c, R, p, d);
    StillMany(Frontier(c, R), Later(c, d));
  }

  lemma StillMany(F: set<Path>, none: set<Path>)
    requires |F| > CAPACITY && none == {}
    ensures |F - none| > CAPACITY
  {
    assert F - none == F;
  }

  lemma LastSibling(c: Config, p: Path) returns (d: Path)
    requires ValidTree(c.tree) && LiveDir(c.tree, c.patterns, p) && |p| > 1
    ensures LiveDir(c.tree, c.patterns, d) && |d| == |p| && ParentOf(d) == ParentOf(p)
    ensures d == p || EarlierKid(c, p, d)
    ensures Later(c, d) == {}
  {
    var kids := Kids(c, ParentOf(p));
    LiveIsKid(c, p);
    SubDirsFacts(c, ParentOf(p));
    KidsDistinct(c, ParentOf(p));
    d := kids[|kids| - 1];
    assert d in kids;
    SameDepth(d, p);
    LiveIsKid(c, d);
    var i :| 0 <= i < |kids| && kids[i] == p;
    SameOrLater(c, p, d, i, |kids| - 1);
  }

  lemma SomeNested(c: Config, R: set<Path>) returns (p: Path)
    requires ValidTree(c.tree) && |Roots(c)| <= CAPACITY && |Frontier(c, R)| > CAPACITY
    ensures p in Frontier(c, R) && |p| > 1 && LiveDir(c.tree, c.patterns, p)
  {
    FrontierIsLive(c, R);
    if forall x | x in Frontier(c, R) :: |x| == 1 {
      forall x | x in Frontier(c, R) ensures x in Elems(Roots(c)) {
        LiveIsKid(c, x);
        assert ParentOf(x) == [];
      }
      RootsFacts(c);
      DistinctSize(Roots(c));
      SubsetSize(Frontier(c, R), Elems(Roots(c)));
    }
    p :| p in Frontier(c, R) && |p| != 1;
    LiveIsKid(c, p);
  }

  lemma LaterIsOutside(c: Config, R: set<Path>, p: Path, d: Path)
    requires ValidTree(c.tree) && Takeable(c, false, R) && p in Frontier(c, R) && LiveDir(c.tree, c.patterns, d)
    requires d == p || EarlierKid(c, p, d)
    ensures d in Frontier(c, R)
  {
    FrontierIsLive(c, R);
    if d in R {
      assert Precedes(c, false, p, d);
    }
    LiveDirsExactly(c.tree, c.patterns);
    assert d != p ==> ParentOf(d) == ParentOf(p);
    if d != p { SameDepth(d, p); }
    assert InFrontier(c, R, d);
  }
}
