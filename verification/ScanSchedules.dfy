/**
 In which orders a given number of workers can take directories, and that an order whose frontier
 does not fit the queue lets them drop one.
 */
module ScanSchedules {
  import opened Order
  import opened ScanTree
  import opened ScanPool
  import opened ScanPoolSteps
  import opened ScanPoolTheorems
  import opened ScanPoolProgress
  import opened ScanFrontier
  import opened ScanOverflow
  import opened ScanCrowding

  /** Live directories, each after its parent and after all that every interleaving takes before it. */
  ghost predicate TakeOrder(c: Config, o: seq<Path>) {
    Distinct(o) && forall i | 0 <= i < |o| :: InTurn(c, o, i)
  }

  ghost predicate InTurn(c: Config, o: seq<Path>, i: nat)
    requires i < |o|
  {
    && LiveDir(c.tree, c.patterns, o[i]) && (|o[i]| > 1 ==> ParentOf(o[i]) in o[..i])
    && forall e | LiveDir(c.tree, c.patterns, e) && Before(c, e, o[i]) :: e in o[..i]
  }

  /** Once the first `m` are taken, entry `j` can be offered. */
  predicate Offerable(o: seq<Path>, m: nat, j: nat)
    requires m <= |o| && j < |o|
  {
    |o[j]| == 1 || (o[j] != [] && ParentOf(o[j]) in o[..m])
  }

  /** The first `n` of the order are what can be offered in order once the first `m` are taken. */
  ghost predicate OfferedPrefix(o: seq<Path>, m: nat, n: nat) {
    m <= n < |o| && (forall j | 0 <= j < n :: Offerable(o, m, j)) && !Offerable(o, m, n)
  }

  /** Of the first `m`, those that keep a subdirectory outside the first `n`: their workers have to wait. */
  ghost function HeldUp(c: Config, o: seq<Path>, m: nat, n: nat): set<Path>
    requires m <= |o| && n <= |o|
  {
    set p | p in Elems(o[..m]) && KeepsOutside(c, p, o[..n])
  }

  ghost predicate KeepsOutside(c: Config, p: Path, some: seq<Path>) {
    exists k :: k in Kids(c, p) && k !in some
  }

  /** While others wait, some worker is free to take the next directory. */
  ghost predicate EnoughWorkers(c: Config, o: seq<Path>) {
    forall m, n | OfferedPrefix(o, m, n) :: |HeldUp(c, o, m, n)| < c.workers
  }

  /** The workers can take these directories in this order, and then there is more than the queue holds. */
  ghost predicate OverflowingOrder(c: Config, o: seq<Path>) {
    TakeOrder(c, o) && EnoughWorkers(c, o) && |Frontier(c, Elems(o))| > CAPACITY
  }

  // --- orders -----------------------------------------------------------------------------

  /** The next directory of an order can be offered. */
  lemma NextOfferable(c: Config, o: seq<Path>, m: nat)
    requires TakeOrder(c, o) && m < |o|
    ensures forall j | 0 <= j <= m :: Offerable(o, m, j)
  {
    forall j | 0 <= j <= m ensures Offerable(o, m, j) {
      assert InTurn(c, o, j);
      assert o[..m][..j] == o[..j];
      assert o[j] != [];
    }
  }

  /** An order starts with the root directories, as they are listed. */
  lemma {:induction false} RootsFirst(c: Config, o: seq<Path>, n: nat)
    requires ValidTree(c.tree) && TakeOrder(c, o) && n <= |o| && n <= |Roots(c)|
    ensures o[..n] == Roots(c)[..n]
  {
    if n > 0 {
      RootsFirst(c, o, n - 1);
      RootComesNext(c, o, n - 1);
      assert o[..n] == o[..n - 1] + [o[n - 1]] && Roots(c)[..n] == Roots(c)[..n - 1] + [Roots(c)[n - 1]];
    }
  }

  lemma RootComesNext(c: Config, o: seq<Path>, i: nat)
    requires ValidTree(c.tree) && TakeOrder(c, o) && i < |o| && i < |Roots(c)| && o[..i] == Roots(c)[..i]
    ensures o[i] == Roots(c)[i]
  {
    var d, r := o[i], Roots(c)[i];
    assert InTurn(c, o, i);
    RootsFacts(c);
    assert r in Roots(c) && ParentOf(r) == [];
    LiveIsKid(c, r);
    if d != r {
      assert r !in o[..i];
      assert |d| == 1 && !EarlierKid(c, r, d);
      RootAt(c, o, i, d, r);
    }
  }

  /** A root directory that is not yet in the order and has none before it outside is the next one. */
  lemma RootAt(c: Config, o: seq<Path>, i: nat, d: Path, r: Path)
    requires ValidTree(c.tree) && Distinct(o) && i < |o| && i < |Roots(c)| && o[..i] == Roots(c)[..i]
    requires d == o[i] && r == Roots(c)[i] && r != [] && ParentOf(r) == []
    requires LiveDir(c.tree, c.patterns, d) && |d| == 1 && !EarlierKid(c, r, d)
    ensures d == r
  {
    LiveIsKid(c, d);
    assert ParentOf(d) == [];
    var j :| 0 <= j < |Roots(c)| && Roots(c)[j] == d;
    if j > i { EarlierAt(c, r, d, i, j); }
  }

  // --- the run ----------------------------------------------------------------------------

  ghost predicate Comparable(a: seq<Path>, b: seq<Path>) {
    a <= b || b <= a
  }

  /** All workers are there, the first `m` directories of the order are taken, and the queue goes on in order. */
  ghost predicate OnTrack(c: Config, o: seq<Path>, s: State, m: nat) {
    && NoneDropped(s) && m <= |o| && Taken(s) == Elems(o[..m])
    && Comparable(o[..m] + s.queue, o)
    && s.main == Spawning(c.workers) && |s.workers| == c.workers
    && forall w | 0 <= w < |s.workers| :: !s.workers[w].Exited?
  }

  lemma StartOnTrack(c: Config, o: seq<Path>, s: State)
    requires ValidTree(c.tree) && TakeOrder(c, o) && s.queue == Roots(c)
    requires s.main == Spawning(c.workers) && |s.workers| == c.workers
    requires forall w | 0 <= w < |s.workers| :: s.workers[w] == Idle
    requires forall p | p in s.places :: s.places[p] == Queued
    ensures OnTrack(c, o, s, 0)
  {
    var n := if |o| < |Roots(c)| then |o| else |Roots(c)|;
    RootsFirst(c, o, n);
    assert o[..|o|] == o && Roots(c)[..|Roots(c)|] == Roots(c);
    assert o[..0] + s.queue == Roots(c);
  }

  /** Nothing is discovered but what was taken and what is in the queue. */
  lemma DiscoveredOnTrack(c: Config, o: seq<Path>, s: State, m: nat)
    requires Inv(c, s) && OnTrack(c, o, s, m)
    ensures forall d :: d in s.places <==> d in o[..m] + s.queue
  {
    forall d ensures d in s.places <==> d in o[..m] + s.queue {
      assert d in Elems(o[..m]) <==> d in o[..m];
    }
  }

  lemma QuietOnTrack(c: Config, o: seq<Path>, s: State, m: nat, step: Step)
    requires Inv(c, s) && OnTrack(c, o, s, m) && Enabled(c, s, step)
    requires step.Entry? || step.CountFile? || step.EndWalk? || step.EndPush?
    ensures OnTrack(c, o, Next(c, s, step), m)
  {
    var s' := Next(c, s, step);
    assert Taken(s') == Taken(s) by {
      if step.EndPush? { assert s.places[s.workers[step.w].dir] == With(step.w); }
    }
  }

  lemma PushOnTrack(c: Config, o: seq<Path>, s: State, m: nat, w: nat)
    requires ValidTree(c.tree) && Inv(c, s) && OnTrack(c, o, s, m) && Enabled(c, s, Push(w)) && !Drops(s, Push(w))
    requires Comparable(o[..m] + s.queue + [s.workers[w].subs[s.workers[w].next]], o)
    ensures OnTrack(c, o, Next(c, s, Push(w)), m)
  {
    var s', d := Next(c, s, Push(w)), s.workers[w].subs[s.workers[w].next];
    NextSubIsNew(c, s, w);
    assert o[..m] + s'.queue == o[..m] + s.queue + [d];
    assert Taken(s') == Taken(s);
  }

  lemma ReceiveOnTrack(c: Config, o: seq<Path>, s: State, m: nat, w: nat)
    requires Inv(c, s) && OnTrack(c, o, s, m) && m < |o| && Enabled(c, s, Receive(w)) && s.queue[0] == o[m]
    ensures OnTrack(c, o, Next(c, s, Receive(w)), m + 1)
  {
    var s' := Next(c, s, Receive(w));
    assert s.queue[0] in s.queue;
    assert o[..m + 1] == o[..m] + [o[m]];
    assert o[..m + 1] + s'.queue == o[..m] + s.queue;
    assert Taken(s') == Taken(s) + {o[m]};
  }

  lemma FrontIsNext(o: seq<Path>, m: nat, queue: seq<Path>)
    requires m < |o| && Comparable(o[..m] + queue, o) && queue != []
    ensures queue[0] == o[m]
  {
    assert (o[..m] + queue)[m] == queue[0];
  }

  // --- while not all of the order is discovered -------------------------------------------

  /** The next directory of the order can be offered: its parent's worker gets on. */
  lemma OfferNext(c: Config, o: seq<Path>, s: State, m: nat, x: nat) returns (step: Step)
    requires ValidTree(c.tree) && TakeOrder(c, o) && Inv(c, s) && OnTrack(c, o, s, m)
    requires x < |o| && o[..m] + s.queue == o[..x] && Offerable(o, m, x)
    ensures Enabled(c, s, step) && (step.Push? || step.Entry? || step.CountFile? || step.EndWalk?)
    ensures step.Push? ==> s.workers[step.w].subs[s.workers[step.w].next] == o[x]
  {
    var d := o[x];
    assert InTurn(c, o, x);
    DiscoveredOnTrack(c, o, s, m);
    assert d !in o[..x];
    LiveIsKid(c, d);
    if |d| == 1 { RootDiscovered(c, s, d); }
    var q := ParentOf(d);
    assert q in Elems(o[..m]);
    assert Offered(c, s, d) <==> d in s.places;
    PlacesNonEmpty(c, s, q);
    HeldAt(s, q);
    var w := s.places[q].worker;
    step := WorkerStep(c, s, w);
    if s.workers[w].Pushing? {
      var j :| 0 <= j < |Kids(c, q)| && Kids(c, q)[j] == d;
      step := Push(w);
      NextKidIs(c, o, s, m, x, w, j);
    }
  }

  lemma NextKidIs(c: Config, o: seq<Path>, s: State, m: nat, x: nat, w: nat, j: nat)
    requires ValidTree(c.tree) && TakeOrder(c, o) && Inv(c, s) && x < |o| && |o[x]| > 1
    requires forall d :: d in s.places <==> d in o[..x]
    requires w < |s.workers| && s.workers[w].Pushing? && s.workers[w].dir == ParentOf(o[x]) && s.workers[w].dir != []
    requires KidAt(c, o[x], j)
    ensures s.workers[w].next < |s.workers[w].subs| && s.workers[w].subs[s.workers[w].next] == o[x]
  {
    var n := s.workers[w].next;
    assert WorkerOk(c, s.workers[w]);
    OfferedUpTo(c, s, w, o[x], j);
    assert o[x] !in o[..x];
    if n < j {
      SubPosition(c, s, w);
      NextLive(c, s, w);
      NotSkipped(c, o, x, s.workers[w].subs[n], n, j);
    }
  }

  /** An earlier sibling of the next directory comes before it in the order. */
  lemma NotSkipped(c: Config, o: seq<Path>, x: nat, e: Path, n: nat, j: nat)
    requires TakeOrder(c, o) && x < |o| && |o[x]| > 1 && LiveDir(c.tree, c.patterns, e) && e != []
    requires ParentOf(e) == ParentOf(o[x]) && KidAt(c, e, n) && KidAt(c, o[x], j) && n < j
    ensures e in o[..x]
  {
    assert InTurn(c, o, x);
    EarlierAt(c, e, o[x], n, j);
    assert Before(c, e, o[x]);
  }

  lemma NextLive(c: Config, s: State, w: nat)
    requires ValidTree(c.tree) && Inv(c, s) && Enabled(c, s, Push(w))
    ensures LiveDir(c.tree, c.patterns, s.workers[w].subs[s.workers[w].next])
  {
    SubPosition(c, s, w);
    DiscoveredIsLive(c, s, s.workers[w].dir);
    LiveIsKid(c, s.workers[w].subs[s.workers[w].next]);
  }

  /** It cannot be offered yet: a worker that does not have to wait gets on, or takes the next directory. */
  lemma TakeNext(c: Config, o: seq<Path>, s: State, m: nat, x: nat) returns (step: Step)
    requires ValidTree(c.tree) && TakeOrder(c, o) && EnoughWorkers(c, o) && Inv(c, s) && OnTrack(c, o, s, m)
    requires x < |o| && o[..m] + s.queue == o[..x] && !Offerable(o, m, x)
    ensures Enabled(c, s, step) && m < |o| && s.queue != []
    ensures step.Receive? || step.Entry? || step.CountFile? || step.EndWalk? || step.EndPush?
  {
    NextOfferable(c, o, m);
    assert m < x;
    AllOfferable(c, o, s, m, x);
    assert OfferedPrefix(o, m, x);
    var w := SomeoneFree(c, o, s, m, x);
    if s.workers[w].Idle? {
      step := Receive(w);
    } else if s.workers[w].Pushing? {
      AllOffered(c, o, s, m, x, w);
      step := EndPush(w);
    } else {
      step := WorkerStep(c, s, w);
    }
  }

  /** If all subdirectories are discovered, they have been offered. */
  lemma AllOffered(c: Config, o: seq<Path>, s: State, m: nat, x: nat, w: nat)
    requires ValidTree(c.tree) && Inv(c, s) && OnTrack(c, o, s, m) && x < |o| && o[..m] + s.queue == o[..x]
    requires w < |s.workers| && s.workers[w].Pushing? && !KeepsOutside(c, s.workers[w].dir, o[..x])
    ensures s.workers[w].next == |s.workers[w].subs|
  {
    assert WorkerOk(c, s.workers[w]);
    if s.workers[w].next < |s.workers[w].subs| {
      NextIsOutside(c, o, s, m, x, w);
    }
  }

  lemma NextIsOutside(c: Config, o: seq<Path>, s: State, m: nat, x: nat, w: nat)
    requires ValidTree(c.tree) && Inv(c, s) && OnTrack(c, o, s, m) && x < |o| && o[..m] + s.queue == o[..x]
    requires Enabled(c, s, Push(w))
    ensures KeepsOutside(c, s.workers[w].dir, o[..x])
  {
    SubPosition(c, s, w);
    DiscoveredOnTrack(c, o, s, m);
    var d := s.workers[w].subs[s.workers[w].next];
    assert d in Kids(c, s.workers[w].dir) && d !in o[..x];
  }

  lemma AllOfferable(c: Config, o: seq<Path>, s: State, m: nat, x: nat)
    requires ValidTree(c.tree) && TakeOrder(c, o) && Inv(c, s) && OnTrack(c, o, s, m)
    requires x < |o| && o[..m] + s.queue == o[..x]
    ensures forall j | 0 <= j < x :: Offerable(o, m, j)
  {
    DiscoveredOnTrack(c, o, s, m);
    forall j | 0 <= j < x ensures Offerable(o, m, j) {
      assert o[..x][j] == o[j];
      assert o[j] in s.places;
      assert InTurn(c, o, j);
      DiscoveredByParent(c, s, o[j]);
      if |o[j]| > 1 {
        assert ParentOf(o[j]) in Elems(o[..m]);
      }
    }
  }

  /** Some worker is idle or holds a directory all of whose subdirectories are discovered. */
  lemma SomeoneFree(c: Config, o: seq<Path>, s: State, m: nat, x: nat) returns (w: nat)
    requires Inv(c, s) && OnTrack(c, o, s, m) && x <= |o| && |HeldUp(c, o, m, x)| < c.workers
    ensures w < |s.workers| && (s.workers[w].Idle? || !KeepsOutside(c, s.workers[w].dir, o[..x]))
  {
    if forall v | 0 <= v < |s.workers| :: Active(s.workers[v]) && KeepsOutside(c, s.workers[v].dir, o[..x]) {
      var dirs := seq(|s.workers|, v requires 0 <= v < |s.workers| => s.workers[v].dir);
      forall i, j | 0 <= i < j < |dirs| ensures dirs[i] != dirs[j] {
        assert s.places[dirs[i]] == With(i) && s.places[dirs[j]] == With(j);
      }
      forall d | d in Elems(dirs) ensures d in HeldUp(c, o, m, x) {
        var v :| 0 <= v < |dirs| && dirs[v] == d;
        assert s.places[dirs[v]] == With(v);
        assert d in Taken(s);
      }
      DistinctSize(dirs);
      SubsetSize(Elems(dirs), HeldUp(c, o, m, x));
    }
    w :| 0 <= w < |s.workers| && !(Active(s.workers[w]) && KeepsOutside(c, s.workers[w].dir, o[..x]));
  }

  // --- once all of it is discovered -------------------------------------------------------

  /** Any worker gets on; if all are idle, the next directory of the order is taken. */
  lemma GetOn(c: Config, o: seq<Path>, s: State, m: nat) returns (step: Step)
    requires ValidTree(c.tree) && c.workers > 0 && Inv(c, s) && OnTrack(c, o, s, m) && o <= o[..m] + s.queue
    requires |Frontier(c, Elems(o))| > CAPACITY
    ensures Enabled(c, s, step)
    ensures step.Receive? || step.Push? || step.Entry? || step.CountFile? || step.EndWalk? || step.EndPush?
    ensures step.Receive? ==> m < |o|
  {
    if w :| 0 <= w < |s.workers| && Active(s.workers[w]) {
      step := WorkerStep(c, s, w);
    } else {
      if m == |o| {
        assert o[..m] == o;
        forall p | p in Frontier(c, Elems(o)) ensures p in s.places {
          AloneOffered(c, Elems(o), s, p);
        }
        FrontierFits(c, s, Elems(o));
      }
      step := Receive(0);
    }
  }

  // --- the whole run ----------------------------------------------------------------------

  lemma ScheduleStep(c: Config, o: seq<Path>, s: State, m: nat) returns (step: Step, m': nat)
    requires ValidTree(c.tree) && c.workers > 0 && OverflowingOrder(c, o) && Inv(c, s) && OnTrack(c, o, s, m)
    ensures Enabled(c, s, step)
    ensures Drops(s, step) || OnTrack(c, o, Next(c, s, step), m')
  {
    var x := m + |s.queue|;
    m' := m;
    if x < |o| {
      assert o[..m] + s.queue == o[..x];
      if Offerable(o, m, x) {
        step := OfferNext(c, o, s, m, x);
      } else {
        step := TakeNext(c, o, s, m, x);
      }
    } else {
      step := GetOn(c, o, s, m);
    }
    match step
    case Receive(w) =>
      FrontIsNext(o, m, s.queue);
      ReceiveOnTrack(c, o, s, m, w);
      m' := m + 1;
    case Push(w) =>
      if !Drops(s, step) {
        GoesOnInOrder(o, m, s.queue, s.workers[w].subs[s.workers[w].next]);
        PushOnTrack(c, o, s, m, w);
      }
    case _ => QuietOnTrack(c, o, s, m, step);
  }

  lemma GoesOnInOrder(o: seq<Path>, m: nat, queue: seq<Path>, d: Path)
    requires m <= |o| && Comparable(o[..m] + queue, o)
    requires m + |queue| < |o| ==> d == o[m + |queue|]
    ensures Comparable(o[..m] + queue + [d], o)
  {
    var x := m + |queue|;
    if x < |o| {
      assert o[..m] + queue == o[..x];
      assert o[..x] + [d] == o[..x + 1];
    }
  }

  lemma {:induction false} ScheduleDrops(c: Config, o: seq<Path>, s: State, m: nat)
    requires ValidTree(c.tree) && c.workers > 0 && |Roots(c)| <= CAPACITY && OverflowingOrder(c, o)
    requires Reachable(c, s) && OnTrack(c, o, s, m)
    ensures MayDrop(c)
    decreases Left(c, s)
  {
    ReachableInv(c, s);
    var step, m' := ScheduleStep(c, o, s, m);
    if Drops(s, step) {
      DropGoesOn(c, s, step);
    } else {
      StepShrinks(c, s, step);
      LeftNonNegative(c, s);
      ScheduleDrops(c, o, Next(c, s, step), m');
    }
  }

  /** An overflowing order makes some interleaving drop a directory. */
  lemma OverflowingOrderDrops(c: Config, o: seq<Path>)
    requires ValidTree(c.tree) && c.workers > 0 && |Roots(c)| <= CAPACITY && OverflowingOrder(c, o)
    ensures MayDrop(c)
  {
    OverflowHasRoots(c, Elems(o));
    var s := CanSpawn(c, c.workers);
    ReachableInv(c, s);
    StartOnTrack(c, o, s);
    ScheduleDrops(c, o, s, 0);
  }
}
