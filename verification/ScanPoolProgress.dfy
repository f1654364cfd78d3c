/**
 Progress of the scanner's pool: every run is finite, it can always be continued until `Scan`
 returns if the root directories fit the queue and never returns if they do not, and a directory
 with too many subdirectories makes some interleaving drop one.
 */
module ScanPoolProgress {
  import opened ScanTree
  import opened ScanPool
  import opened ScanPoolSteps
  import opened ScanPoolTheorems

  // --- every run is finite ----------------------------------------------------------------

  /** Steps to walk a directory and offer its subdirectories, at most. */
  ghost function WalkCost(c: Config, d: Path): nat {
    3 * |Listing(c.tree, d)| + 3
  }

  ghost function TotalCost(c: Config, ds: set<Path>): nat
    decreases |ds|
  {
    if ds == {} then 0
    else var d :| d in ds; WalkCost(c, d) + TotalCost(c, ds - {d})
  }

  lemma {:induction false} CostWithout(c: Config, ds: set<Path>, d: Path)
    requires d in ds
    ensures TotalCost(c, ds) == WalkCost(c, d) + TotalCost(c, ds - {d})
    decreases |ds|
  {
    var e :| e in ds && TotalCost(c, ds) == WalkCost(c, e) + TotalCost(c, ds - {e});
    if e != d {
      CostWithout(c, ds - {e}, d);
      CostWithout(c, ds - {d}, e);
      assert ds - {e} - {d} == ds - {d} - {e};
    }
  }

  lemma CostWithoutAtMost(c: Config, ds: set<Path>, d: Path)
    ensures TotalCost(c, ds - {d}) <= TotalCost(c, ds)
  {
    if d in ds {
      CostWithout(c, ds, d);
    } else {
      assert ds - {d} == ds;
    }
  }

  /** The live directories no worker has taken and no full queue has turned away. */
  ghost function Untaken(c: Config, s: State): set<Path> {
    set d | d in LiveDirs(c.tree, c.patterns) && (d in s.places ==> s.places[d] == Queued)
  }

  ghost function WorkerLeft(c: Config, w: Worker): nat {
    match w
    case Exited => 0
    case Idle => 1
    case Walking(dir, next, subs, counting) =>
      if next > |Listing(c.tree, dir)| then 0
      else 3 * (|Listing(c.tree, dir)| - next) + |subs| + (if counting then 1 else 0) + 3
    case Pushing(_, subs, next) => if next > |subs| then 0 else |subs| - next + 2
  }

  ghost function WorkersLeft(c: Config, ws: seq<Worker>): seq<nat> {
    seq(|ws|, i requires 0 <= i < |ws| => WorkerLeft(c, ws[i]))
  }

  ghost function MainLeft(c: Config, main: Main): int {
    match main
    case Enqueuing(k) => |Roots(c)| - k + 2 * c.workers + 3
    case Spawning(k) => 2 * (c.workers - k) + 2
    case Waiting => 1
    case Returned => 0
  }

  ghost function Left(c: Config, s: State): int {
    MainLeft(c, s.main) + Sum(WorkersLeft(c, s.workers)) + TotalCost(c, Untaken(c, s))
  }

  lemma LeftUpdate(c: Config, ws: seq<Worker>, w: nat, worker: Worker)
    requires w < |ws|
    ensures Sum(WorkersLeft(c, ws[w := worker])) ==
            Sum(WorkersLeft(c, ws)) - WorkerLeft(c, ws[w]) + WorkerLeft(c, worker)
  {
    assert WorkersLeft(c, ws[w := worker]) == WorkersLeft(c, ws)[w := WorkerLeft(c, worker)];
    SumUpdate(WorkersLeft(c, ws), w, WorkerLeft(c, worker));
  }

  lemma LeftAppend(c: Config, ws: seq<Worker>)
    ensures Sum(WorkersLeft(c, ws + [Idle])) == Sum(WorkersLeft(c, ws)) + 1
  {
    assert WorkersLeft(c, ws + [Idle]) == WorkersLeft(c, ws) + [1];
    assert (WorkersLeft(c, ws) + [1])[..|ws|] == WorkersLeft(c, ws);
  }

  lemma LeftNonNegative(c: Config, s: State)
    requires Inv(c, s)
    ensures Left(c, s) >= 0
  {}

  lemma MainStepCost(c: Config, s: State, step: Step)
    requires ValidTree(c.tree) && Inv(c, s) && Enabled(c, s, step)
    requires step in {Enqueue, StartSpawning, Spawn, StopSpawning, Return}
    ensures Left(c, Next(c, s, step)) < Left(c, s)
  {
    var s' := Next(c, s, step);
    if step == Enqueue {
      NextRootIsNew(c, s);
    }
    assert Untaken(c, s') == Untaken(c, s);
    if step == Spawn {
      LeftAppend(c, s.workers);
    }
  }

  lemma ReceiveCost(c: Config, s: State, w: nat)
    requires ValidTree(c.tree) && Inv(c, s) && Enabled(c, s, Receive(w))
    ensures Left(c, Next(c, s, Receive(w))) < Left(c, s)
  {
    var s', d := Next(c, s, Receive(w)), s.queue[0];
    assert d in s.queue;
    DiscoveredIsLive(c, s, d);
    LiveDirsExactly(c.tree, c.patterns);
    LeftUpdate(c, s.workers, w, s'.workers[w]);
    CostWithout(c, Untaken(c, s), d);
    assert Untaken(c, s') == Untaken(c, s) - {d};
  }

  lemma PushCost(c: Config, s: State, w: nat)
    requires Enabled(c, s, Push(w)) && s.workers[w].subs[s.workers[w].next] !in s.places
    ensures Left(c, Next(c, s, Push(w))) < Left(c, s)
  {
    var s', d := Next(c, s, Push(w)), s.workers[w].subs[s.workers[w].next];
    LeftUpdate(c, s.workers, w, s'.workers[w]);
    if |s.queue| < CAPACITY {
      assert Untaken(c, s') == Untaken(c, s);
    } else {
      assert Untaken(c, s') == Untaken(c, s) - {d};
      CostWithoutAtMost(c, Untaken(c, s), d);
    }
  }

  lemma WorkerStepCost(c: Config, s: State, step: Step)
    requires WorkersOk(c, s.workers) && Enabled(c, s, step)
    requires step.Exit? || step.Entry? || step.CountFile? || step.EndWalk?
    ensures Left(c, Next(c, s, step)) < Left(c, s)
  {
    var s', w := Next(c, s, step), step.w;
    assert WorkerOk(c, s.workers[w]);
    LeftUpdate(c, s.workers, w, s'.workers[w]);
    assert Untaken(c, s') == Untaken(c, s);
  }

  lemma EndPushCost(c: Config, s: State, w: nat)
    requires PlacesOk(s.queue, s.workers, s.places) && Enabled(c, s, EndPush(w))
    ensures Left(c, Next(c, s, EndPush(w))) < Left(c, s)
  {
    LeftUpdate(c, s.workers, w, Idle);
    assert Untaken(c, Next(c, s, EndPush(w))) == Untaken(c, s);
  }

  /** Every step uses up some of what is left. */
  lemma StepMakesProgress(c: Config, s: State, step: Step)
    requires ValidTree(c.tree) && Inv(c, s) && Enabled(c, s, step)
    ensures Left(c, Next(c, s, step)) < Left(c, s)
  {
    match step
    case Receive(w) => ReceiveCost(c, s, w);
    case Push(w) =>
      NextSubIsNew(c, s, w);
      PushCost(c, s, w);
    case Exit(_) => WorkerStepCost(c, s, step);
    case Entry(_) => WorkerStepCost(c, s, step);
    case CountFile(_) => WorkerStepCost(c, s, step);
    case EndWalk(_) => WorkerStepCost(c, s, step);
    case EndPush(w) => EndPushCost(c, s, w);
    case _ => MainStepCost(c, s, step);
  }

  /** No interleaving is longer than what is left at the start. */
  lemma {:induction false} RunsAreShort(c: Config, steps: seq<Step>, states: seq<State>, n: nat)
    requires ValidTree(c.tree) && c.workers > 0 && Run(c, steps, states) && n <= |steps|
    ensures n + Left(c, states[n]) <= Left(c, Start(c)) && 0 <= Left(c, states[n])
  {
    RunKeepsInv(c, steps, states, n);
    LeftNonNegative(c, states[n]);
    if n > 0 {
      RunsAreShort(c, steps, states, n - 1);
      RunKeepsInv(c, steps, states, n - 1);
      StepMakesProgress(c, states[n - 1], steps[n - 1]);
    }
  }

  // --- whether the scan returns -----------------------------------------------------------

  lemma WorkerMoves(c: Config, s: State, w: nat)
    requires WorkersOk(c, s.workers) && w < |s.workers| && !s.workers[w].Exited?
    ensures exists step :: Enabled(c, s, step)
  {
    assert WorkerOk(c, s.workers[w]);
    match s.workers[w]
    case Idle => assert Enabled(c, s, Receive(w)) || Enabled(c, s, Exit(w));
    case Walking(_, _, _, _) =>
      assert Enabled(c, s, CountFile(w)) || Enabled(c, s, Entry(w)) || Enabled(c, s, EndWalk(w));
    case Pushing(_, _, _) => assert Enabled(c, s, Push(w)) || Enabled(c, s, EndPush(w));
  }

  /** Short of returning, something can move: unless the queue is full before any worker exists. */
  lemma SomethingMoves(c: Config, s: State)
    requires Inv(c, s) && s.main != Returned
    requires s.main.Enqueuing? ==> |Roots(c)| <= CAPACITY
    ensures exists step :: Enabled(c, s, step)
  {
    if s.main.Enqueuing? {
      assert Enabled(c, s, Enqueue) || Enabled(c, s, StartSpawning);
    } else if s.main.Spawning? {
      assert Enabled(c, s, Spawn) || Enabled(c, s, StopSpawning);
    } else if w :| 0 <= w < |s.workers| && !s.workers[w].Exited? {
      WorkerMoves(c, s, w);
    } else {
      assert Enabled(c, s, Return);
    }
  }

  lemma StartReachable(c: Config)
    ensures Reachable(c, Start(c))
  {
    var steps: seq<Step> := [];
    assert Run(c, steps, [Start(c)]);
    assert [Start(c)][|steps|] == Start(c);
  }

  lemma StepReachable(c: Config, s: State, step: Step)
    requires Reachable(c, s) && Enabled(c, s, step)
    ensures Reachable(c, Next(c, s, step))
  {
    var steps, states :| Run(c, steps, states) && states[|steps|] == s;
    var s' := Next(c, s, step);
    assert Run(c, steps + [step], states + [s']);
    assert (states + [s'])[|steps + [step]|] == s';
  }

  lemma DroppedStays(c: Config, s: State, step: Step, d: Path)
    requires ValidTree(c.tree) && Inv(c, s) && Enabled(c, s, step) && IsDropped(s, d)
    ensures IsDropped(Next(c, s, step), d)
  {
    match step
    case Enqueue => NextRootIsNew(c, s);
    case Push(w) => NextSubIsNew(c, s, w);
    case Receive(w) => assert s.queue[0] in s.queue;
    case _ =>
  }

  /** Any state reached can be carried on to a returned one; what was dropped stays dropped. */
  lemma {:induction false} CanReturn(c: Config, s: State) returns (end: State)
    requires ValidTree(c.tree) && c.workers > 0 && Reachable(c, s) && |Roots(c)| <= CAPACITY
    ensures Reachable(c, end) && end.main == Returned
    ensures forall d | IsDropped(s, d) :: IsDropped(end, d)
    decreases Left(c, s)
  {
    ReachableInv(c, s);
    if s.main == Returned {
      end := s;
    } else {
      SomethingMoves(c, s);
      var step :| Enabled(c, s, step);
      forall d | IsDropped(s, d) ensures IsDropped(Next(c, s, step), d) {
        DroppedStays(c, s, step, d);
      }
      StepReachable(c, s, step);
      StepMakesProgress(c, s, step);
      ReachableInv(c, Next(c, s, step));
      LeftNonNegative(c, Next(c, s, step));
      LeftNonNegative(c, s);
      end := CanReturn(c, Next(c, s, step));
    }
  }

  /** With more root directories than the queue holds, the main goroutine never gets past them. */
  lemma {:induction false} TooManyRoots(c: Config, steps: seq<Step>, states: seq<State>, n: nat)
    requires Run(c, steps, states) && n <= |steps| && |Roots(c)| > CAPACITY
    ensures var s := states[n];
            s.main.Enqueuing? && s.main.next == |s.queue| && |s.queue| <= CAPACITY && s.workers == []
  {
    if n > 0 {
      TooManyRoots(c, steps, states, n - 1);
    }
  }

  /** `Scan` can return iff the root directories fit the queue; if they do not, it blocks forever. */
  lemma ScanReturnsIff(c: Config)
    requires ValidTree(c.tree) && c.workers > 0
    ensures (exists s :: Reachable(c, s) && s.main == Returned) <==> |Roots(c)| <= CAPACITY
    ensures |Roots(c)| <= CAPACITY ==>
              forall s | Reachable(c, s) && s.main != Returned :: exists step :: Enabled(c, s, step)
  {
    if |Roots(c)| <= CAPACITY {
      StartReachable(c);
      var end := CanReturn(c, Start(c));
      forall s | Reachable(c, s) && s.main != Returned ensures exists step :: Enabled(c, s, step) {
        ReachableInv(c, s);
        SomethingMoves(c, s);
      }
    } else {
      forall s | Reachable(c, s) ensures s.main != Returned {
        var steps, states :| Run(c, steps, states) && states[|steps|] == s;
        TooManyRoots(c, steps, states, |steps|);
      }
    }
  }

  // --- dropping a directory --------------------------------------------------------------

  /** Some interleaving returns having dropped a directory. */
  ghost predicate MayDrop(c: Config) {
    exists s :: Reachable(c, s) && s.main == Returned && !NoneDropped(s)
  }

  /** With an empty queue and nobody at work, every live directory has been walked. */
  lemma {:induction false} AllTaken(c: Config, s: State, d: Path)
    requires ValidTree(c.tree) && Inv(c, s) && NoneDropped(s) && !s.main.Enqueuing?
    requires s.queue == [] && forall w | 0 <= w < |s.workers| :: !Active(s.workers[w])
    requires LiveDir(c.tree, c.patterns, d)
    ensures d in s.places && s.places[d] == Walked
  {
    LiveDirFromParent(c.tree, c.patterns, d);
    assert Offered(c, s, d) <==> d in s.places;
    if |d| == 1 {
      RootsFacts(c);
      assert ParentOf(d) == [];
    } else {
      AllTaken(c, s, ParentOf(d));
      SubDirsFacts(c, ParentOf(d));
    }
    assert s.places[d].With? ==> HeldBy(s.workers, s.places[d].worker, d);
  }

  lemma {:induction false} CanEnqueue(c: Config, k: nat) returns (s: State)
    requires 0 < |Roots(c)| <= CAPACITY && k <= |Roots(c)| && ValidTree(c.tree) && c.workers > 0
    ensures Reachable(c, s) && s.main == Enqueuing(k) && s.workers == []
    ensures forall p | p in s.places :: s.places[p] == Queued
  {
    if k == 0 {
      StartReachable(c);
      s := Start(c);
    } else {
      var r := CanEnqueue(c, k - 1);
      ReachableInv(c, r);
      StepReachable(c, r, Enqueue);
      s := Next(c, r, Enqueue);
    }
  }

  lemma {:induction false} SomeRoot(c: Config, d: Path)
    requires ValidTree(c.tree) && LiveDir(c.tree, c.patterns, d)
    ensures Roots(c) != []
    decreases |d|
  {
    LiveDirFromParent(c.tree, c.patterns, d);
    if |d| == 1 {
      RootsFacts(c);
      assert ParentOf(d) == [];
      assert d in Roots(c);
    } else {
      SomeRoot(c, ParentOf(d));
    }
  }
}
