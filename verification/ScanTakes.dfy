/**
 In which order a run of the scanner's pool has taken directories, and that up to its first drop it
 was an order that its workers can take them in.
 */
module ScanTakes {
  import opened Order
  import opened ScanTree
  import opened ScanPool
  import opened ScanPoolSteps
  import opened ScanPoolTheorems
  import opened ScanPoolProgress
  import opened ScanFrontier
  import opened ScanOverflow
  import opened ScanDrops
  import opened ScanSchedules

  lemma NoneDroppedBefore(c: Config, steps: seq<Step>, states: seq<State>, n: nat)
    requires ValidTree(c.tree) && c.workers > 0 && Run(c, steps, states) && n < |steps| && NoneDropped(states[n + 1])
    ensures NoneDropped(states[n]) && !Drops(states[n], steps[n])
  {
    RunKeepsInv(c, steps, states, n);
    if !NoneDropped(states[n]) {
      var d :| d in states[n].places && states[n].places[d] == Dropped;
      DroppedStays(c, states[n], steps[n], d);
    }
    if Drops(states[n], steps[n]) {
      DropDrops(c, states[n], steps[n]);
    }
  }

  lemma DropDrops(c: Config, s: State, step: Step)
    requires Enabled(c, s, step) && Drops(s, step)
    ensures !NoneDropped(Next(c, s, step))
  {
    var d := s.workers[step.w].subs[s.workers[step.w].next];
    assert Next(c, s, step).places[d] == Dropped;
  }

  /** The directories taken by the first `n` steps, in order. */
  ghost function Takes(steps: seq<Step>, states: seq<State>, n: nat): seq<Path>
    requires n <= |steps| < |states|
  {
    if n == 0 then []
    else if steps[n - 1].Receive? && states[n - 1].queue != [] then
      Takes(steps, states, n - 1) + [states[n - 1].queue[0]]
    else Takes(steps, states, n - 1)
  }

  /** What is known of a state in which nothing has been dropped. */
  ghost predicate Clean(c: Config, s: State) {
    Inv(c, s) && NoneDropped(s) && InOrder(c, false, s)
  }

  lemma {:induction false} RunClean(c: Config, steps: seq<Step>, states: seq<State>, n: nat)
    requires ValidTree(c.tree) && c.workers > 0 && Run(c, steps, states) && n <= |steps| && NoneDropped(states[n])
    ensures Clean(c, states[n])
  {
    RunKeepsInv(c, steps, states, n);
    if n == 0 {
      StartInOrder(c, false);
    } else {
      NoneDroppedBefore(c, steps, states, n - 1);
      RunClean(c, steps, states, n - 1);
      InOrderStep(c, false, states[n - 1], steps[n - 1]);
    }
  }

  /** In the order of their discovery: those taken, and then those in the queue. */
  ghost predicate Discovered(s: State, taken: seq<Path>) {
    && Distinct(taken + s.queue) && Elems(taken) == Taken(s)
    && forall d :: d in s.places <==> d in taken + s.queue
  }

  lemma DiscoveredStep(c: Config, s: State, step: Step, taken: seq<Path>)
    requires ValidTree(c.tree) && Clean(c, s) && Enabled(c, s, step) && !Drops(s, step) && Discovered(s, taken)
    ensures var s', more := Next(c, s, step), if step.Receive? then taken + [s.queue[0]] else taken;
            Discovered(s', more) && taken + s.queue <= more + s'.queue
  {
    var s' := Next(c, s, step);
    match step
    case Enqueue =>
      NextRootIsNew(c, s);
      AppendDiscovered(s, s', taken, Roots(c)[s.main.next]);
    case Push(w) =>
      NextSubIsNew(c, s, w);
      AppendDiscovered(s, s', taken, s.workers[w].subs[s.workers[w].next]);
    case Receive(w) => ReceiveDiscovered(c, s, w, taken);
    case EndPush(w) =>
      assert s.places[s.workers[w].dir] == With(w);
      assert Taken(s') == Taken(s);
    case _ => assert Taken(s') == Taken(s);
  }

  lemma ReceiveDiscovered(c: Config, s: State, w: nat, taken: seq<Path>)
    requires Enabled(c, s, Receive(w)) && Discovered(s, taken)
    ensures var s' := Next(c, s, Receive(w));
            Discovered(s', taken + [s.queue[0]]) && taken + [s.queue[0]] + s'.queue == taken + s.queue
  {
    var s' := Next(c, s, Receive(w));
    assert s.queue[0] in s.queue;
    assert taken + [s.queue[0]] + s'.queue == taken + s.queue;
    assert Taken(s') == Taken(s) + {s.queue[0]};
  }

  lemma AppendDiscovered(s: State, s': State, taken: seq<Path>, d: Path)
    requires Discovered(s, taken) && d !in s.places
    requires s'.queue == s.queue + [d] && s'.places == s.places[d := Queued]
    ensures Discovered(s', taken) && taken + s.queue <= taken + s'.queue
  {
    assert taken + s'.queue == taken + s.queue + [d];
    assert Taken(s') == Taken(s);
  }

  lemma {:induction false} RunDiscovered(c: Config, steps: seq<Step>, states: seq<State>, n: nat)
    requires ValidTree(c.tree) && c.workers > 0 && Run(c, steps, states) && n <= |steps| && NoneDropped(states[n])
    ensures Discovered(states[n], Takes(steps, states, n))
  {
    if n == 0 {
      assert Taken(states[0]) == {};
    } else {
      NoneDroppedBefore(c, steps, states, n - 1);
      RunDiscovered(c, steps, states, n - 1);
      RunClean(c, steps, states, n - 1);
      DiscoveredStep(c, states[n - 1], steps[n - 1], Takes(steps, states, n - 1));
    }
  }

  /** What has been discovered stays in order. */
  lemma {:induction false} DiscoveredGrows(c: Config, steps: seq<Step>, states: seq<State>, k: nat, n: nat)
    requires ValidTree(c.tree) && c.workers > 0 && Run(c, steps, states) && k <= n <= |steps| && NoneDropped(states[n])
    ensures Takes(steps, states, k) <= Takes(steps, states, n) && NoneDropped(states[k])
    ensures Takes(steps, states, k) + states[k].queue <= Takes(steps, states, n) + states[n].queue
    decreases n - k
  {
    if k < n {
      NoneDroppedBefore(c, steps, states, n - 1);
      DiscoveredGrows(c, steps, states, k, n - 1);
      RunDiscovered(c, steps, states, n - 1);
      RunClean(c, steps, states, n - 1);
      DiscoveredStep(c, states[n - 1], steps[n - 1], Takes(steps, states, n - 1));
    }
  }

  /** Each entry of the order was taken by some step. */
  lemma {:induction false} TakenBy(steps: seq<Step>, states: seq<State>, n: nat, m: nat) returns (k: nat)
    requires n <= |steps| < |states| && m < |Takes(steps, states, n)|
    ensures k < n && steps[k].Receive? && states[k].queue != [] && |Takes(steps, states, k)| == m
  {
    if m < |Takes(steps, states, n - 1)| {
      k := TakenBy(steps, states, n - 1, m);
    } else {
      k := n - 1;
    }
  }

  // --- the order is one that can be taken -------------------------------------------------

  lemma TakenInTurn(c: Config, s: State, step: Step, taken: seq<Path>, o: seq<Path>)
    requires ValidTree(c.tree) && Clean(c, s) && Discovered(s, taken) && Enabled(c, s, step) && step.Receive?
    requires taken + [s.queue[0]] <= o
    ensures InTurn(c, o, |taken|)
  {
    var d, i := s.queue[0], |taken|;
    assert o[..i] == taken && o[i] == d && d in s.queue;
    DiscoveredIsLive(c, s, d);
    DiscoveredByParent(c, s, d);
    if |d| > 1 { assert ParentOf(d) in Elems(taken); }
    forall e | LiveDir(c.tree, c.patterns, e) && Before(c, e, d) ensures e in o[..i] {
      assert Precedes(c, false, e, d) && Kept(s, d);
      assert e in s.places && Behind(s.queue, e, d);
      FrontNotBehind(s.queue, e);
      assert e in Elems(taken);
    }
  }

  /** At most as many as there are other workers hold a directory that keeps one not discovered yet. */
  lemma SomeHeldUp(c: Config, s: State, w: nat, o: seq<Path>, m: nat, n: nat)
    requires m <= n < |o| && forall d | d in s.places :: d in o[..n]
    requires ValidTree(c.tree) && Clean(c, s) && Discovered(s, o[..m]) && Enabled(c, s, Receive(w))
    ensures |HeldUp(c, o, m, n)| < |s.workers|
  {
    var dirs := seq(|s.workers|, v requires 0 <= v < |s.workers| =>
      if Active(s.workers[v]) then s.workers[v].dir else []);
    var others := dirs[..w] + dirs[w + 1..];
    forall p | p in HeldUp(c, o, m, n) ensures p in Elems(others) {
      var v := HeldUpBy(c, s, o, m, n, p);
      assert dirs[v] == p;
      assert if v < w then others[v] == p else others[v - 1] == p;
    }
    SubsetSize(HeldUp(c, o, m, n), Elems(others));
    ElemsAtMost(others);
  }

  lemma HeldUpBy(c: Config, s: State, o: seq<Path>, m: nat, n: nat, p: Path) returns (v: nat)
    requires m <= n < |o| && (forall d | d in s.places :: d in o[..n]) && p in HeldUp(c, o, m, n)
    requires ValidTree(c.tree) && Clean(c, s) && Discovered(s, o[..m])
    ensures v < |s.workers| && Active(s.workers[v]) && s.workers[v].dir == p
  {
    assert p in Elems(o[..m]);
    assert p in Taken(s);
    var k :| k in Kids(c, p) && k !in o[..n];
    PlacesNonEmpty(c, s, p);
    SubDirsFacts(c, p);
    assert Offered(c, s, k) <==> k in s.places;
    HeldAt(s, p);
    v := s.places[p].worker;
  }

  lemma {:induction false} ElemsAtMost(s: seq<Path>)
    ensures |Elems(s)| <= |s|
  {
    if s != [] {
      ElemsAtMost(s[1..]);
      assert Elems(s) == Elems(s[1..]) + {s[0]};
    }
  }

  /** What cannot be offered yet is not discovered, so neither is anything after it. */
  lemma DiscoveredBefore(c: Config, s: State, taken: seq<Path>, o: seq<Path>, all: seq<Path>, n: nat)
    requires ValidTree(c.tree) && Clean(c, s) && Discovered(s, taken)
    requires taken <= o && o <= all && taken + s.queue <= all
    requires OfferedPrefix(o, |taken|, n)
    ensures forall d | d in s.places :: d in o[..n]
  {
    var so := taken + s.queue;
    assert o[..|taken|] == taken;
    if n < |so| {
      assert so[n] == all[n] == o[n];
      assert o[n] in s.places;
      DiscoveredByParent(c, s, o[n]);
    }
    forall d | d in s.places ensures d in o[..n] {
      var i :| 0 <= i < |so| && so[i] == d;
      assert so[i] == all[i] == o[i] == o[..n][i];
    }
  }

  lemma EnoughForRun(c: Config, steps: seq<Step>, states: seq<State>, N: nat)
    requires ValidTree(c.tree) && c.workers > 0 && Run(c, steps, states) && N <= |steps| && NoneDropped(states[N])
    ensures EnoughWorkers(c, Takes(steps, states, N)) && TakeOrder(c, Takes(steps, states, N))
  {
    var o := Takes(steps, states, N);
    forall m, n | OfferedPrefix(o, m, n) ensures |HeldUp(c, o, m, n)| < c.workers {
      EnoughAt(c, steps, states, N, m, n);
    }
    forall i | 0 <= i < |o| ensures InTurn(c, o, i) {
      TurnAt(c, steps, states, N, i);
    }
    RunDiscovered(c, steps, states, N);
    assert forall i | 0 <= i < |o| :: (o + states[N].queue)[i] == o[i];
  }

  lemma TurnAt(c: Config, steps: seq<Step>, states: seq<State>, N: nat, i: nat)
    requires ValidTree(c.tree) && c.workers > 0 && Run(c, steps, states) && N <= |steps| && NoneDropped(states[N])
    requires i < |Takes(steps, states, N)|
    ensures InTurn(c, Takes(steps, states, N), i)
  {
    var k := TakenBy(steps, states, N, i);
    DiscoveredGrows(c, steps, states, k + 1, N);
    DiscoveredGrows(c, steps, states, k, N);
    RunClean(c, steps, states, k);
    RunDiscovered(c, steps, states, k);
    TakenInTurn(c, states[k], steps[k], Takes(steps, states, k), Takes(steps, states, N));
  }

  lemma EnoughAt(c: Config, steps: seq<Step>, states: seq<State>, N: nat, m: nat, n: nat)
    requires ValidTree(c.tree) && c.workers > 0 && Run(c, steps, states) && N <= |steps| && NoneDropped(states[N])
    requires OfferedPrefix(Takes(steps, states, N), m, n)
    ensures |HeldUp(c, Takes(steps, states, N), m, n)| < c.workers
  {
    var o := Takes(steps, states, N);
    var k := TakenBy(steps, states, N, m);
    var taken, s := Takes(steps, states, k), states[k];
    DiscoveredGrows(c, steps, states, k, N);
    RunClean(c, steps, states, k);
    RunDiscovered(c, steps, states, k);
    assert o[..m] == taken;
    DiscoveredBefore(c, s, taken, o, o + states[N].queue, n);
    SomeHeldUp(c, s, steps[k].w, o, m, n);
    WorkersStarted(c, s);
  }

  // --- the first drop ---------------------------------------------------------------------

  lemma {:induction false} FirstDrop(c: Config, steps: seq<Step>, states: seq<State>, n: nat) returns (k: nat)
    requires ValidTree(c.tree) && c.workers > 0 && Run(c, steps, states) && n <= |steps| && !NoneDropped(states[n])
    ensures k < n && NoneDropped(states[k]) && Drops(states[k], steps[k])
  {
    assert n > 0;
    if NoneDropped(states[n - 1]) {
      k := n - 1;
      RunKeepsInv(c, steps, states, k);
      var d :| d in states[n].places && states[n].places[d] == Dropped;
      DropIsPush(c, states[k], steps[k], d);
    } else {
      k := FirstDrop(c, steps, states, n - 1);
    }
  }

  /** A run that drops a directory has taken directories in an overflowing order. */
  lemma DropMeansOrder(c: Config)
    requires ValidTree(c.tree) && c.workers > 0 && MayDrop(c)
    ensures exists o :: OverflowingOrder(c, o)
  {
    var s :| Reachable(c, s) && s.main == Returned && !NoneDropped(s);
    var steps: seq<Step>, states: seq<State> :| Run(c, steps, states) && states[|steps|] == s;
    var k := FirstDrop(c, steps, states, |steps|);
    var o := Takes(steps, states, k);
    EnoughForRun(c, steps, states, k);
    RunClean(c, steps, states, k);
    RunDiscovered(c, steps, states, k);
    DropOverflows(c, states[k], steps[k].w);
    assert OverflowingOrder(c, o);
  }
}
