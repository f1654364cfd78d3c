/**
 What every interleaving of the scanner's pool guarantees: nothing is listed or walked twice,
 nothing ignored is listed, and the list is complete except below directories whose send was
 dropped; and when no send is dropped.
 */
module ScanPoolTheorems {
  import opened Order
  import opened ScanTree
  import opened ScanPool
  import opened ScanPoolSteps

  // --- discovered directories are live ----------------------------------------------------

  /** The parent of a discovered nested directory has been taken by a worker and keeps it. */
  lemma DiscoveredByParent(c: Config, s: State, p: Path)
    requires ValidTree(c.tree) && Inv(c, s) && p in s.places
    ensures p != [] && KeptEntry(c.patterns, ParentOf(p), Listing(c.tree, ParentOf(p)), p, true)
    ensures |p| > 1 ==> ParentOf(p) in s.places && Rank(s, ParentOf(p)) >= 2 && s.places[ParentOf(p)] != Dropped
  {
    assert Offered(c, s, p);
    RootsFacts(c);
    if |p| > 1 {
      var q := ParentOf(p);
      SubDirsFacts(c, q);
      if s.places[q].With? {
        assert HeldBy(s.workers, s.places[q].worker, q);
        assert WorkerOk(c, s.workers[s.places[q].worker]);
      }
    } else {
      assert p in Enqueued(c, s.main) && p in Roots(c);
      assert ParentOf(p) == [];
    }
  }

  lemma {:induction false} DiscoveredIsLive(c: Config, s: State, p: Path)
    requires ValidTree(c.tree) && Inv(c, s) && p in s.places
    ensures LiveDir(c.tree, c.patterns, p)
    decreases |p|
  {
    DiscoveredByParent(c, s, p);
    LiveDirFromParent(c.tree, c.patterns, p);
    if |p| > 1 {
      DiscoveredIsLive(c, s, ParentOf(p));
    }
  }

  /** Everything above a discovered directory has been taken by a worker. */
  lemma {:induction false} AncestorsTaken(c: Config, s: State, p: Path, k: nat)
    requires ValidTree(c.tree) && Inv(c, s) && p in s.places && 1 <= k < |p|
    ensures p[..k] in s.places && s.places[p[..k]] != Queued && s.places[p[..k]] != Dropped
    decreases |p|
  {
    DiscoveredByParent(c, s, p);
    if k < |p| - 1 {
      AncestorsTaken(c, s, ParentOf(p), k);
      assert ParentOf(p)[..k] == p[..k];
    }
  }

  // --- what is listed ---------------------------------------------------------------------

  /** At any moment: no file twice, none that should not be listed, and the counter is not ahead. */
  lemma ListedFilesAreExpected(c: Config, s: State, f: Path)
    requires ValidTree(c.tree) && c.workers > 0 && Reachable(c, s)
    ensures Distinct(s.files) && s.counter <= |s.files|
    ensures f in s.files ==> Expected(c.tree, c.patterns, f)
  {
    ReachableInv(c, s);
    if f in s.files {
      assert Listed(c, s, f);
      if |f| <= 1 {
        ListingDistinct(c, []);
        RootFilesExactly(c.patterns, Listing(c.tree, []));
        assert ParentOf(f) == [];
      } else {
        var q := ParentOf(f);
        ListedWasKept(c, s, f);
        DiscoveredIsLive(c, s, q);
        ExpectedFromParent(c.tree, c.patterns, f);
      }
    }
  }

  lemma ListedWasKept(c: Config, s: State, f: Path)
    requires ValidTree(c.tree) && |f| > 1 && Listed(c, s, f)
    ensures KeptEntry(c.patterns, ParentOf(f), Listing(c.tree, ParentOf(f)), f, false)
  {
    var q := ParentOf(f);
    var es := Listing(c.tree, q);
    ListingDistinct(c, q);
    FilesInExactly(c.patterns, q, es);
    if s.places[q].With? && s.workers[s.places[q].worker].Walking? {
      var n := s.workers[s.places[q].worker].next;
      FilesInExactly(c.patterns, q, es[..n]);
      assert forall x | x in es[..n] :: x in es;
    }
  }

  ghost predicate IsDropped(s: State, d: Path) {
    d in s.places && s.places[d] == Dropped
  }

  ghost predicate NoneDroppedAbove(s: State, p: Path) {
    forall k | 1 <= k < |p| :: !IsDropped(s, p[..k])
  }

  lemma AboveParent(s: State, p: Path)
    requires |p| > 1
    ensures NoneDroppedAbove(s, p) <==> NoneDroppedAbove(s, ParentOf(p)) && !IsDropped(s, ParentOf(p))
  {
    var q := ParentOf(p);
    assert forall k | 1 <= k < |q| :: q[..k] == p[..k];
  }

  ghost predicate Over(s: State) {
    && s.main.Returned? && s.queue == []
    && forall d | d in s.places :: s.places[d] == Walked || s.places[d] == Dropped
  }

  lemma ReturnedIsOver(c: Config, s: State)
    requires Inv(c, s) && s.main.Returned?
    ensures Over(s) && s.counter == |s.files|
  {
    forall d | d in s.places ensures s.places[d] == Walked || s.places[d] == Dropped {
      assert s.places[d].With? ==> HeldBy(s.workers, s.places[d].worker, d);
    }
    NonePending(s.workers);
  }

  lemma {:induction false} NonePending(ws: seq<Worker>)
    requires forall w | 0 <= w < |ws| :: ws[w].Exited?
    ensures Sum(Pending(ws)) == 0
  {
    if ws != [] {
      NonePending(ws[..|ws| - 1]);
      assert Pending(ws)[..|ws| - 1] == Pending(ws[..|ws| - 1]);
    }
  }

  /** In the end exactly the live directories were discovered, save those below a dropped one. */
  lemma {:induction false} DiscoveredIff(c: Config, s: State, p: Path)
    requires ValidTree(c.tree) && Inv(c, s) && Over(s)
    ensures p in s.places <==> LiveDir(c.tree, c.patterns, p) && NoneDroppedAbove(s, p)
    decreases |p|
  {
    if p == [] {
      if p in s.places { DiscoveredByParent(c, s, p); }
    } else {
      var q := ParentOf(p);
      assert Offered(c, s, p) <==> p in s.places;
      LiveDirFromParent(c.tree, c.patterns, p);
      if |p| == 1 {
        RootsFacts(c);
        assert q == [];
      } else {
        DiscoveredIff(c, s, q);
        SubDirsFacts(c, q);
        AboveParent(s, p);
      }
    }
  }

  /**
   When the scan has returned, it has listed exactly the expected files with no dropped directory
   above them, each once, and the counter equals their number. True of every interleaving.
   */
  lemma ListedIff(c: Config, s: State, f: Path)
    requires ValidTree(c.tree) && c.workers > 0 && Reachable(c, s) && s.main.Returned?
    ensures Distinct(s.files) && s.counter == |s.files|
    ensures f in s.files <==> Expected(c.tree, c.patterns, f) && NoneDroppedAbove(s, f)
  {
    ReachableInv(c, s);
    ReturnedIsOver(c, s);
    assert f in s.files <==> Listed(c, s, f);
    if |f| <= 1 {
      ListingDistinct(c, []);
      RootFilesExactly(c.patterns, Listing(c.tree, []));
      assert f != [] ==> ParentOf(f) == [];
    } else {
      var q := ParentOf(f);
      DiscoveredIff(c, s, q);
      ListingDistinct(c, q);
      FilesInExactly(c.patterns, q, Listing(c.tree, q));
      ExpectedFromParent(c.tree, c.patterns, f);
      AboveParent(s, f);
    }
  }

  // --- when no send is dropped ------------------------------------------------------------

  predicate IsAbove(a: Path, b: Path) {
    |a| < |b| && b[..|a|] == a
  }

  predicate Unrelated(ds: set<Path>) {
    forall a, b | a in ds && b in ds :: !IsAbove(a, b)
  }

  /** No more than `n` live directories are pairwise unrelated. */
  ghost predicate WidthAtMost(c: Config, n: nat) {
    forall ds | Unrelated(ds) && ds <= LiveDirs(c.tree, c.patterns) :: |ds| <= n
  }

  lemma FewDirsNarrow(c: Config, n: nat)
    requires |LiveDirs(c.tree, c.patterns)| <= n
    ensures WidthAtMost(c, n)
  {
    forall ds | Unrelated(ds) && ds <= LiveDirs(c.tree, c.patterns) ensures |ds| <= n {
      SubsetSize(ds, LiveDirs(c.tree, c.patterns));
    }
  }

  lemma NotAboveDiscovered(c: Config, s: State, a: Path, p: Path)
    requires ValidTree(c.tree) && Inv(c, s) && p in s.places && a != []
    requires a in s.places ==> s.places[a] == Queued
    ensures !IsAbove(a, p)
  {
    if IsAbove(a, p) {
      AncestorsTaken(c, s, p, |a|);
    }
  }

  /** No queued directory lies above the one about to be offered, for it does not hold its parent. */
  lemma NotAboveNextSub(c: Config, s: State, w: nat, a: Path)
    requires ValidTree(c.tree) && Inv(c, s) && Enabled(c, s, Push(w)) && a in s.queue
    ensures !IsAbove(a, s.workers[w].subs[s.workers[w].next])
  {
    var d, dir := s.workers[w].subs[s.workers[w].next], s.workers[w].dir;
    NextSubIsNew(c, s, w);
    PlacesNonEmpty(c, s, a);
    NotAboveDiscovered(c, s, a, dir);
    assert d == dir + [BaseName(d)];
    assert |a| < |dir| ==> dir[..|a|] == d[..|a|];
  }

  /** The queue together with the directory about to be offered: none lies above another. */
  lemma FrontierUnrelated(c: Config, s: State, w: nat)
    requires ValidTree(c.tree) && Inv(c, s) && Enabled(c, s, Push(w))
    ensures var d := s.workers[w].subs[s.workers[w].next];
            d !in s.queue && LiveDir(c.tree, c.patterns, d) && Unrelated(Elems(s.queue) + {d})
  {
    var d, dir := s.workers[w].subs[s.workers[w].next], s.workers[w].dir;
    NextSubIsNew(c, s, w);
    DiscoveredIsLive(c, s, dir);
    LiveDirFromParent(c.tree, c.patterns, d);
    forall a, b | a in Elems(s.queue) + {d} && b in Elems(s.queue) + {d} ensures !IsAbove(a, b) {
      if b in s.queue {
        if a in s.places { PlacesNonEmpty(c, s, a); }
        NotAboveDiscovered(c, s, a, b);
      } else if a in s.queue {
        NotAboveNextSub(c, s, w, a);
      }
    }
  }

  lemma PushFits(c: Config, s: State, w: nat)
    requires ValidTree(c.tree) && Inv(c, s) && Enabled(c, s, Push(w)) && WidthAtMost(c, CAPACITY)
    ensures |s.queue| < CAPACITY
  {
    var d := s.workers[w].subs[s.workers[w].next];
    FrontierUnrelated(c, s, w);
    LiveDirsExactly(c.tree, c.patterns);
    forall q | q in Elems(s.queue) ensures q in LiveDirs(c.tree, c.patterns) {
      DiscoveredIsLive(c, s, q);
    }
    DistinctSize(s.queue);
    assert d !in Elems(s.queue);
    assert |Elems(s.queue) + {d}| == |s.queue| + 1;
  }

  lemma RootsFit(c: Config, n: nat)
    requires ValidTree(c.tree) && WidthAtMost(c, n)
    ensures |Roots(c)| <= n
  {
    RootsFacts(c);
    LiveDirsExactly(c.tree, c.patterns);
    forall d | d in Roots(c) ensures LiveDir(c.tree, c.patterns, d) {
      LiveDirFromParent(c.tree, c.patterns, d);
      assert ParentOf(d) == [];
    }
    DistinctSize(Roots(c));
    assert Unrelated(Elems(Roots(c)));
  }

  ghost predicate NoneDropped(s: State) {
    forall d | d in s.places :: s.places[d] != Dropped
  }

  lemma {:induction false} RunDropsNone(c: Config, steps: seq<Step>, states: seq<State>, n: nat)
    requires ValidTree(c.tree) && c.workers > 0 && Run(c, steps, states) && n <= |steps|
    requires WidthAtMost(c, CAPACITY)
    ensures NoneDropped(states[n])
  {
    if n > 0 {
      var s, step := states[n - 1], steps[n - 1];
      RunDropsNone(c, steps, states, n - 1);
      RunKeepsInv(c, steps, states, n - 1);
      if step.Push? {
        PushFits(c, s, step.w);
      }
    }
  }

  /**
   If no more than 64 of the directories below the root are pairwise unrelated, no interleaving
   drops a send or blocks the main goroutine.
   */
  lemma NothingDropped(c: Config, s: State)
    requires ValidTree(c.tree) && c.workers > 0 && Reachable(c, s) && WidthAtMost(c, CAPACITY)
    ensures NoneDropped(s)
    ensures s.main.Enqueuing? && s.main.next < |Roots(c)| ==> Enabled(c, s, Enqueue)
    ensures forall w | Enabled(c, s, Push(w)) :: |s.queue| < CAPACITY
  {
    var steps, states :| Run(c, steps, states) && states[|steps|] == s;
    RunDropsNone(c, steps, states, |steps|);
    ReachableInv(c, s);
    RootsFit(c, CAPACITY);
    forall w | Enabled(c, s, Push(w)) ensures |s.queue| < CAPACITY {
      PushFits(c, s, w);
    }
  }

  /** On such a tree every interleaving lists exactly the expected files. */
  lemma NarrowScanIsComplete(c: Config, s: State, f: Path)
    requires ValidTree(c.tree) && c.workers > 0 && Reachable(c, s) && s.main.Returned?
    requires WidthAtMost(c, CAPACITY)
    ensures Distinct(s.files) && s.counter == |s.files|
    ensures f in s.files <==> Expected(c.tree, c.patterns, f)
  {
    NothingDropped(c, s);
    ListedIff(c, s, f);
  }

  /** In particular a scan of at most 64 directories that are not ignored is complete. */
  lemma SmallScanIsComplete(c: Config, s: State, f: Path)
    requires ValidTree(c.tree) && c.workers > 0 && Reachable(c, s) && s.main.Returned?
    requires |LiveDirs(c.tree, c.patterns)| <= CAPACITY
    ensures Distinct(s.files) && s.counter == |s.files|
    ensures f in s.files <==> Expected(c.tree, c.patterns, f)
  {
    FewDirsNarrow(c, CAPACITY);
    NarrowScanIsComplete(c, s, f);
  }

  // --- nothing is walked twice ------------------------------------------------------------

  /** How far a directory has got. */
  ghost function Rank(s: State, d: Path): nat {
    if d !in s.places then 0
    else match s.places[d]
      case Queued => 1
      case With(_) => 2
      case Walked => 3
      case Dropped => 3
  }

  lemma StepMovesForward(c: Config, s: State, step: Step, d: Path)
    requires ValidTree(c.tree) && Inv(c, s) && Enabled(c, s, step)
    ensures Rank(s, d) <= Rank(Next(c, s, step), d)
  {
    match step
    case Enqueue => NextRootIsNew(c, s);
    case Push(w) => NextSubIsNew(c, s, w);
    case Receive(w) => assert s.queue[0] in s.queue;
    case EndPush(w) =>
    case _ =>
  }

  lemma {:induction false} RunMovesForward(c: Config, steps: seq<Step>, states: seq<State>, i: nat, j: nat, d: Path)
    requires ValidTree(c.tree) && c.workers > 0 && Run(c, steps, states) && i <= j <= |steps|
    ensures Rank(states[i], d) <= Rank(states[j], d)
    decreases j
  {
    if i < j {
      RunMovesForward(c, steps, states, i, j - 1, d);
      RunKeepsInv(c, steps, states, j - 1);
      StepMovesForward(c, states[j - 1], steps[j - 1], d);
    }
  }

  /** No directory is walked twice: two receives in a run never take the same one. */
  lemma TakenOnce(c: Config, steps: seq<Step>, states: seq<State>, i: nat, j: nat)
    requires ValidTree(c.tree) && c.workers > 0 && Run(c, steps, states) && i < j < |steps|
    requires steps[i].Receive? && steps[j].Receive?
    ensures states[i].queue != [] && states[j].queue != [] && states[i].queue[0] != states[j].queue[0]
  {
    var d := states[i].queue[0];
    RunKeepsInv(c, steps, states, j);
    RunMovesForward(c, steps, states, i + 1, j, d);
    assert states[j].queue[0] in states[j].queue;
  }
}
