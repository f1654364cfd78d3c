/** Every step of the scanner's pool keeps the invariant. */
module ScanPoolSteps {
  import opened Order
  import opened ScanTree
  import opened ScanPool

  lemma {:induction false} SumUpdate(ns: seq<nat>, k: nat, x: nat)
    requires k < |ns|
    ensures Sum(ns[k := x]) == Sum(ns) - ns[k] + x
  {
    var n := |ns| - 1;
    if k < n {
      SumUpdate(ns[..n], k, x);
      assert ns[k := x][..n] == ns[..n][k := x];
    } else {
      assert ns[k := x][..n] == ns[..n];
    }
  }

  lemma PendingUpdate(ws: seq<Worker>, w: nat, worker: Worker)
    requires w < |ws|
    ensures Sum(Pending(ws[w := worker])) == Sum(Pending(ws)) - PendingCount(ws[w]) + PendingCount(worker)
  {
    assert Pending(ws[w := worker]) == Pending(ws)[w := PendingCount(worker)];
    SumUpdate(Pending(ws), w, PendingCount(worker));
  }

  lemma PendingAppend(ws: seq<Worker>)
    ensures Sum(Pending(ws + [Idle])) == Sum(Pending(ws))
  {
    assert Pending(ws + [Idle]) == Pending(ws) + [0];
    assert (Pending(ws) + [0])[..|ws|] == Pending(ws);
  }

  lemma ListingDistinct(c: Config, dir: Path)
    requires ValidTree(c.tree)
    ensures DistinctNames(Listing(c.tree, dir))
  {}

  /** What the walk of the root yields. */
  lemma RootsFacts(c: Config)
    requires ValidTree(c.tree)
    ensures Distinct(Roots(c))
    ensures forall p :: p in Roots(c) <==> |p| == 1 && KeptEntry(c.patterns, [], Listing(c.tree, []), p, true)
  {
    ListingDistinct(c, []);
    RootDirsExactly(c.patterns, Listing(c.tree, []));
  }

  lemma SubDirsFacts(c: Config, dir: Path)
    requires ValidTree(c.tree)
    ensures Distinct(SubDirsOf(c, dir))
    ensures forall p :: p in SubDirsOf(c, dir) <==> KeptEntry(c.patterns, dir, Listing(c.tree, dir), p, true)
    ensures forall p | p in SubDirsOf(c, dir) :: p != [] && ParentOf(p) == dir
  {
    ListingDistinct(c, dir);
    SubDirsExactly(c.patterns, dir, Listing(c.tree, dir));
  }

  lemma PlacesNonEmpty(c: Config, s: State, p: Path)
    requires ValidTree(c.tree) && Inv(c, s) && p in s.places
    ensures p != []
  {
    RootsFacts(c);
    assert Offered(c, s, p);
  }

  lemma StartKeepsInv(c: Config)
    requires ValidTree(c.tree)
    ensures Inv(c, Start(c))
  {
    ListingDistinct(c, []);
    RootFilesExactly(c.patterns, Listing(c.tree, []));
  }

  // --- where the directories are ----------------------------------------------------------

  lemma PlaceNew(queue: seq<Path>, workers: seq<Worker>, places: map<Path, Place>, d: Path)
    requires PlacesOk(queue, workers, places) && d !in places
    ensures PlacesOk(queue + [d], workers, places[d := Queued])
    ensures PlacesOk(queue, workers, places[d := Dropped])
  {
    assert forall i | 0 <= i < |queue| :: queue[i] in queue;
  }

  lemma PlaceWorkerAdded(queue: seq<Path>, workers: seq<Worker>, places: map<Path, Place>)
    requires PlacesOk(queue, workers, places)
    ensures PlacesOk(queue, workers + [Idle], places)
  {
    assert forall d | d in places && places[d].With? :: HeldBy(workers, places[d].worker, d);
  }

  lemma PlaceTaken(queue: seq<Path>, workers: seq<Worker>, places: map<Path, Place>, w: nat, worker: Worker)
    requires PlacesOk(queue, workers, places) && queue != []
    requires w < |workers| && !Active(workers[w]) && Active(worker) && worker.dir == queue[0]
    ensures PlacesOk(queue[1..], workers[w := worker], places[queue[0] := With(w)])
  {
    var d, places', workers' := queue[0], places[queue[0] := With(w)], workers[w := worker];
    assert queue == [d] + queue[1..];
    assert d in queue && places[d] == Queued;
    forall e | e in places' && places'[e].With? ensures HeldBy(workers', places'[e].worker, e) {
      if e != d {
        assert HeldBy(workers, places[e].worker, e);
      }
    }
  }

  /** The worker keeps its directory, or it had and has none. */
  lemma PlaceKept(queue: seq<Path>, workers: seq<Worker>, places: map<Path, Place>, w: nat, worker: Worker)
    requires PlacesOk(queue, workers, places) && w < |workers|
    requires if Active(workers[w]) then Active(worker) && worker.dir == workers[w].dir else !Active(worker)
    ensures PlacesOk(queue, workers[w := worker], places)
  {
    forall e | e in places && places[e].With? ensures HeldBy(workers[w := worker], places[e].worker, e) {
      assert HeldBy(workers, places[e].worker, e);
    }
  }

  lemma PlaceReleased(queue: seq<Path>, workers: seq<Worker>, places: map<Path, Place>, w: nat)
    requires PlacesOk(queue, workers, places) && w < |workers| && Active(workers[w])
    ensures PlacesOk(queue, workers[w := Idle], places[workers[w].dir := Walked])
  {
    var places' := places[workers[w].dir := Walked];
    forall e | e in places' && places'[e].With? ensures HeldBy(workers[w := Idle], places'[e].worker, e) {
      assert HeldBy(workers, places[e].worker, e);
    }
  }

  // --- what a step does not touch ---------------------------------------------------------

  /** Directory `q` is where it was, and its worker, if it has one, has not moved. */
  ghost predicate SameView(s: State, s': State, q: Path) {
    && (q in s.places <==> q in s'.places)
    && (q in s.places ==>
          && s'.places[q] == s.places[q]
          && (s.places[q].With? ==> var w := s.places[q].worker;
                w < |s.workers| && w < |s'.workers| && s'.workers[w] == s.workers[w]))
  }

  lemma ViewDecides(c: Config, s: State, s': State, p: Path)
    requires |p| > 1 && SameView(s, s', ParentOf(p))
    ensures Offered(c, s, p) <==> Offered(c, s', p)
    ensures Listed(c, s, p) <==> Listed(c, s', p)
  {}

  /** A directory just placed has offered and listed nothing. */
  lemma NewPlaceSilent(c: Config, s: State, s': State, p: Path)
    requires |p| > 1 && ParentOf(p) !in s.places
    requires ParentOf(p) in s'.places && (s'.places[ParentOf(p)] == Queued || s'.places[ParentOf(p)] == Dropped)
    ensures !Offered(c, s, p) && !Offered(c, s', p)
    ensures !Listed(c, s, p) && !Listed(c, s', p)
  {}

  /** Only worker `w` moved, and it does not hold `q`. */
  lemma OtherDirSameView(s: State, s': State, w: nat, q: Path)
    requires PlacesOk(s.queue, s.workers, s.places) && w < |s.workers|
    requires |s'.workers| == |s.workers| && forall v | 0 <= v < |s.workers| && v != w :: s'.workers[v] == s.workers[v]
    requires q in s.places <==> q in s'.places
    requires q in s.places ==> s'.places[q] == s.places[q]
    requires !(Active(s.workers[w]) && s.workers[w].dir == q)
    ensures SameView(s, s', q)
  {
    if q in s.places && s.places[q].With? {
      assert HeldBy(s.workers, s.places[q].worker, q);
    }
  }

  // --- the main goroutine's steps ---------------------------------------------------------

  lemma EnqueueKeepsInv(c: Config, s: State)
    requires ValidTree(c.tree) && Inv(c, s) && Enabled(c, s, Enqueue)
    ensures Inv(c, Next(c, s, Enqueue))
  {
    NextRootIsNew(c, s);
    PlaceNew(s.queue, s.workers, s.places, Roots(c)[s.main.next]);
    EnqueueOffers(c, s);
    assert Roots(c)[..s.main.next + 1] == Roots(c)[..s.main.next] + [Roots(c)[s.main.next]];
  }

  lemma NextRootIsNew(c: Config, s: State)
    requires ValidTree(c.tree) && PhaseOk(c, s) && DirsOk(c, s) && Enabled(c, s, Enqueue)
    ensures Roots(c)[s.main.next] !in s.places && |Roots(c)[s.main.next]| == 1
  {
    var k, d := s.main.next, Roots(c)[s.main.next];
    RootsFacts(c);
    assert d in Roots(c);
    assert d !in Roots(c)[..k];
    assert !Offered(c, s, d);
  }

  lemma EnqueueOffers(c: Config, s: State)
    requires PhaseOk(c, s) && DirsOk(c, s) && FilesOk(c, s) && Enabled(c, s, Enqueue)
    requires Roots(c)[s.main.next] !in s.places && |Roots(c)[s.main.next]| == 1
    ensures DirsOk(c, Next(c, s, Enqueue)) && FilesOk(c, Next(c, s, Enqueue))
  {
    var s', d := Next(c, s, Enqueue), Roots(c)[s.main.next];
    assert Roots(c)[..s.main.next + 1] == Roots(c)[..s.main.next] + [d];
    forall p ensures (Offered(c, s', p) <==> Offered(c, s, p) || p == d) && (Listed(c, s', p) <==> Listed(c, s, p)) {
      if |p| > 1 && ParentOf(p) == d {
        NewPlaceSilent(c, s, s', p);
      } else if |p| > 1 {
        assert s.workers == [] && s'.workers == [];
      }
    }
  }

  lemma SameDirsAndFiles(c: Config, s: State, s': State)
    requires DirsOk(c, s) && FilesOk(c, s)
    requires Enqueued(c, s.main) == Enqueued(c, s'.main) && s'.places == s.places && s'.files == s.files
    requires PlacesOk(s.queue, s.workers, s.places) && s.workers <= s'.workers
    ensures DirsOk(c, s') && FilesOk(c, s')
  {
    forall p ensures (Offered(c, s', p) <==> Offered(c, s, p)) && (Listed(c, s', p) <==> Listed(c, s, p)) {
      if |p| > 1 {
        var q := ParentOf(p);
        if q in s.places && s.places[q].With? {
          assert HeldBy(s.workers, s.places[q].worker, q);
        }
        ViewDecides(c, s, s', p);
      }
    }
  }

  lemma MainKeepsInv(c: Config, s: State, step: Step)
    requires c.workers > 0 && Inv(c, s)
    requires step in {StartSpawning, StopSpawning, Return} && Enabled(c, s, step)
    ensures Inv(c, Next(c, s, step))
  {
    assert Roots(c)[..|Roots(c)|] == Roots(c);
    SameDirsAndFiles(c, s, Next(c, s, step));
  }

  lemma SpawnKeepsInv(c: Config, s: State)
    requires Inv(c, s) && Enabled(c, s, Spawn)
    ensures Inv(c, Next(c, s, Spawn))
  {
    var s' := Next(c, s, Spawn);
    PendingAppend(s.workers);
    PlaceWorkerAdded(s.queue, s.workers, s.places);
    SameDirsAndFiles(c, s, s');
    assert s'.workers[|s.workers|] == Idle;
  }

  // --- the workers' steps -----------------------------------------------------------------

  lemma WorkersUpdate(c: Config, workers: seq<Worker>, w: nat, worker: Worker)
    requires WorkersOk(c, workers) && w < |workers| && WorkerOk(c, worker)
    ensures WorkersOk(c, workers[w := worker])
  {}

  lemma ReceiveOffers(c: Config, s: State, w: nat)
    requires PlacesOk(s.queue, s.workers, s.places) && DirsOk(c, s) && FilesOk(c, s) && Enabled(c, s, Receive(w))
    ensures DirsOk(c, Next(c, s, Receive(w))) && FilesOk(c, Next(c, s, Receive(w)))
  {
    var s', d := Next(c, s, Receive(w)), s.queue[0];
    assert d in s.queue;
    assert Listing(c.tree, d)[..0] == [];
    forall p ensures (Offered(c, s', p) <==> Offered(c, s, p)) && (Listed(c, s', p) <==> Listed(c, s, p)) {
      if |p| > 1 && ParentOf(p) != d {
        OtherDirSameView(s, s', w, ParentOf(p));
        ViewDecides(c, s, s', p);
      }
    }
  }

  lemma ReceiveKeepsInv(c: Config, s: State, w: nat)
    requires Inv(c, s) && Enabled(c, s, Receive(w))
    ensures Inv(c, Next(c, s, Receive(w)))
  {
    var s', d := Next(c, s, Receive(w)), s.queue[0];
    assert Listing(c.tree, d)[..0] == [];
    PlaceTaken(s.queue, s.workers, s.places, w, s'.workers[w]);
    WorkersUpdate(c, s.workers, w, s'.workers[w]);
    PendingUpdate(s.workers, w, s'.workers[w]);
    ReceiveOffers(c, s, w);
    assert !s'.workers[w].Exited?;
  }

  lemma ExitKeepsInv(c: Config, s: State, w: nat)
    requires Inv(c, s) && Enabled(c, s, Exit(w))
    ensures Inv(c, Next(c, s, Exit(w)))
  {
    var s' := Next(c, s, Exit(w));
    PlaceKept(s.queue, s.workers, s.places, w, Exited);
    WorkersUpdate(c, s.workers, w, Exited);
    PendingUpdate(s.workers, w, Exited);
    forall p ensures (Offered(c, s', p) <==> Offered(c, s, p)) && (Listed(c, s', p) <==> Listed(c, s, p)) {
      if |p| > 1 {
        OtherDirSameView(s, s', w, ParentOf(p));
        ViewDecides(c, s, s', p);
      }
    }
  }

  /** What dealing with one more entry adds to the two lists. */
  lemma OneMoreEntry(c: Config, dir: Path, n: nat)
    requires ValidTree(c.tree) && n < |Listing(c.tree, dir)|
    ensures var es := Listing(c.tree, dir);
            var e := es[n];
            && FilesIn(c.patterns, dir, es[..n + 1]) == FilesIn(c.patterns, dir, es[..n]) +
                 (if !Ignored(c.patterns, dir, e) && !e.isDir then [dir + [e.name]] else [])
            && SubDirs(c.patterns, dir, es[..n + 1]) == SubDirs(c.patterns, dir, es[..n]) +
                 (if !Ignored(c.patterns, dir, e) && e.isDir then [dir + [e.name]] else [])
            && dir + [e.name] !in FilesIn(c.patterns, dir, es[..n])
  {
    var es := Listing(c.tree, dir);
    ListingDistinct(c, dir);
    OneMore(c.patterns, dir, es, n);
    FilesInExactly(c.patterns, dir, es[..n]);
    assert forall x | x in es[..n] :: x.name != es[n].name;
  }

  /** The file the entry adds, if it adds one. */
  function NewFile(c: Config, s: State, w: nat): seq<Path>
    requires Enabled(c, s, Entry(w))
  {
    var dir := s.workers[w].dir;
    var e := Listing(c.tree, dir)[s.workers[w].next];
    if !Ignored(c.patterns, dir, e) && !e.isDir then [dir + [e.name]] else []
  }

  /** The entry's file is new and is all that the step lists. */
  lemma EntryLists(c: Config, s: State, w: nat, p: Path)
    requires ValidTree(c.tree)
    requires PlacesOk(s.queue, s.workers, s.places) && Enabled(c, s, Entry(w)) && s.workers[w].dir != []
    ensures Offered(c, Next(c, s, Entry(w)), p) <==> Offered(c, s, p)
    ensures Listed(c, Next(c, s, Entry(w)), p) <==> Listed(c, s, p) || p in NewFile(c, s, w)
    ensures p in NewFile(c, s, w) ==> !Listed(c, s, p)
  {
    var s', dir := Next(c, s, Entry(w)), s.workers[w].dir;
    OneMoreEntry(c, dir, s.workers[w].next);
    if |p| > 1 && ParentOf(p) != dir {
      OtherDirSameView(s, s', w, ParentOf(p));
      ViewDecides(c, s, s', p);
    }
  }

  lemma EntryOffers(c: Config, s: State, w: nat)
    requires ValidTree(c.tree)
    requires PlacesOk(s.queue, s.workers, s.places) && DirsOk(c, s) && FilesOk(c, s) && Enabled(c, s, Entry(w))
    requires s.workers[w].dir != []
    ensures DirsOk(c, Next(c, s, Entry(w))) && FilesOk(c, Next(c, s, Entry(w)))
  {
    var s', more := Next(c, s, Entry(w)), NewFile(c, s, w);
    assert s'.files == s.files + more;
    forall p
      ensures Offered(c, s', p) <==> Offered(c, s, p)
      ensures Listed(c, s', p) <==> Listed(c, s, p) || p in more
      ensures p in more ==> p !in s.files
    {
      EntryLists(c, s, w, p);
    }
    assert forall i | 0 <= i < |s.files| :: s.files[i] in s.files;
  }

  lemma EntryKeepsInv(c: Config, s: State, w: nat)
    requires ValidTree(c.tree) && Inv(c, s) && Enabled(c, s, Entry(w))
    ensures Inv(c, Next(c, s, Entry(w)))
  {
    var s', dir, n := Next(c, s, Entry(w)), s.workers[w].dir, s.workers[w].next;
    PlacesNonEmpty(c, s, dir);
    OneMoreEntry(c, dir, n);
    PlaceKept(s.queue, s.workers, s.places, w, s'.workers[w]);
    WorkersUpdate(c, s.workers, w, s'.workers[w]);
    PendingUpdate(s.workers, w, s'.workers[w]);
    EntryOffers(c, s, w);
    assert !s'.workers[w].Exited?;
  }

  /** A step that changes worker `w` alone and neither what it has offered nor what it has listed. */
  lemma QuietStep(c: Config, s: State, s': State, w: nat)
    requires PlacesOk(s.queue, s.workers, s.places) && DirsOk(c, s) && FilesOk(c, s) && w < |s.workers|
    requires Active(s.workers[w]) && |s'.workers| == |s.workers|
    requires s'.workers == s.workers[w := s'.workers[w]] && s'.main == s.main && s'.files == s.files
    requires var dir := s.workers[w].dir; s'.places == s.places || s'.places == s.places[dir := Walked]
    requires forall p | |p| > 1 && ParentOf(p) == s.workers[w].dir ::
               && (Offered(c, s, p) <==> Offered(c, s', p))
               && (Listed(c, s, p) <==> Listed(c, s', p))
    ensures DirsOk(c, s') && FilesOk(c, s')
  {
    forall p ensures (Offered(c, s', p) <==> Offered(c, s, p)) && (Listed(c, s', p) <==> Listed(c, s, p)) {
      if |p| > 1 && ParentOf(p) != s.workers[w].dir {
        OtherDirSameView(s, s', w, ParentOf(p));
        ViewDecides(c, s, s', p);
      }
    }
  }

  lemma CountFileKeepsInv(c: Config, s: State, w: nat)
    requires Inv(c, s) && Enabled(c, s, CountFile(w))
    ensures Inv(c, Next(c, s, CountFile(w)))
  {
    var s' := Next(c, s, CountFile(w));
    PlaceKept(s.queue, s.workers, s.places, w, s'.workers[w]);
    WorkersUpdate(c, s.workers, w, s'.workers[w]);
    PendingUpdate(s.workers, w, s'.workers[w]);
    QuietStep(c, s, s', w);
    assert !s'.workers[w].Exited?;
  }

  lemma EndWalkKeepsInv(c: Config, s: State, w: nat)
    requires Inv(c, s) && Enabled(c, s, EndWalk(w))
    ensures Inv(c, Next(c, s, EndWalk(w)))
  {
    var s', es := Next(c, s, EndWalk(w)), Listing(c.tree, s.workers[w].dir);
    assert es[..|es|] == es;
    PlaceKept(s.queue, s.workers, s.places, w, s'.workers[w]);
    WorkersUpdate(c, s.workers, w, s'.workers[w]);
    PendingUpdate(s.workers, w, s'.workers[w]);
    QuietStep(c, s, s', w);
    assert !s'.workers[w].Exited?;
  }

  lemma EndPushKeepsInv(c: Config, s: State, w: nat)
    requires Inv(c, s) && Enabled(c, s, EndPush(w))
    ensures Inv(c, Next(c, s, EndPush(w)))
  {
    var s', subs := Next(c, s, EndPush(w)), s.workers[w].subs;
    assert subs[..|subs|] == subs;
    PlaceReleased(s.queue, s.workers, s.places, w);
    WorkersUpdate(c, s.workers, w, Idle);
    PendingUpdate(s.workers, w, Idle);
    QuietStep(c, s, s', w);
    assert !s'.workers[w].Exited?;
  }

  /** The directory about to be offered is new. */
  lemma NextSubIsNew(c: Config, s: State, w: nat)
    requires ValidTree(c.tree) && Inv(c, s) && Enabled(c, s, Push(w))
    ensures var d := s.workers[w].subs[s.workers[w].next];
            d !in s.places && |d| > 1 && ParentOf(d) == s.workers[w].dir
            && KeptEntry(c.patterns, s.workers[w].dir, Listing(c.tree, s.workers[w].dir), d, true)
  {
    var dir, subs, n := s.workers[w].dir, s.workers[w].subs, s.workers[w].next;
    SubDirsFacts(c, dir);
    PlacesNonEmpty(c, s, dir);
    assert subs[n] in subs;
    assert subs[n] !in subs[..n];
    assert !Offered(c, s, subs[n]);
  }

  lemma PushOffers(c: Config, s: State, w: nat)
    requires PlacesOk(s.queue, s.workers, s.places) && DirsOk(c, s) && FilesOk(c, s) && Enabled(c, s, Push(w))
    requires var d := s.workers[w].subs[s.workers[w].next];
             d !in s.places && |d| > 1 && ParentOf(d) == s.workers[w].dir
    ensures DirsOk(c, Next(c, s, Push(w))) && FilesOk(c, Next(c, s, Push(w)))
  {
    var s', dir, subs, n := Next(c, s, Push(w)), s.workers[w].dir, s.workers[w].subs, s.workers[w].next;
    var d := subs[n];
    assert subs[..n + 1] == subs[..n] + [d];
    forall p ensures (Offered(c, s', p) <==> Offered(c, s, p) || p == d) && (Listed(c, s', p) <==> Listed(c, s, p)) {
      if |p| > 1 && ParentOf(p) == d {
        NewPlaceSilent(c, s, s', p);
      } else if |p| > 1 && ParentOf(p) != dir {
        OtherDirSameView(s, s', w, ParentOf(p));
        ViewDecides(c, s, s', p);
      }
    }
  }

  lemma PushKeepsInv(c: Config, s: State, w: nat)
    requires ValidTree(c.tree) && Inv(c, s) && Enabled(c, s, Push(w))
    ensures Inv(c, Next(c, s, Push(w)))
  {
    var s' := Next(c, s, Push(w));
    NextSubIsNew(c, s, w);
    PlaceKept(s.queue, s.workers, s.places, w, s'.workers[w]);
    PlaceNew(s.queue, s'.workers, s.places, s.workers[w].subs[s.workers[w].next]);
    WorkersUpdate(c, s.workers, w, s'.workers[w]);
    PendingUpdate(s.workers, w, s'.workers[w]);
    PushOffers(c, s, w);
    assert !s'.workers[w].Exited?;
  }

  // --- every run --------------------------------------------------------------------------

  /** Each step of each interleaving keeps the invariant. */
  lemma StepKeepsInv(c: Config, s: State, step: Step)
    requires ValidTree(c.tree) && c.workers > 0 && Inv(c, s) && Enabled(c, s, step)
    ensures Inv(c, Next(c, s, step))
  {
    match step
    case Enqueue => EnqueueKeepsInv(c, s);
    case StartSpawning => MainKeepsInv(c, s, step);
    case Spawn => SpawnKeepsInv(c, s);
    case StopSpawning => MainKeepsInv(c, s, step);
    case Receive(w) => ReceiveKeepsInv(c, s, w);
    case Exit(w) => ExitKeepsInv(c, s, w);
    case Entry(w) => EntryKeepsInv(c, s, w);
    case CountFile(w) => CountFileKeepsInv(c, s, w);
    case EndWalk(w) => EndWalkKeepsInv(c, s, w);
    case Push(w) => PushKeepsInv(c, s, w);
    case EndPush(w) => EndPushKeepsInv(c, s, w);
    case Return => MainKeepsInv(c, s, step);
  }

  lemma {:induction false} RunKeepsInv(c: Config, steps: seq<Step>, states: seq<State>, n: nat)
    requires ValidTree(c.tree) && c.workers > 0 && Run(c, steps, states) && n <= |steps|
    ensures Inv(c, states[n])
  {
    if n == 0 {
      StartKeepsInv(c);
    } else {
      RunKeepsInv(c, steps, states, n - 1);
      StepKeepsInv(c, states[n - 1], steps[n - 1]);
    }
  }

  lemma ReachableInv(c: Config, s: State)
    requires ValidTree(c.tree) && c.workers > 0 && Reachable(c, s)
    ensures Inv(c, s)
  {
    var steps, states :| Run(c, steps, states) && states[|steps|] == s;
    RunKeepsInv(c, steps, states, |steps|);
  }
}
