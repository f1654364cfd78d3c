/**
 The scanner's worker pool as a state machine over all interleavings: the main goroutine fills a
 bounded queue and starts the workers; each worker takes a directory if the queue has one and
 exits otherwise, walks it entry by entry, and offers its subdirectories to the queue, dropping
 those that do not fit.
 */
module ScanPool {
  import opened Order
  import opened ScanTree

  const CAPACITY := 64

  datatype Config = Config(tree: Tree, patterns: seq<string>, workers: nat)

  datatype Main = Enqueuing(next: nat) | Spawning(next: nat) | Waiting | Returned

  /**
   A worker walking `dir` has dealt with `next` entries and found `subs`; `counting` says that it
   has appended a file and not yet bumped the counter. A pushing one has offered `next` of `subs`.
   */
  datatype Worker =
    | Idle
    | Walking(dir: Path, next: nat, subs: seq<Path>, counting: bool)
    | Pushing(dir: Path, subs: seq<Path>, next: nat)
    | Exited

  /** Where a directory that has been discovered is now; kept for the proofs only. */
  datatype Place = Queued | With(worker: nat) | Walked | Dropped

  datatype State = State(
    main: Main, queue: seq<Path>, workers: seq<Worker>, files: seq<Path>, counter: nat, places: map<Path, Place>)

  datatype Step =
    | Enqueue
    | StartSpawning
    | Spawn
    | StopSpawning
    | Receive(w: nat)
    | Exit(w: nat)
    | Entry(w: nat)
    | CountFile(w: nat)
    | EndWalk(w: nat)
    | Push(w: nat)
    | EndPush(w: nat)
    | Return

  function Roots(c: Config): seq<Path> {
    RootDirs(c.patterns, Listing(c.tree, []))
  }

  /** The scan of the root's own files is over; without directories there is nothing else to do. */
  function Start(c: Config): State {
    var files := RootFiles(c.patterns, Listing(c.tree, []));
    State(if Roots(c) == [] then Returned else Enqueuing(0), [], [], files, |files|, map[])
  }

  predicate Enabled(c: Config, s: State, step: Step) {
    match step
    case Enqueue => s.main.Enqueuing? && s.main.next < |Roots(c)| && |s.queue| < CAPACITY
    case StartSpawning => s.main.Enqueuing? && s.main.next == |Roots(c)|
    case Spawn => s.main.Spawning? && s.main.next < c.workers
    case StopSpawning => s.main.Spawning? && s.main.next == c.workers
    case Receive(w) => w < |s.workers| && s.workers[w].Idle? && s.queue != []
    case Exit(w) => w < |s.workers| && s.workers[w].Idle? && s.queue == []
    case Entry(w) =>
      && w < |s.workers| && s.workers[w].Walking? && !s.workers[w].counting
      && s.workers[w].next < |Listing(c.tree, s.workers[w].dir)|
    case CountFile(w) => w < |s.workers| && s.workers[w].Walking? && s.workers[w].counting
    case EndWalk(w) =>
      && w < |s.workers| && s.workers[w].Walking? && !s.workers[w].counting
      && s.workers[w].next == |Listing(c.tree, s.workers[w].dir)|
    case Push(w) => w < |s.workers| && s.workers[w].Pushing? && s.workers[w].next < |s.workers[w].subs|
    case EndPush(w) => w < |s.workers| && s.workers[w].Pushing? && s.workers[w].next == |s.workers[w].subs|
    case Return => s.main == Waiting && forall w | 0 <= w < |s.workers| :: s.workers[w].Exited?
  }

  function WithWorker(s: State, w: nat, worker: Worker): State
    requires w < |s.workers|
  {
    s.(workers := s.workers[w := worker])
  }

  /** A walking worker deals with its next entry. */
  function EntryNext(c: Config, s: State, w: nat): State
    requires Enabled(c, s, Entry(w))
  {
    var Walking(dir, next, subs, _) := s.workers[w];
    var e := Listing(c.tree, dir)[next];
    if Ignored(c.patterns, dir, e) then WithWorker(s, w, Walking(dir, next + 1, subs, false))
    else if e.isDir then WithWorker(s, w, Walking(dir, next + 1, subs + [dir + [e.name]], false))
    else WithWorker(s, w, Walking(dir, next + 1, subs, true)).(files := s.files + [dir + [e.name]])
  }

  /** A pushing worker offers its next subdirectory. */
  function PushNext(c: Config, s: State, w: nat): State
    requires Enabled(c, s, Push(w))
  {
    var Pushing(dir, subs, next) := s.workers[w];
    var s' := WithWorker(s, w, Pushing(dir, subs, next + 1));
    if |s.queue| < CAPACITY then s'.(queue := s.queue + [subs[next]], places := s.places[subs[next] := Queued])
    else s'.(places := s.places[subs[next] := Dropped])
  }

  function Next(c: Config, s: State, step: Step): State
    requires Enabled(c, s, step)
  {
    match step
    case Enqueue =>
      var d := Roots(c)[s.main.next];
      s.(main := Enqueuing(s.main.next + 1), queue := s.queue + [d], places := s.places[d := Queued])
    case StartSpawning => s.(main := Spawning(0))
    case Spawn => s.(main := Spawning(s.main.next + 1), workers := s.workers + [Idle])
    case StopSpawning => s.(main := Waiting)
    case Receive(w) =>
      var d := s.queue[0];
      WithWorker(s, w, Walking(d, 0, [], false)).(queue := s.queue[1..], places := s.places[d := With(w)])
    case Exit(w) => WithWorker(s, w, Exited)
    case Entry(w) => EntryNext(c, s, w)
    case CountFile(w) => WithWorker(s, w, s.workers[w].(counting := false)).(counter := s.counter + 1)
    case EndWalk(w) => WithWorker(s, w, Pushing(s.workers[w].dir, s.workers[w].subs, 0))
    case Push(w) => PushNext(c, s, w)
    case EndPush(w) => WithWorker(s, w, Idle).(places := s.places[s.workers[w].dir := Walked])
    case Return => s.(main := Returned)
  }

  /** The states an interleaving goes through. */
  ghost predicate Run(c: Config, steps: seq<Step>, states: seq<State>) {
    && |states| == |steps| + 1 && states[0] == Start(c)
    && forall i | 0 <= i < |steps| :: Enabled(c, states[i], steps[i]) && states[i + 1] == Next(c, states[i], steps[i])
  }

  ghost predicate Reachable(c: Config, s: State) {
    exists steps, states :: Run(c, steps, states) && states[|steps|] == s
  }

  // --- the invariant ----------------------------------------------------------------------

  predicate Active(w: Worker) {
    w.Walking? || w.Pushing?
  }

  ghost function SubDirsOf(c: Config, dir: Path): seq<Path> {
    SubDirs(c.patterns, dir, Listing(c.tree, dir))
  }

  /** The main goroutine's phase fits the workers it has started. */
  ghost predicate PhaseOk(c: Config, s: State) {
    match s.main
    case Enqueuing(k) => k <= |Roots(c)| && s.queue == Roots(c)[..k] && s.workers == []
    case Spawning(k) => k == |s.workers| <= c.workers
    case Waiting => |s.workers| == c.workers
    case Returned => forall w | 0 <= w < |s.workers| :: s.workers[w].Exited?
  }

  /** The queue and the workers hold exactly the directories recorded there, none twice. */
  ghost predicate PlacesOk(queue: seq<Path>, workers: seq<Worker>, places: map<Path, Place>) {
    && Distinct(queue)
    && (forall d | d in queue :: d in places && places[d] == Queued)
    && (forall d | d in places && places[d] == Queued :: d in queue)
    && (forall w | 0 <= w < |workers| && Active(workers[w]) ::
          workers[w].dir in places && places[workers[w].dir] == With(w))
    && (forall d | d in places && places[d].With? :: HeldBy(workers, places[d].worker, d))
  }

  predicate HeldBy(workers: seq<Worker>, w: nat, d: Path) {
    w < |workers| && Active(workers[w]) && workers[w].dir == d
  }

  /** Each worker's local variables are those of its walk so far. */
  ghost predicate WorkerOk(c: Config, w: Worker) {
    match w
    case Walking(dir, next, subs, _) =>
      next <= |Listing(c.tree, dir)| && subs == SubDirs(c.patterns, dir, Listing(c.tree, dir)[..next])
    case Pushing(dir, subs, next) => next <= |subs| && subs == SubDirsOf(c, dir)
    case Idle => true
    case Exited => true
  }

  ghost predicate WorkersOk(c: Config, workers: seq<Worker>) {
    forall w | 0 <= w < |workers| :: WorkerOk(c, workers[w])
  }

  /** The root directories the main goroutine has put into the queue. */
  function Enqueued(c: Config, main: Main): seq<Path> {
    if main.Enqueuing? && main.next <= |Roots(c)| then Roots(c)[..main.next] else Roots(c)
  }

  /** The directory has been offered to the queue: by the main goroutine or by its parent's walker. */
  ghost predicate Offered(c: Config, s: State, p: Path) {
    if |p| <= 1 then p in Enqueued(c, s.main)
    else ParentOf(p) in s.places && OfferedFrom(c, s.workers, s.places[ParentOf(p)], ParentOf(p), p)
  }

  ghost predicate OfferedFrom(c: Config, workers: seq<Worker>, place: Place, q: Path, p: Path) {
    match place
    case Queued => false
    case Dropped => false
    case Walked => p in SubDirsOf(c, q)
    case With(w) => w < |workers| && OfferedBy(workers[w], p)
  }

  predicate OfferedBy(w: Worker, p: Path) {
    w.Pushing? && w.next <= |w.subs| && p in w.subs[..w.next]
  }

  /** The file has been listed: it is in the root, or its directory's walker has come past it. */
  ghost predicate Listed(c: Config, s: State, f: Path) {
    if |f| <= 1 then f in RootFiles(c.patterns, Listing(c.tree, []))
    else ParentOf(f) in s.places && ListedFrom(c, s.workers, s.places[ParentOf(f)], ParentOf(f), f)
  }

  ghost predicate ListedFrom(c: Config, workers: seq<Worker>, place: Place, q: Path, f: Path) {
    match place
    case Queued => false
    case Dropped => false
    case Walked => f in FilesIn(c.patterns, q, Listing(c.tree, q))
    case With(w) => w < |workers| && ListedBy(c, workers[w], q, f)
  }

  ghost predicate ListedBy(c: Config, w: Worker, q: Path, f: Path) {
    match w
    case Walking(_, next, _, _) =>
      next <= |Listing(c.tree, q)| && f in FilesIn(c.patterns, q, Listing(c.tree, q)[..next])
    case Pushing(_, _, _) => f in FilesIn(c.patterns, q, Listing(c.tree, q))
    case Idle => false
    case Exited => false
  }

  /** Someone will look at the queue again. */
  ghost predicate SomeoneAlive(c: Config, s: State) {
    || s.main.Enqueuing?
    || (s.main.Spawning? && s.main.next < c.workers)
    || exists w :: 0 <= w < |s.workers| && !s.workers[w].Exited?
  }

  function Sum(ns: seq<nat>): nat {
    if ns == [] then 0 else Sum(ns[..|ns| - 1]) + ns[|ns| - 1]
  }

  function PendingCount(w: Worker): nat {
    if w.Walking? && w.counting then 1 else 0
  }

  function Pending(ws: seq<Worker>): seq<nat> {
    seq(|ws|, i requires 0 <= i < |ws| => PendingCount(ws[i]))
  }

  ghost predicate DirsOk(c: Config, s: State) {
    forall p {:trigger Offered(c, s, p)} :: p in s.places <==> Offered(c, s, p)
  }

  ghost predicate FilesOk(c: Config, s: State) {
    Distinct(s.files) && forall f :: f in s.files <==> Listed(c, s, f)
  }

  /** Every appended file is counted, but for the counts still to be made. */
  ghost predicate CountOk(s: State) {
    s.counter + Sum(Pending(s.workers)) == |s.files|
  }

  ghost predicate QueueOk(c: Config, s: State) {
    |s.queue| <= CAPACITY && (s.queue != [] ==> SomeoneAlive(c, s))
  }

  ghost predicate Inv(c: Config, s: State) {
    && PhaseOk(c, s) && PlacesOk(s.queue, s.workers, s.places) && WorkersOk(c, s.workers)
    && DirsOk(c, s) && FilesOk(c, s) && CountOk(s) && QueueOk(c, s)
  }
}
