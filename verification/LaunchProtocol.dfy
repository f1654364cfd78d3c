/**
 The goroutines of a scheduler run as a state machine: the main goroutine launches the tasks of a
 given order one by one, then waits for all of them, closes the error channel and returns the
 first error in it; each launched task runs, and sends its error, if any, to the channel.
 */
module LaunchProtocol {
  import opened Order
  import opened TaskGraph

  datatype Progress = Running | Sending | Finished

  datatype Outcome = NoError | FirstError(task: Id)

  datatype Main = Launching(next: nat) | Waiting | Returned(outcome: Outcome)

  /** `status` of the launched tasks, the error channel, and the tasks whose `Error` field is set. */
  datatype State = State(main: Main, status: map<Id, Progress>, channel: seq<Id>, errors: set<Id>)

  /** The tasks in launch order, which of them fail, and the capacity of the channel. */
  datatype Plan = Plan(order: seq<Id>, failing: set<Id>, capacity: nat)

  datatype Step =
    | Launch
    | AllLaunched
    | FnReturns(task: Id)
    | SendError(task: Id)
    | Return

  const Start := State(Launching(0), map[], [], {})

  predicate AllFinished(s: State) {
    forall t | t in s.status :: s.status[t] == Finished
  }

  predicate Enabled(p: Plan, s: State, step: Step) {
    match step
    case Launch => s.main.Launching? && s.main.next < |p.order|
    case AllLaunched => s.main.Launching? && s.main.next == |p.order|
    case FnReturns(t) => t in s.status && s.status[t] == Running
    case SendError(t) => t in s.status && s.status[t] == Sending && |s.channel| < p.capacity
    case Return => s.main == Waiting && AllFinished(s)
  }

  function Next(p: Plan, s: State, step: Step): State
    requires Enabled(p, s, step)
  {
    match step
    case Launch =>
      s.(main := Launching(s.main.next + 1), status := s.status[p.order[s.main.next] := Running])
    case AllLaunched => s.(main := Waiting)
    case FnReturns(t) =>
      if t in p.failing then s.(status := s.status[t := Sending], errors := s.errors + {t})
      else s.(status := s.status[t := Finished])
    case SendError(t) => s.(status := s.status[t := Finished], channel := s.channel + [t])
    case Return => s.(main := Returned(if s.channel == [] then NoError else FirstError(s.channel[0])))
  }

  /** The states an interleaving goes through. */
  ghost predicate Run(p: Plan, steps: seq<Step>, states: seq<State>) {
    && |states| == |steps| + 1 && states[0] == Start
    && forall i | 0 <= i < |steps| :: Enabled(p, states[i], steps[i]) && states[i + 1] == Next(p, states[i], steps[i])
  }

  ghost predicate Reachable(p: Plan, s: State) {
    exists steps, states :: Run(p, steps, states) && states[|steps|] == s
  }

  /** Both schedulers make the channel as large as the task table. */
  ghost predicate PlanOf(tasks: Tasks, declared: set<Id>, p: Plan) {
    && CompleteLaunch(tasks, declared, p.order) && declared <= tasks.Keys
    && p.capacity == |tasks|
    && (forall t | t in p.order && t in tasks :: t in p.failing <==> tasks[t].fn == Runs(true))
  }

  function Launched(p: Plan, s: State): seq<Id>
    requires s.main.Launching? ==> s.main.next <= |p.order|
  {
    if s.main.Launching? then p.order[..s.main.next] else p.order
  }

  ghost predicate Inv(p: Plan, s: State) {
    && (s.main.Launching? ==> s.main.next <= |p.order|)
    && s.status.Keys == Elems(Launched(p, s))
    && Distinct(s.channel)
    && (forall t :: t in s.channel <==> t in s.status && s.status[t] == Finished && t in p.failing)
    && (forall t :: t in s.errors <==> t in s.status && s.status[t] != Running && t in p.failing)
    && (forall t | t in s.status && s.status[t] == Sending :: t in p.failing)
    && (s.main.Returned? ==> AllFinished(s))
    && (s.main.Returned? ==> s.main.outcome == if s.channel == [] then NoError else FirstError(s.channel[0]))
  }

  lemma LaunchKeepsInv(p: Plan, s: State)
    requires Distinct(p.order) && Inv(p, s) && Enabled(p, s, Launch)
    ensures Inv(p, Next(p, s, Launch))
  {
    var k := s.main.next;
    assert p.order[..k + 1] == p.order[..k] + [p.order[k]];
    assert p.order[k] !in Elems(p.order[..k]);
  }

  lemma SendKeepsInv(p: Plan, s: State, t: Id)
    requires Inv(p, s) && Enabled(p, s, SendError(t))
    ensures Inv(p, Next(p, s, SendError(t)))
  {
    assert t !in s.channel;
    assert forall i | 0 <= i < |s.channel| :: s.channel[i] in s.channel;
  }

  lemma StepKeepsInv(p: Plan, s: State, step: Step)
    requires Distinct(p.order) && Inv(p, s) && Enabled(p, s, step)
    ensures Inv(p, Next(p, s, step))
  {
    match step
    case Launch => LaunchKeepsInv(p, s);
    case SendError(t) => SendKeepsInv(p, s, t);
    case AllLaunched => assert p.order[..|p.order|] == p.order;
    case FnReturns(_) =>
    case Return =>
  }

  lemma {:induction false} RunKeepsInv(p: Plan, steps: seq<Step>, states: seq<State>, n: nat)
    requires Distinct(p.order) && Run(p, steps, states) && n <= |steps|
    ensures Inv(p, states[n])
  {
    if n > 0 {
      RunKeepsInv(p, steps, states, n - 1);
      StepKeepsInv(p, states[n - 1], steps[n - 1]);
    }
  }

  lemma ReachableInv(tasks: Tasks, declared: set<Id>, p: Plan, s: State)
    requires PlanOf(tasks, declared, p) && Reachable(p, s)
    ensures Inv(p, s) && Distinct(p.order) && |p.order| <= p.capacity
  {
    LaunchedOnce(tasks, declared, p.order);
    var steps, states :| Run(p, steps, states) && states[|steps|] == s;
    RunKeepsInv(p, steps, states, |steps|);
    DistinctSize(p.order);
    SubsetSize(Elems(p.order), tasks.Keys);
    assert |tasks| == |tasks.Keys|;
  }

  lemma ChannelFits(p: Plan, s: State)
    requires Inv(p, s) && Distinct(p.order) && |p.order| <= p.capacity
    ensures |s.channel| <= p.capacity
    ensures (exists t :: t in s.status && s.status[t] == Sending) ==> |s.channel| < p.capacity
  {
    var launched := Launched(p, s);
    DistinctSize(s.channel);
    DistinctSize(p.order);
    assert Elems(launched) <= Elems(p.order);
    assert Elems(s.channel) <= Elems(p.order);
    SubsetSize(Elems(s.channel), Elems(p.order));
    if t :| t in s.status && s.status[t] == Sending {
      assert t in Elems(p.order) && t !in Elems(s.channel);
    }
  }

  /**
   In every interleaving the error channel stays within its capacity, and a goroutine that has an
   error to send can always send it: none ever blocks.
   */
  lemma NoSendBlocks(tasks: Tasks, declared: set<Id>, p: Plan, s: State, t: Id)
    requires PlanOf(tasks, declared, p) && Reachable(p, s)
    ensures |s.channel| <= p.capacity
    ensures t in s.status && s.status[t] == Sending ==> Enabled(p, s, SendError(t))
  {
    ReachableInv(tasks, declared, p, s);
    ChannelFits(p, s);
  }

  /**
   When `Run` has returned, every task of the launch order has finished; it returned an error iff
   some launched function failed, and then one of theirs; exactly the failed tasks carry an error.
   */
  lemma ReturnedOutcome(tasks: Tasks, declared: set<Id>, p: Plan, s: State)
    requires PlanOf(tasks, declared, p) && Reachable(p, s) && s.main.Returned?
    ensures s.status.Keys == Elems(p.order) && AllFinished(s)
    ensures s.main.outcome == NoError <==> forall t | t in p.order :: tasks[t].fn == Runs(false)
    ensures s.main.outcome.FirstError? ==>
              s.main.outcome.task in p.order && tasks[s.main.outcome.task].fn == Runs(true)
    ensures forall t :: t in s.errors <==> t in p.order && tasks[t].fn == Runs(true)
  {
    ReachableInv(tasks, declared, p, s);
    LaunchedOnce(tasks, declared, p.order);
    forall t | t in p.order ensures t in s.status && tasks[t].fn.Runs? {
      assert t in Elems(p.order);
      var k :| 0 <= k < |p.order| && p.order[k] == t;
      assert IsReady(tasks, declared, p.order[..k], p.order[k]);
    }
    if s.channel != [] {
      assert s.channel[0] in s.channel;
    }
    assert forall t | t in p.order :: t in p.failing <==> t in s.channel;
  }

  // --- every run ends ---------------------------------------------------------------------

  function Weight(g: Progress): nat {
    match g case Running => 2 case Sending => 1 case Finished => 0
  }

  ghost function Work(status: map<Id, Progress>): nat
    decreases |status.Keys|
  {
    if status.Keys == {} then 0
    else var t :| t in status.Keys; Weight(status[t]) + Work(status - {t})
  }

  lemma {:induction false} WorkOf(status: map<Id, Progress>, t: Id)
    requires t in status
    ensures Work(status) == Weight(status[t]) + Work(status - {t})
    decreases |status.Keys|
  {
    var u :| u in status.Keys && Work(status) == Weight(status[u]) + Work(status - {u});
    if u != t {
      WorkOf(status - {u}, t);
      WorkOf(status - {t}, u);
      assert status - {u} - {t} == status - {t} - {u};
    }
  }

  lemma WorkAfter(status: map<Id, Progress>, t: Id, g: Progress)
    ensures Work(status[t := g]) == Weight(g) + Work(status - {t})
  {
    WorkOf(status[t := g], t);
    assert status[t := g] - {t} == status - {t};
  }

  /** What is left: three units for a task not launched, two for one running, one for one sending. */
  ghost function Left(p: Plan, s: State): nat
    requires s.main.Launching? ==> s.main.next <= |p.order|
  {
    Work(s.status) + match s.main
                     case Launching(k) => 3 * (|p.order| - k) + 2
                     case Waiting => 1
                     case Returned(_) => 0
  }

  lemma StepMakesProgress(p: Plan, s: State, step: Step)
    requires Distinct(p.order) && Inv(p, s) && Enabled(p, s, step)
    ensures Inv(p, Next(p, s, step)) && Left(p, Next(p, s, step)) < Left(p, s)
  {
    StepKeepsInv(p, s, step);
    match step
    case Launch =>
      var t := p.order[s.main.next];
      assert t !in p.order[..s.main.next];
      assert t !in Elems(p.order[..s.main.next]);
      assert s.status - {t} == s.status;
      WorkAfter(s.status, t, Running);
    case AllLaunched =>
    case FnReturns(t) =>
      WorkOf(s.status, t);
      WorkAfter(s.status, t, if t in p.failing then Sending else Finished);
    case SendError(t) =>
      WorkOf(s.status, t);
      WorkAfter(s.status, t, Finished);
    case Return =>
  }

  /** Until `Run` has returned some step is possible: no interleaving gets stuck. */
  lemma NeverStuck(tasks: Tasks, declared: set<Id>, p: Plan, s: State)
    requires PlanOf(tasks, declared, p) && Reachable(p, s) && !s.main.Returned?
    ensures exists step :: Enabled(p, s, step)
  {
    ReachableInv(tasks, declared, p, s);
    ChannelFits(p, s);
    if s.main.Launching? {
      if s.main.next < |p.order| {
        assert Enabled(p, s, Launch);
      } else {
        assert Enabled(p, s, AllLaunched);
      }
    } else if AllFinished(s) {
      assert Enabled(p, s, Return);
    } else {
      var t :| t in s.status && s.status[t] != Finished;
      if s.status[t] == Running {
        assert Enabled(p, s, FnReturns(t));
      } else {
        assert Enabled(p, s, SendError(t));
      }
    }
  }

  /** Every run of any interleaving is finite: its length is bounded by the work of the start state. */
  lemma {:induction false} RunsAreShort(p: Plan, steps: seq<Step>, states: seq<State>, n: nat)
    requires Distinct(p.order) && Run(p, steps, states) && n <= |steps|
    ensures Inv(p, states[n]) && n + Left(p, states[n]) <= 3 * |p.order| + 2
  {
    if n == 0 {
      assert p.order[..0] == [];
      assert Work(map[]) == 0;
    } else {
      RunsAreShort(p, steps, states, n - 1);
      StepMakesProgress(p, states[n - 1], steps[n - 1]);
    }
  }

  // --- launches are ordered, completions are not ------------------------------------------

  lemma StepReachable(p: Plan, s: State, step: Step)
    requires Reachable(p, s) && Enabled(p, s, step)
    ensures Reachable(p, Next(p, s, step))
  {
    var steps, states :| Run(p, steps, states) && states[|steps|] == s;
    var s' := Next(p, s, step);
    assert Run(p, steps + [step], states + [s']);
    assert (states + [s'])[|steps + [step]|] == s';
  }

  /** The first `n` tasks can all be running at once. */
  lemma {:induction false} AllRunning(p: Plan, n: nat) returns (s: State)
    requires n <= |p.order|
    ensures Reachable(p, s) && s.main == Launching(n)
    ensures s.status.Keys == Elems(p.order[..n]) && forall t | t in s.status :: s.status[t] == Running
  {
    if n == 0 {
      s := Start;
      var steps: seq<Step> := [];
      assert Run(p, steps, [Start]);
      assert [Start][|steps|] == Start;
    } else {
      var r := AllRunning(p, n - 1);
      StepReachable(p, r, Launch);
      s := Next(p, r, Launch);
      assert p.order[..n] == p.order[..n - 1] + [p.order[n - 1]];
    }
  }

  /**
   In every plan, a launched task can be through with its function while a task it depends on is
   still running.
   */
  lemma DependencyMayStillRun(tasks: Tasks, declared: set<Id>, p: Plan, a: Id, b: Id)
    requires PlanOf(tasks, declared, p) && b in p.order && b in tasks && a in tasks[b].deps
    ensures exists s :: Reachable(p, s) && Overtakes(s, a, b)
  {
    LaunchedOnce(tasks, declared, p.order);
    var k :| 0 <= k < |p.order| && p.order[k] == b;
    assert IsReady(tasks, declared, p.order[..k], b);
    var d :| 0 <= d < |tasks[b].deps| && tasks[b].deps[d] == a;
    assert a in Elems(p.order[..k]) && a != b;
    var s := AllRunning(p, |p.order|);
    assert p.order[..|p.order|] == p.order;
    assert a in Elems(p.order) && b in Elems(p.order);
    StepReachable(p, s, FnReturns(b));
    assert Overtakes(Next(p, s, FnReturns(b)), a, b);
  }

  /** `b`'s function has returned, and `a`'s has not. */
  predicate Overtakes(s: State, a: Id, b: Id) {
    a in s.status && b in s.status && s.status[a] == Running && s.status[b] != Running
  }

  /** In every interleaving, a task's function returns only after those of its dependencies. */
  ghost predicate DependenciesFirst(tasks: Tasks, p: Plan) {
    forall s, a, b | Reachable(p, s) && b in s.status && s.status[b] != Running && b in tasks && a in tasks[b].deps ::
      a in s.status && s.status[a] != Running
  }

  /** That holds iff no launched task has a dependency. */
  lemma NoneLaunchedDepends(tasks: Tasks, declared: set<Id>, p: Plan)
    requires PlanOf(tasks, declared, p)
    ensures DependenciesFirst(tasks, p) <==> forall b | b in p.order && b in tasks :: tasks[b].deps == []
  {
    if DependenciesFirst(tasks, p) {
      forall b | b in p.order && b in tasks ensures tasks[b].deps == [] {
        if tasks[b].deps != [] {
          DependencyMayStillRun(tasks, declared, p, tasks[b].deps[0], b);
          assert false;
        }
      }
    } else {
      var s, a, b :| Reachable(p, s) && b in s.status && s.status[b] != Running && b in tasks && a in tasks[b].deps;
      ReachableInv(tasks, declared, p, s);
      assert b in Elems(p.order);
    }
  }

  /**
   On the table alone: no task that can run depends on others, all of which can run and depend on
   nothing.
   */
  lemma DependenciesFirstIff(tasks: Tasks, declared: set<Id>, p: Plan)
    requires PlanOf(tasks, declared, p)
    ensures DependenciesFirst(tasks, p) <==> forall b | b in declared :: !DependsOnLeaves(tasks, declared, b)
  {
    NoneLaunchedDepends(tasks, declared, p);
    OnlyLeavesLaunchedIff(tasks, declared, p.order);
  }
}
