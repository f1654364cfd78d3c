/** Build tasks and their dependencies, and what it means to launch them in dependency order. */
module TaskGraph {
  import opened Order
  import opened Digraph

  /** A task's function: absent (`nil`), or present with the outcome it will have. */
  datatype Fn = NoFn | Runs(fails: bool)

  datatype Task = Task(id: Id, deps: seq<Id>, priority: int, fn: Fn)

  type Tasks = map<Id, Task>

  function Placeholder(id: Id): Task {
    Task(id, [], 0, NoFn)
  }

  /** The table after any run of `AddTask`: undeclared dependencies are placeholders. */
  ghost predicate TableOk(tasks: Tasks, inDegree: map<Id, int>) {
    && inDegree.Keys <= tasks.Keys
    && (forall id | id in tasks :: tasks[id].id == id)
    && (forall id | id in inDegree :: inDegree[id] == |tasks[id].deps|)
    && (forall id | id in tasks && id !in inDegree :: tasks[id] == Placeholder(id))
    && (forall id, k | id in tasks && 0 <= k < |tasks[id].deps| :: tasks[id].deps[k] in tasks)
  }

  /** `AddTask` has declared `task` and added placeholders for its first `i` dependencies. */
  ghost predicate Adding(tasks0: Tasks, inDegree: map<Id, int>, task: Task, i: nat, tasks: Tasks) {
    && inDegree.Keys <= tasks.Keys
    && (forall id | id in tasks :: tasks[id].id == id)
    && (forall id | id in inDegree :: inDegree[id] == |tasks[id].deps|)
    && (forall id | id in tasks && id !in inDegree :: tasks[id] == Placeholder(id))
    && (forall id, k | id in tasks && id != task.id && 0 <= k < |tasks[id].deps| :: tasks[id].deps[k] in tasks)
    && i <= |task.deps| && (forall k | 0 <= k < i :: task.deps[k] in tasks)
    && Declares(tasks0, task, tasks)
  }

  /** `task` is declared, nothing else is lost, and only placeholders for its dependencies are new. */
  ghost predicate Declares(tasks0: Tasks, task: Task, tasks: Tasks) {
    && task.id in tasks && tasks[task.id] == task
    && (forall id | id in tasks0 && id != task.id :: id in tasks && tasks[id] == tasks0[id])
    && (forall id | id in tasks && id !in tasks0 && id != task.id ::
          id in task.deps && tasks[id] == Placeholder(id))
  }

  lemma AddingStart(tasks0: Tasks, inDegree0: map<Id, int>, task: Task)
    requires TableOk(tasks0, inDegree0)
    ensures Adding(tasks0, inDegree0[task.id := |task.deps|], task, 0, tasks0[task.id := task])
  {
  }

  lemma AddingStep(tasks0: Tasks, inDegree: map<Id, int>, task: Task, i: nat, tasks: Tasks)
    requires Adding(tasks0, inDegree, task, i, tasks) && i < |task.deps|
    ensures var dep := task.deps[i];
            Adding(tasks0, inDegree, task, i + 1, if dep in tasks then tasks else tasks[dep := Placeholder(dep)])
  {
    assert task.deps[i] in task.deps;
  }

  lemma AddingEnd(tasks0: Tasks, inDegree: map<Id, int>, task: Task, tasks: Tasks)
    requires Adding(tasks0, inDegree, task, |task.deps|, tasks)
    ensures TableOk(tasks, inDegree) && Declares(tasks0, task, tasks)
  {
  }

  /** Declared, not launched, has a function, and every dependency is launched. */
  ghost predicate IsReady(tasks: Tasks, declared: set<Id>, launched: seq<Id>, id: Id) {
    && id in declared && id in tasks && tasks[id].fn.Runs? && id !in launched
    && DepsIn(tasks[id], Elems(launched))
  }

  ghost predicate DepsIn(t: Task, S: set<Id>) {
    forall k | 0 <= k < |t.deps| :: t.deps[k] in S
  }

  ghost function ReadyTasks(tasks: Tasks, declared: set<Id>, launched: seq<Id>): set<Id> {
    set id | id in declared && IsReady(tasks, declared, launched, id)
  }

  /** Each launched task was ready at its turn: once only, and after all its dependencies. */
  ghost predicate LaunchOrder(tasks: Tasks, declared: set<Id>, order: seq<Id>) {
    forall k | 0 <= k < |order| :: IsReady(tasks, declared, order[..k], order[k])
  }

  /** The same, and nothing that could be launched was left out. */
  ghost predicate CompleteLaunch(tasks: Tasks, declared: set<Id>, order: seq<Id>) {
    LaunchOrder(tasks, declared, order) && ReadyTasks(tasks, declared, order) == {}
  }

  /** `S` contains every declared task with a function whose dependencies are all in `S`. */
  ghost predicate LaunchClosed(tasks: Tasks, declared: set<Id>, S: set<Id>) {
    forall id | id in declared && id in tasks && tasks[id].fn.Runs? && DepsIn(tasks[id], S) :: id in S
  }

  lemma LaunchExtend(tasks: Tasks, declared: set<Id>, order: seq<Id>, id: Id)
    requires LaunchOrder(tasks, declared, order) && id in ReadyTasks(tasks, declared, order)
    ensures LaunchOrder(tasks, declared, order + [id])
  {
    var more := order + [id];
    forall k | 0 <= k < |more| ensures IsReady(tasks, declared, more[..k], more[k]) {
      assert more[..k] == order[..k];
      if k == |order| { assert order[..k] == order; }
    }
  }

  lemma LaunchedOnce(tasks: Tasks, declared: set<Id>, order: seq<Id>)
    requires LaunchOrder(tasks, declared, order)
    ensures Distinct(order) && Elems(order) <= declared
  {
    forall i, j | 0 <= i < j < |order| ensures order[i] != order[j] {
      assert order[..j][i] == order[i];
    }
    forall i | 0 <= i < |order| ensures order[i] in declared {
      assert IsReady(tasks, declared, order[..i], order[i]);
    }
  }

  lemma {:induction false} LaunchedInClosed(tasks: Tasks, declared: set<Id>, order: seq<Id>, n: nat, S: set<Id>)
    requires LaunchOrder(tasks, declared, order) && n <= |order| && LaunchClosed(tasks, declared, S)
    ensures Elems(order[..n]) <= S
    decreases n
  {
    if n > 0 {
      LaunchedInClosed(tasks, declared, order, n - 1, S);
      var id := order[n - 1];
      assert IsReady(tasks, declared, order[..n - 1], id);
      assert order[..n] == order[..n - 1] + [id];
    }
  }

  /** What is launched is exactly the least closed set of tasks. */
  lemma LaunchesLeastClosedSet(tasks: Tasks, declared: set<Id>, order: seq<Id>)
    requires CompleteLaunch(tasks, declared, order)
    ensures LaunchClosed(tasks, declared, Elems(order))
    ensures forall S | LaunchClosed(tasks, declared, S) :: Elems(order) <= S
  {
    forall id | id in declared && id in tasks && tasks[id].fn.Runs? && DepsIn(tasks[id], Elems(order))
      ensures id in Elems(order)
    {
      assert id !in ReadyTasks(tasks, declared, order);
    }
    forall S | LaunchClosed(tasks, declared, S) ensures Elems(order) <= S {
      LaunchedInClosed(tasks, declared, order, |order|, S);
      assert order[..|order|] == order;
    }
  }

  /** Hence any two complete launches run the same tasks, whatever order each picked. */
  lemma SameTasksLaunched(tasks: Tasks, declared: set<Id>, a: seq<Id>, b: seq<Id>)
    requires CompleteLaunch(tasks, declared, a) && CompleteLaunch(tasks, declared, b)
    ensures multiset(a) == multiset(b)
  {
    LaunchesLeastClosedSet(tasks, declared, a);
    LaunchesLeastClosedSet(tasks, declared, b);
    LaunchedOnce(tasks, declared, a);
    LaunchedOnce(tasks, declared, b);
    DistinctCounts(a);
    DistinctCounts(b);
    forall x ensures multiset(a)[x] == multiset(b)[x] {
      assert x in Elems(a) <==> x in Elems(b);
      assert x in multiset(a) <==> x in a;
      assert x in multiset(b) <==> x in b;
    }
  }

  /** Declared, with a function and without dependencies. */
  ghost predicate IsLeaf(tasks: Tasks, declared: set<Id>, id: Id) {
    id in declared && id in tasks && tasks[id].fn.Runs? && tasks[id].deps == []
  }

  ghost predicate DependsOnLeaves(tasks: Tasks, declared: set<Id>, id: Id) {
    && id in declared && id in tasks && tasks[id].fn.Runs? && tasks[id].deps != []
    && forall k | 0 <= k < |tasks[id].deps| :: IsLeaf(tasks, declared, tasks[id].deps[k])
  }

  /** No launched task has a dependency iff no task depends on leaves alone. */
  lemma OnlyLeavesLaunchedIff(tasks: Tasks, declared: set<Id>, order: seq<Id>)
    requires CompleteLaunch(tasks, declared, order) && declared <= tasks.Keys
    ensures (forall b | b in order && b in tasks :: tasks[b].deps == [])
      <==> (forall b | b in declared :: !DependsOnLeaves(tasks, declared, b))
  {
    LaunchesLeastClosedSet(tasks, declared, order);
    if b :| b in declared && DependsOnLeaves(tasks, declared, b) {
      forall k | 0 <= k < |tasks[b].deps| ensures tasks[b].deps[k] in Elems(order) {
        assert IsLeaf(tasks, declared, tasks[b].deps[k]) && DepsIn(tasks[tasks[b].deps[k]], Elems(order));
      }
      assert DepsIn(tasks[b], Elems(order)) && b in Elems(order);
    } else {
      var leaves := set id | id in declared && IsLeaf(tasks, declared, id);
      forall id | id in declared && id in tasks && tasks[id].fn.Runs? && DepsIn(tasks[id], leaves)
        ensures id in leaves
      {
        assert tasks[id].deps != [] ==> DependsOnLeaves(tasks, declared, id);
      }
      assert LaunchClosed(tasks, declared, leaves) && Elems(order) <= leaves;
    }
  }

  /** Each dependency points at the task that needs it. */
  ghost function DepArcs(tasks: Tasks): Arcs {
    set id, d | id in tasks && d in tasks[id].deps :: (d, id)
  }

  /** Every task runs iff the dependencies are acyclic, all tasks are declared and have a function. */
  lemma AllLaunchedIff(tasks: Tasks, inDegree: map<Id, int>, order: seq<Id>)
    requires TableOk(tasks, inDegree) && CompleteLaunch(tasks, inDegree.Keys, order)
    ensures Elems(order) == tasks.Keys <==>
            && Acyclic(DepArcs(tasks))
            && tasks.Keys == inDegree.Keys
            && forall id | id in tasks :: tasks[id].fn.Runs?
  {
    var declared, arcs := inDegree.Keys, DepArcs(tasks);
    LaunchedOnce(tasks, declared, order);
    if Elems(order) == tasks.Keys {
      LaunchedMeansAcyclic(tasks, declared, order);
    }
    if Acyclic(arcs) && tasks.Keys == declared && forall id | id in tasks :: tasks[id].fn.Runs? {
      var missing := tasks.Keys - Elems(order);
      if missing != {} {
        var id := SourceExists(arcs, missing);
        SourceIsReady(tasks, declared, order, id);
        assert false;
      }
      forall id | id in tasks ensures id in Elems(order) { assert id !in missing; }
    }
  }

  lemma SourceIsReady(tasks: Tasks, declared: set<Id>, order: seq<Id>, id: Id)
    requires id in tasks && id in declared && id !in order && tasks[id].fn.Runs?
    requires forall i, k | i in tasks && 0 <= k < |tasks[i].deps| :: tasks[i].deps[k] in tasks
    requires forall u | (u, id) in DepArcs(tasks) :: u !in tasks.Keys - Elems(order)
    ensures id in ReadyTasks(tasks, declared, order)
  {
    forall k | 0 <= k < |tasks[id].deps| ensures tasks[id].deps[k] in Elems(order) {
      assert (tasks[id].deps[k], id) in DepArcs(tasks);
    }
  }

  lemma LaunchedMeansAcyclic(tasks: Tasks, declared: set<Id>, order: seq<Id>)
    requires LaunchOrder(tasks, declared, order) && Elems(order) == tasks.Keys
    ensures Acyclic(DepArcs(tasks))
    ensures tasks.Keys <= declared && forall id | id in tasks :: tasks[id].fn.Runs?
  {
    LaunchedOnce(tasks, declared, order);
    forall i, u | 0 <= i < |order| && (u, order[i]) in DepArcs(tasks) ensures u in order[..i] {
      assert IsReady(tasks, declared, order[..i], order[i]);
      var k :| 0 <= k < |tasks[order[i]].deps| && tasks[order[i]].deps[k] == u;
    }
    forall v ensures !OnCycle(DepArcs(tasks), v) {
      if OnCycle(DepArcs(tasks), v) {
        var p :| ClosedWalk(DepArcs(tasks), p) && p[0] == v;
        assert StepAt(DepArcs(tasks), p, |p| - 2);
        assert v in tasks;
        assert v in Elems(order);
        PredsBeforeNoCycle(DepArcs(tasks), order, v);
      }
    }
    forall id | id in tasks ensures id in declared && tasks[id].fn.Runs? {
      assert id in Elems(order);
      var i :| 0 <= i < |order| && order[i] == id;
      assert IsReady(tasks, declared, order[..i], order[i]);
    }
  }
}
