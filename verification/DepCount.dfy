/**
 The flattened edge list of a scheduler run, and the countdown over it: a task's in-degree is the
 number of its edges from dependencies not launched yet, duplicates included.
 */
module DepCount {
  import opened Order
  import opened TaskGraph

  datatype DepEdge = DepEdge(dep: Id, task: Id)

  /** The edges into `t` from dependencies outside `launched`. */
  ghost function Open(edges: seq<DepEdge>, t: Id, launched: set<Id>): nat {
    if edges == [] then 0
    else
      var n := |edges| - 1;
      Open(edges[..n], t, launched) + if edges[n].task == t && edges[n].dep !in launched then 1 else 0
  }

  /** The edges into `t` from one dependency. */
  ghost function From(edges: seq<DepEdge>, t: Id, dep: Id): nat {
    if edges == [] then 0
    else
      var n := |edges| - 1;
      From(edges[..n], t, dep) + if edges[n].task == t && edges[n].dep == dep then 1 else 0
  }

  lemma {:induction false} OpenAfterLaunch(edges: seq<DepEdge>, t: Id, launched: set<Id>, dep: Id)
    requires dep !in launched
    ensures Open(edges, t, launched) == Open(edges, t, launched + {dep}) + From(edges, t, dep)
  {
    if edges != [] {
      OpenAfterLaunch(edges[..|edges| - 1], t, launched, dep);
    }
  }

  lemma FromStep(edges: seq<DepEdge>, k: nat, t: Id, dep: Id)
    requires k < |edges|
    ensures From(edges[..k + 1], t, dep) ==
            From(edges[..k], t, dep) + if edges[k].task == t && edges[k].dep == dep then 1 else 0
  {
    assert edges[..k + 1][..k] == edges[..k];
  }

  lemma {:induction false} FromPrefix(edges: seq<DepEdge>, k: nat, t: Id, dep: Id)
    requires k <= |edges|
    ensures From(edges[..k], t, dep) <= From(edges, t, dep)
    decreases |edges|
  {
    if k == |edges| {
      assert edges[..k] == edges;
    } else {
      var n := |edges| - 1;
      FromPrefix(edges[..n], k, t, dep);
      assert edges[..n][..k] == edges[..k];
    }
  }

  lemma {:induction false} OpenZero(edges: seq<DepEdge>, t: Id, launched: set<Id>)
    ensures Open(edges, t, launched) == 0 <==> forall e | e in edges && e.task == t :: e.dep in launched
  {
    if edges != [] {
      var n := |edges| - 1;
      OpenZero(edges[..n], t, launched);
      assert edges == edges[..n] + [edges[n]];
    }
  }

  lemma {:induction false} OpenConcat(a: seq<DepEdge>, b: seq<DepEdge>, t: Id, launched: set<Id>)
    ensures Open(a + b, t, launched) == Open(a, t, launched) + Open(b, t, launched)
  {
    if b == [] {
      assert a + b == a;
    } else {
      var n := |b| - 1;
      OpenConcat(a, b[..n], t, launched);
      assert (a + b)[..|a + b| - 1] == a + b[..n];
    }
  }

  /** One edge for every entry of every task's dependency list. */
  ghost predicate EdgesMatch(tasks: Tasks, edges: seq<DepEdge>) {
    && (forall e | e in edges :: e.task in tasks && e.dep in tasks[e.task].deps)
    && (forall t, d | t in tasks && d in tasks[t].deps :: DepEdge(d, t) in edges)
    && (forall t | t in tasks :: Open(edges, t, {}) == |tasks[t].deps|)
  }

  /** The in-degree map counts the open edges of every declared task. */
  ghost predicate Counts(edges: seq<DepEdge>, inDegree: map<Id, int>, launched: seq<Id>) {
    forall t | t in inDegree :: inDegree[t] == Open(edges, t, Elems(launched))
  }

  lemma CountsAtStart(tasks: Tasks, inDegree: map<Id, int>, edges: seq<DepEdge>)
    requires TableOk(tasks, inDegree) && EdgesMatch(tasks, edges)
    ensures Counts(edges, inDegree, [])
  {
    assert Elems<Id>([]) == {};
  }

  lemma ZeroMeansReady(tasks: Tasks, declared: set<Id>, edges: seq<DepEdge>, inDegree: map<Id, int>, launched: seq<Id>)
    requires EdgesMatch(tasks, edges) && inDegree.Keys == declared <= tasks.Keys
    requires Counts(edges, inDegree, launched)
    ensures forall t :: t in ReadyTasks(tasks, declared, launched) <==>
              t in declared && t !in launched && tasks[t].fn.Runs? && inDegree[t] == 0
  {
    forall t | t in declared ensures inDegree[t] == 0 <==> DepsIn(tasks[t], Elems(launched)) {
      OpenZero(edges, t, Elems(launched));
      if inDegree[t] == 0 {
        forall k | 0 <= k < |tasks[t].deps| ensures tasks[t].deps[k] in Elems(launched) {
          assert DepEdge(tasks[t].deps[k], t) in edges;
        }
      }
      if DepsIn(tasks[t], Elems(launched)) {
        forall e | e in edges && e.task == t ensures e.dep in Elems(launched) {
          var k :| 0 <= k < |tasks[t].deps| && tasks[t].deps[k] == e.dep;
        }
      }
    }
  }

  /** The freed tasks are those of edges at increasing places among the first `k`. */
  ghost predicate FreedAt(edges: seq<DepEdge>, k: nat, freed: seq<Id>, pos: seq<nat>) {
    && Increasing(pos) && |pos| == |freed|
    && forall x | 0 <= x < |pos| :: pos[x] < k && pos[x] < |edges| && edges[pos[x]].task == freed[x]
  }

  lemma FreedAtStep(edges: seq<DepEdge>, k: nat, freed: seq<Id>, pos: seq<nat>)
    requires FreedAt(edges, k, freed, pos) && k < |edges|
    ensures FreedAt(edges, k + 1, freed, pos) && FreedAt(edges, k + 1, freed + [edges[k].task], pos + [k])
  {
    var longer := pos + [k];
    assert Increasing(longer);
  }

  /**
   The release loop after launching `id`, with the first `k` edges looked at: in-degrees counted
   down by their edges from `id`, and `freed` the tasks that came to zero, in order.
   */
  ghost predicate Releasing(
    tasks: Tasks, edges: seq<DepEdge>, before: map<Id, int>, inDegree: map<Id, int>, id: Id, k: nat, freed: seq<Id>)
  {
    && k <= |edges| && inDegree.Keys == before.Keys
    && (forall t | t in before :: inDegree[t] == before[t] - From(edges[..k], t, id))
    && Distinct(freed)
    && (forall t :: t in freed <==>
          t in before && t in tasks && tasks[t].fn.Runs? && before[t] > 0 && inDegree[t] == 0)
  }

  lemma ReleaseStart(tasks: Tasks, edges: seq<DepEdge>, before: map<Id, int>, id: Id)
    ensures Releasing(tasks, edges, before, before, id, 0, [])
  {
  }

  lemma ReleaseStep(
    tasks: Tasks, edges: seq<DepEdge>, before: map<Id, int>, inDegree: map<Id, int>, id: Id, k: nat, freed: seq<Id>)
    requires Releasing(tasks, edges, before, inDegree, id, k, freed) && k < |edges|
    requires forall t | t in before :: before[t] >= From(edges, t, id)
    requires edges[k].task in before && edges[k].task in tasks
    ensures var t := edges[k].task;
            if edges[k].dep == id then
              Releasing(tasks, edges, before, inDegree[t := inDegree[t] - 1], id, k + 1,
                        if inDegree[t] - 1 == 0 && tasks[t].fn != NoFn then freed + [t] else freed)
            else Releasing(tasks, edges, before, inDegree, id, k + 1, freed)
  {
    forall t ensures From(edges[..k + 1], t, id) ==
                     From(edges[..k], t, id) + if edges[k].task == t && edges[k].dep == id then 1 else 0
    {
      FromStep(edges, k, t, id);
    }
    if edges[k].dep == id {
      var t := edges[k].task;
      FromPrefix(edges, k + 1, t, id);
      assert inDegree[t] >= 1;
      assert forall i | 0 <= i < |freed| :: freed[i] in freed;
    }
  }

  /** `freed` is what launching `id` made ready; what was ready before, except `id`, still is. */
  ghost predicate FreedBy(tasks: Tasks, declared: set<Id>, launched: seq<Id>, id: Id, freed: seq<Id>) {
    var ready, ready' := ReadyTasks(tasks, declared, launched), ReadyTasks(tasks, declared, launched + [id]);
    && ready' == ready - {id} + Elems(freed)
    && Elems(freed) !! ready
  }

  /** After the loop the counts are those of the longer launch, and `freed` is what became ready. */
  lemma ReleaseEnd(
    tasks: Tasks, declared: set<Id>, edges: seq<DepEdge>, before: map<Id, int>, inDegree: map<Id, int>,
    launched: seq<Id>, id: Id, freed: seq<Id>)
    requires EdgesMatch(tasks, edges) && before.Keys == declared <= tasks.Keys
    requires Counts(edges, before, launched) && LaunchOrder(tasks, declared, launched)
    requires id in ReadyTasks(tasks, declared, launched)
    requires Releasing(tasks, edges, before, inDegree, id, |edges|, freed)
    ensures Counts(edges, inDegree, launched + [id])
    ensures FreedBy(tasks, declared, launched, id, freed)
  {
    assert edges[..|edges|] == edges;
    assert Elems(launched + [id]) == Elems(launched) + {id};
    forall t | t in before ensures inDegree[t] == Open(edges, t, Elems(launched + [id])) {
      OpenAfterLaunch(edges, t, Elems(launched), id);
    }
    ZeroMeansReady(tasks, declared, edges, before, launched);
    ZeroMeansReady(tasks, declared, edges, inDegree, launched + [id]);
    forall t | t in launched ensures t in before && before[t] == 0 {
      LaunchedHasZero(tasks, declared, edges, before, launched, t);
    }
  }

  lemma LaunchedHasZero(
    tasks: Tasks, declared: set<Id>, edges: seq<DepEdge>, inDegree: map<Id, int>, launched: seq<Id>, t: Id)
    requires EdgesMatch(tasks, edges) && inDegree.Keys == declared <= tasks.Keys
    requires Counts(edges, inDegree, launched) && LaunchOrder(tasks, declared, launched) && t in launched
    ensures t in declared && inDegree[t] == 0
  {
    var i :| 0 <= i < |launched| && launched[i] == t;
    assert IsReady(tasks, declared, launched[..i], t);
    OpenZero(edges, t, Elems(launched));
    forall e | e in edges && e.task == t ensures e.dep in Elems(launched) {
      var k :| 0 <= k < |tasks[t].deps| && tasks[t].deps[k] == e.dep;
    }
  }

  lemma EnoughOpen(tasks: Tasks, edges: seq<DepEdge>, before: map<Id, int>, launched: seq<Id>, id: Id)
    requires Counts(edges, before, launched) && id !in launched
    ensures forall t | t in before :: before[t] >= From(edges, t, id)
  {
    forall t | t in before ensures before[t] >= From(edges, t, id) {
      OpenAfterLaunch(edges, t, Elems(launched), id);
    }
  }

  lemma TaskIsDeclared(tasks: Tasks, edges: seq<DepEdge>, before: map<Id, int>, k: nat)
    requires EdgesMatch(tasks, edges) && k < |edges|
    requires forall t | t in tasks && t !in before :: tasks[t].deps == []
    ensures edges[k].task in tasks && edges[k].task in before
  {
    assert edges[k] in edges;
  }

  // --- building the edge list -------------------------------------------------------------

  /** The edges into one task, in the order of its dependency list. */
  ghost predicate IntoTask(task: Task, more: seq<DepEdge>) {
    |more| == |task.deps| && forall k | 0 <= k < |more| :: more[k] == DepEdge(task.deps[k], task.id)
  }

  /** One edge for every dependency of the tasks in `done`, none for others. */
  ghost predicate EdgesOf(tasks: Tasks, done: set<Id>, edges: seq<DepEdge>) {
    && (forall e | e in edges :: e.task in tasks && e.dep in tasks[e.task].deps)
    && (forall t, d | t in done && t in tasks && d in tasks[t].deps :: DepEdge(d, t) in edges)
    && (forall t | t in tasks :: Open(edges, t, {}) == if t in done then |tasks[t].deps| else 0)
  }

  lemma AddEdgesOf(tasks: Tasks, done: set<Id>, edges: seq<DepEdge>, t: Id, more: seq<DepEdge>)
    requires EdgesOf(tasks, done, edges) && t in tasks && t !in done && tasks[t].id == t
    requires IntoTask(tasks[t], more)
    ensures EdgesOf(tasks, done + {t}, edges + more)
  {
    forall d | d in tasks[t].deps ensures DepEdge(d, t) in more {
      var k :| 0 <= k < |more| && tasks[t].deps[k] == d;
      assert more[k] == DepEdge(d, t);
    }
    forall u | u in tasks
      ensures Open(edges + more, u, {}) == if u in done + {t} then |tasks[u].deps| else 0
    {
      OpenConcat(edges, more, u, {});
      OpenOfOne(more, t, u);
    }
  }

  lemma {:induction false} OpenOfOne(more: seq<DepEdge>, t: Id, u: Id)
    requires forall k | 0 <= k < |more| :: more[k].task == t
    ensures Open(more, u, {}) == if u == t then |more| else 0
  {
    if more != [] {
      OpenOfOne(more[..|more| - 1], t, u);
    }
  }

  lemma AllEdgesOf(tasks: Tasks, edges: seq<DepEdge>)
    requires EdgesOf(tasks, tasks.Keys, edges)
    ensures EdgesMatch(tasks, edges)
  {
  }
}
