/**
 What the two schedulers have in common: the task and in-degree maps with `AddTask`, the edge list
 built at the start of a run, and the loop that releases the dependents of a launched task.
 */
module TaskTable {
  import opened Order
  import opened TaskGraph
  import opened DepCount
  import opened LaunchQueue

  class TaskTable {
    var tasks: Tasks
    var inDegree: map<Id, int>

    ghost predicate Valid()
      reads this
    {
      TableOk(tasks, inDegree)
    }

    constructor ()
      ensures Valid() && tasks == map[] && inDegree == map[]
    {
      tasks, inDegree := map[], map[];
    }

    /** Declare a task, replacing an earlier one; unknown dependencies get placeholders. */
    method AddTask(task: Task)
      requires Valid()
      modifies this
      ensures Valid()
      ensures inDegree == old(inDegree)[task.id := |task.deps|]
      ensures Declares(old(tasks), task, tasks)
    {
      AddingStart(tasks, inDegree, task);
      tasks := tasks[task.id := task];
      inDegree := inDegree[task.id := |task.deps|];
      var i := 0;
      while i < |task.deps|
        invariant 0 <= i <= |task.deps|
        invariant inDegree == old(inDegree)[task.id := |task.deps|]
        invariant Adding(old(tasks), inDegree, task, i, tasks)
      {
        AddingStep(old(tasks), inDegree, task, i, tasks);
        var dep := task.deps[i];
        if dep !in tasks {
          tasks := tasks[dep := Placeholder(dep)];
        }
        i := i + 1;
      }
      AddingEnd(old(tasks), inDegree, task, tasks);
    }

    method Clear()
      modifies this
      ensures Valid() && tasks == map[] && inDegree == map[]
    {
      tasks, inDegree := map[], map[];
    }
  }

  /** `allEdges`: the tasks are visited in any order, their dependencies in list order. */
  method EdgeList(tasks: Tasks) returns (edges: seq<DepEdge>, ghost all: seq<Id>)
    requires forall t | t in tasks :: tasks[t].id == t
    ensures EdgesMatch(tasks, edges)
    ensures Lists(all, tasks.Keys) && ByTask(all, edges)
  {
    edges := [];
    var ids := AnyOrder(tasks.Keys);
    all := ids;
    var i := 0;
    while i < |ids|
      invariant 0 <= i <= |ids|
      invariant EdgesOf(tasks, Elems(ids[..i]), edges)
      invariant ByTask(ids, edges) && forall e | e in edges :: e.task in ids[..i]
    {
      var t := ids[i];
      assert t in ids && t !in ids[..i];
      assert ids[..i + 1] == ids[..i] + [t];
      var more := EdgesInto(tasks[t]);
      AddEdgesOf(tasks, Elems(ids[..i]), edges, t, more);
      AddByTask(ids, i, edges, more);
      assert Elems(ids[..i + 1]) == Elems(ids[..i]) + {t};
      edges := edges + more;
      i := i + 1;
    }
    assert ids[..i] == ids && Elems(ids) == tasks.Keys;
    AllEdgesOf(tasks, edges);
  }

  method EdgesInto(task: Task) returns (more: seq<DepEdge>)
    ensures IntoTask(task, more)
  {
    more := [];
    var i := 0;
    while i < |task.deps|
      invariant 0 <= i <= |task.deps| && |more| == i
      invariant forall k | 0 <= k < i :: more[k] == DepEdge(task.deps[k], task.id)
    {
      more := more + [DepEdge(task.deps[i], task.id)];
      i := i + 1;
    }
  }

  /** The loop over all edges that follows the launch of `id`. */
  method Release(tasks: Tasks, edges: seq<DepEdge>, before: map<Id, int>, id: Id, ghost launched: seq<Id>)
    returns (inDegree: map<Id, int>, freed: seq<Id>)
    requires EdgesMatch(tasks, edges) && before.Keys <= tasks.Keys
    requires forall t | t in tasks && t !in before :: tasks[t].deps == []
    requires Counts(edges, before, launched) && LaunchOrder(tasks, before.Keys, launched)
    requires id in ReadyTasks(tasks, before.Keys, launched)
    ensures inDegree.Keys == before.Keys && Counts(edges, inDegree, launched + [id])
    ensures Distinct(freed)
    ensures FreedBy(tasks, before.Keys, launched, id, freed)
    ensures forall all | ByTask(all, edges) :: ListedBy(all, freed)
  {
    inDegree, freed := before, [];
    ghost var pos: seq<nat> := [];
    ReleaseAtStart(tasks, edges, before, id);
    EnoughOpen(tasks, edges, before, launched, id);
    var k: nat := 0;
    while k < |edges|
      invariant 0 <= k <= |edges|
      invariant ReleasingAt(tasks, edges, before, inDegree, id, k, freed, pos)
    {
      var e := edges[k];
      TaskIsDeclared(tasks, edges, before, k);
      ReleaseAtStep(tasks, edges, before, inDegree, id, k, freed, pos);
      if e.dep == id {
        inDegree := inDegree[e.task := inDegree[e.task] - 1];
        if inDegree[e.task] == 0 && tasks[e.task].fn != NoFn {
          freed := freed + [e.task];
          pos := pos + [k];
        }
      }
      k := k + 1;
    }
    FreedListed(tasks, edges, before, inDegree, id, k, freed, pos);
    ReleaseEnd(tasks, before.Keys, edges, before, inDegree, launched, id, freed);
  }

  /** The initial scan of the in-degree map, in any order. */
  method InitiallyReady(tasks: Tasks, inDegree: map<Id, int>, ghost edges: seq<DepEdge>)
    returns (ready: seq<Id>, ghost first: seq<Id>)
    requires TableOk(tasks, inDegree) && EdgesMatch(tasks, edges)
    ensures Distinct(ready) && Elems(ready) == ReadyTasks(tasks, inDegree.Keys, [])
    ensures Lists(first, inDegree.Keys) && ListedBy(first, ready)
  {
    ready := [];
    var ids := AnyOrder(inDegree.Keys);
    first := ids;
    var i := 0;
    while i < |ids|
      invariant 0 <= i <= |ids| && Distinct(ready) && ListedBy(ids, ready)
      invariant forall t :: t in ready <==> t in ids[..i] && inDegree[t] == 0 && tasks[t].fn != NoFn
    {
      var id := ids[i];
      assert id in ids;
      if inDegree[id] == 0 && tasks[id].fn != NoFn {
        ListNext(ids, i, ready);
        ready := ready + [id];
      }
      i := i + 1;
    }
    assert ids[..i] == ids && Elems(ids) == inDegree.Keys;
    CountsAtStart(tasks, inDegree, edges);
    ZeroMeansReady(tasks, inDegree.Keys, edges, inDegree, []);
  }
}
