/**
 In which order a first-in first-out queue launches tasks. The order depends on two others, in which
 the runtime visits the in-degree map at the start and the task map to list the edges.
 */
module LaunchQueue {
  import opened Order
  import opened TaskGraph
  import opened DepCount

  /** The task is ready once the first `k` of the order are launched. */
  ghost predicate ReadyAfter(tasks: Tasks, declared: set<Id>, o: seq<Id>, k: nat, t: Id) {
    k <= |o| && IsReady(tasks, declared, o[..k], t)
  }

  /** The launch before it made the task ready, or it was so from the start. */
  ghost predicate BecomesReady(tasks: Tasks, declared: set<Id>, o: seq<Id>, k: nat, t: Id) {
    ReadyAfter(tasks, declared, o, k, t) && (k > 0 ==> !ReadyAfter(tasks, declared, o, k - 1, t))
  }

  /** `a` may be ahead of `b`: it was ready whenever `b` was, and came first if both became ready at once. */
  ghost predicate MayLead(
    tasks: Tasks, declared: set<Id>, o: seq<Id>, first: seq<Id>, all: seq<Id>, k: nat, a: Id, b: Id)
  {
    && (ReadyAfter(tasks, declared, o, k, b) ==> ReadyAfter(tasks, declared, o, k, a))
    && (BecomesReady(tasks, declared, o, k, a) && BecomesReady(tasks, declared, o, k, b) ==>
          ComesFirst(if k == 0 then first else all, a, b))
  }

  /** `line` is the launched tasks and then the waiting ones: each pair is in the order of becoming ready. */
  ghost predicate InLine(
    tasks: Tasks, declared: set<Id>, o: seq<Id>, first: seq<Id>, all: seq<Id>, line: seq<Id>)
  {
    forall i, j, k: nat | 0 <= i < j < |line| && k <= i && k <= |o| ::
      MayLead(tasks, declared, o, first, all, k, line[i], line[j])
  }

  /** First in, first out, for some order in which the two maps are visited. */
  ghost predicate FirstInFirstOut(tasks: Tasks, declared: set<Id>, o: seq<Id>) {
    exists first, all ::
      Lists(first, declared) && Lists(all, tasks.Keys) && InLine(tasks, declared, o, first, all, o)
  }

  lemma SameReady(tasks: Tasks, declared: set<Id>, o: seq<Id>, id: Id, k: nat, t: Id)
    requires k <= |o|
    ensures ReadyAfter(tasks, declared, o + [id], k, t) <==> ReadyAfter(tasks, declared, o, k, t)
    ensures BecomesReady(tasks, declared, o + [id], k, t) <==> BecomesReady(tasks, declared, o, k, t)
  {
    assert (o + [id])[..k] == o[..k];
    if k > 0 { assert (o + [id])[..k - 1] == o[..k - 1]; }
  }

  lemma LineStart(tasks: Tasks, declared: set<Id>, first: seq<Id>, all: seq<Id>, queue: seq<Id>)
    requires Elems(queue) == ReadyTasks(tasks, declared, []) && ListedBy(first, queue)
    ensures InLine(tasks, declared, [], first, all, queue)
  {
    forall i, j | 0 <= i < j < |queue| ensures MayLead(tasks, declared, [], first, all, 0, queue[i], queue[j]) {
      assert queue[i] in Elems(queue);
    }
  }

  /** The front of the queue is launched and what that made ready is appended. */
  lemma LineStep(
    tasks: Tasks, declared: set<Id>, o: seq<Id>, first: seq<Id>, all: seq<Id>, queue: seq<Id>, freed: seq<Id>)
    requires InLine(tasks, declared, o, first, all, o + queue) && queue != [] && Distinct(queue)
    requires Elems(queue) == ReadyTasks(tasks, declared, o) && ListedBy(all, freed)
    requires FreedBy(tasks, declared, o, queue[0], freed)
    ensures InLine(tasks, declared, o + [queue[0]], first, all, (o + [queue[0]]) + (queue[1..] + freed))
  {
    var id := queue[0];
    var line, more := o + queue, o + queue + freed;
    assert (o + [id]) + (queue[1..] + freed) == more;
    forall i, j, k: nat | 0 <= i < j < |more| && k <= i && k <= |o| + 1
      ensures MayLead(tasks, declared, o + [id], first, all, k, more[i], more[j])
    {
      if k <= |o| {
        SameReady(tasks, declared, o, id, k, more[i]);
        SameReady(tasks, declared, o, id, k, more[j]);
        if j < |line| {
          assert MayLead(tasks, declared, o, first, all, k, line[i], line[j]);
        } else {
          FreedNotReady(tasks, declared, o, id, freed, k, more[j]);
        }
      } else {
        LastReady(tasks, declared, o, first, all, queue, freed, i - |o| - 1, j - |o| - 1);
      }
    }
  }

  lemma FreedNotReady(tasks: Tasks, declared: set<Id>, o: seq<Id>, id: Id, freed: seq<Id>, k: nat, t: Id)
    requires FreedBy(tasks, declared, o, id, freed) && t in freed && k <= |o|
    ensures !ReadyAfter(tasks, declared, o, k, t)
  {
    assert t in Elems(freed) && t in ReadyTasks(tasks, declared, o + [id]) && t !in ReadyTasks(tasks, declared, o);
    assert o[..|o|] == o;
    assert Elems(o[..k]) <= Elems(o);
  }

  /** All that wait after the launch are ready then, and of those just freed the list gives the order. */
  lemma LastReady(
    tasks: Tasks, declared: set<Id>, o: seq<Id>, first: seq<Id>, all: seq<Id>, queue: seq<Id>, freed: seq<Id>,
    x: nat, y: nat)
    requires queue != [] && Elems(queue) == ReadyTasks(tasks, declared, o) && ListedBy(all, freed) && Distinct(queue)
    requires FreedBy(tasks, declared, o, queue[0], freed) && x < y < |queue[1..] + freed|
    ensures var waiting := queue[1..] + freed;
            MayLead(tasks, declared, o + [queue[0]], first, all, |o| + 1, waiting[x], waiting[y])
  {
    var id, waiting, n := queue[0], queue[1..] + freed, |queue| - 1;
    var o' := o + [id];
    assert o'[..|o| + 1] == o' && o'[..|o|] == o;
    forall z: nat | z < |waiting|
      ensures z < n ==> waiting[z] in ReadyTasks(tasks, declared, o)
      ensures z >= n ==> waiting[z] == freed[z - n]
    {
      if z < n { assert queue[z + 1] in Elems(queue); }
    }
    if x >= n {
      assert ComesFirst(all, freed[x - n], freed[y - n]);
    }
    ReadyNow(tasks, declared, o, queue, freed, x);
  }

  lemma ReadyNow(tasks: Tasks, declared: set<Id>, o: seq<Id>, queue: seq<Id>, freed: seq<Id>, x: nat)
    requires queue != [] && Elems(queue) == ReadyTasks(tasks, declared, o) && Distinct(queue)
    requires FreedBy(tasks, declared, o, queue[0], freed) && x < |queue[1..] + freed|
    ensures (queue[1..] + freed)[x] in ReadyTasks(tasks, declared, o + [queue[0]])
  {
    var t := (queue[1..] + freed)[x];
    if x < |queue| - 1 {
      assert t == queue[x + 1] && t in Elems(queue) && t != queue[0];
    } else {
      assert t == freed[x - (|queue| - 1)] && t in Elems(freed);
    }
  }

  // --- in which order tasks are freed -----------------------------------------------------

  /** The edges are listed task by task. */
  ghost predicate ByTask(all: seq<Id>, edges: seq<DepEdge>) {
    forall i, j | 0 <= i < j < |edges| ::
      edges[i].task == edges[j].task || ComesFirst(all, edges[i].task, edges[j].task)
  }

  /** The release loop, with the places of the edges that freed them. */
  ghost predicate ReleasingAt(
    tasks: Tasks, edges: seq<DepEdge>, before: map<Id, int>, inDegree: map<Id, int>, id: Id, k: nat,
    freed: seq<Id>, pos: seq<nat>)
  {
    Releasing(tasks, edges, before, inDegree, id, k, freed) && FreedAt(edges, k, freed, pos)
  }

  lemma ReleaseAtStart(tasks: Tasks, edges: seq<DepEdge>, before: map<Id, int>, id: Id)
    ensures ReleasingAt(tasks, edges, before, before, id, 0, [], [])
  {
    ReleaseStart(tasks, edges, before, id);
  }

  lemma ReleaseAtStep(
    tasks: Tasks, edges: seq<DepEdge>, before: map<Id, int>, inDegree: map<Id, int>, id: Id, k: nat,
    freed: seq<Id>, pos: seq<nat>)
    requires ReleasingAt(tasks, edges, before, inDegree, id, k, freed, pos) && k < |edges|
    requires forall t | t in before :: before[t] >= From(edges, t, id)
    requires edges[k].task in before && edges[k].task in tasks
    ensures var t := edges[k].task;
            if edges[k].dep == id then
              var zero := inDegree[t] - 1 == 0 && tasks[t].fn != NoFn;
              ReleasingAt(tasks, edges, before, inDegree[t := inDegree[t] - 1], id, k + 1,
                          if zero then freed + [t] else freed, if zero then pos + [k] else pos)
            else ReleasingAt(tasks, edges, before, inDegree, id, k + 1, freed, pos)
  {
    ReleaseStep(tasks, edges, before, inDegree, id, k, freed);
    FreedAtStep(edges, k, freed, pos);
  }

  lemma FreedInOrder(all: seq<Id>, edges: seq<DepEdge>, k: nat, freed: seq<Id>, pos: seq<nat>)
    requires ByTask(all, edges) && k <= |edges| && FreedAt(edges, k, freed, pos) && Distinct(freed)
    ensures ListedBy(all, freed)
  {
    forall i, j | 0 <= i < j < |freed| ensures ComesFirst(all, freed[i], freed[j]) {
      assert pos[i] < pos[j];
      assert edges[pos[i]].task == freed[i] && edges[pos[j]].task == freed[j];
    }
  }

  lemma FreedListed(
    tasks: Tasks, edges: seq<DepEdge>, before: map<Id, int>, inDegree: map<Id, int>, id: Id, k: nat,
    freed: seq<Id>, pos: seq<nat>)
    requires ReleasingAt(tasks, edges, before, inDegree, id, k, freed, pos)
    ensures Releasing(tasks, edges, before, inDegree, id, k, freed)
    ensures forall all | ByTask(all, edges) :: ListedBy(all, freed)
  {
    forall all | ByTask(all, edges) ensures ListedBy(all, freed) {
      FreedInOrder(all, edges, k, freed, pos);
    }
  }

  lemma AddByTask(all: seq<Id>, i: nat, edges: seq<DepEdge>, more: seq<DepEdge>)
    requires ByTask(all, edges) && i < |all| && forall e | e in edges :: e.task in all[..i]
    requires forall e | e in more :: e.task == all[i]
    ensures ByTask(all, edges + more)
  {
    var longer := edges + more;
    forall a, b | 0 <= a < b < |longer|
      ensures longer[a].task == longer[b].task || ComesFirst(all, longer[a].task, longer[b].task)
    {
      if b >= |edges| {
        assert longer[b] in more;
        if a < |edges| {
          assert longer[a] in edges;
          var x :| 0 <= x < i && all[..i][x] == longer[a].task;
          assert all[x] == longer[a].task;
        } else {
          assert longer[a] in more;
        }
      }
    }
  }

  /** The next of the order is appended to a list of earlier ones. */
  lemma ListNext(order: seq<Id>, i: nat, list: seq<Id>)
    requires ListedBy(order, list) && Distinct(order) && i < |order| && forall t | t in list :: t in order[..i]
    requires Distinct(list)
    ensures ListedBy(order, list + [order[i]]) && Distinct(list + [order[i]])
  {
    var more := list + [order[i]];
    forall a, b | 0 <= a < b < |more| ensures ComesFirst(order, more[a], more[b]) && more[a] != more[b] {
      assert more[a] in list;
      if b == |list| {
        var x :| 0 <= x < i && order[..i][x] == more[a];
        assert order[x] == more[a];
      }
    }
  }
}
