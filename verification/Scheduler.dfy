/** The plain scheduler: ready tasks wait in a first-in first-out queue. */
module Scheduler {
  import opened Order
  import opened TaskGraph
  import opened DepCount
  import opened TaskTable
  import opened LaunchQueue

  /** The launches of `Run`, in order; what the launched goroutines do is in `LaunchProtocol`. */
  method Run(table: TaskTable) returns (launched: seq<Id>)
    requires table.Valid()
    ensures CompleteLaunch(table.tasks, table.inDegree.Keys, launched)
    ensures FirstInFirstOut(table.tasks, table.inDegree.Keys, launched)
  {
    var tasks, inDegree := table.tasks, table.inDegree;
    ghost var declared := inDegree.Keys;
    var allEdges, readyQueue;
    ghost var first, all;
    allEdges, all := EdgeList(tasks);
    readyQueue, first := InitiallyReady(tasks, inDegree, allEdges);
    CountsAtStart(tasks, inDegree, allEdges);
    LineStart(tasks, declared, first, all, readyQueue);
    launched := [];
    assert launched + readyQueue == readyQueue;
    while readyQueue != []
      invariant inDegree.Keys == declared && Counts(allEdges, inDegree, launched)
      invariant LaunchOrder(tasks, declared, launched)
      invariant Distinct(readyQueue) && Elems(readyQueue) == ReadyTasks(tasks, declared, launched)
      invariant InLine(tasks, declared, launched, first, all, launched + readyQueue)
      decreases declared - Elems(launched)
    {
      var id := readyQueue[0];
      assert id in Elems(readyQueue);
      var freed;
      inDegree, freed := Release(tasks, allEdges, inDegree, id, launched);
      QueueStep(tasks, declared, launched, readyQueue, freed);
      LaunchExtend(tasks, declared, launched, id);
      LineStep(tasks, declared, launched, first, all, readyQueue, freed);
      readyQueue := readyQueue[1..] + freed;
      launched := launched + [id];
    }
    assert launched + readyQueue == launched;
  }

  /** The front of the queue is launched and what it freed is appended. */
  lemma QueueStep(tasks: Tasks, declared: set<Id>, launched: seq<Id>, queue: seq<Id>, freed: seq<Id>)
    requires queue != [] && Distinct(queue) && Elems(queue) == ReadyTasks(tasks, declared, launched)
    requires Distinct(freed) && FreedBy(tasks, declared, launched, queue[0], freed)
    ensures Distinct(queue[1..] + freed)
    ensures Elems(queue[1..] + freed) == ReadyTasks(tasks, declared, launched + [queue[0]])
    ensures declared - Elems(launched + [queue[0]]) < declared - Elems(launched)
  {
    var id := queue[0];
    assert id in Elems(queue) && id in ReadyTasks(tasks, declared, launched);
    assert Elems(queue[1..]) == Elems(queue) - {id};
    assert Elems(queue[1..] + freed) == Elems(queue[1..]) + Elems(freed);
    assert Elems(launched + [id]) == Elems(launched) + {id};
    var q := queue[1..] + freed;
    forall i, j | 0 <= i < j < |q| ensures q[i] != q[j] {
      if i < |queue| - 1 <= j {
        assert q[i] == queue[i + 1] && q[i] in Elems(queue);
        assert q[j] == freed[j - (|queue| - 1)] && q[j] in Elems(freed);
      }
    }
  }
}
