/** The priority scheduler: ready tasks wait in a max-heap of their priorities. */
module PriorityScheduler {
  import opened Order
  import opened TaskGraph
  import opened DepCount
  import opened TaskTable
  import opened HeapPaths
  import opened IndexedHeap
  import opened ReadyHeap
  import opened LaunchQueue
  import opened LaunchHeap
  import opened LaunchTrace

  /** `heap.Push` of a ready task. */
  method PushOne(queue: Heap<Id>, tasks: Tasks, t: Id, ghost ready: set<Id>, ghost before: Waiting)
    returns (ghost waiting: Waiting)
    requires queue.Valid() && queue.maxFirst && Holds(tasks, ready, queue.store, before)
    requires t in tasks && t !in ready
    modifies queue
    ensures queue.Valid() && Holds(tasks, ready + {t}, queue.store, waiting)
    ensures IdPushed(tasks, old(IdsIn(queue.items, queue.store)), t, IdsIn(queue.items, queue.store))
  {
    ghost var items, store := queue.items, queue.store;
    HoldsUnderPriority(tasks, ready, items, store, before);
    var r := queue.Push(t, tasks[t].priority);
    PushIsIdPush(tasks, items, store, r, t, queue.items, queue.store);
    PushKeepsHolds(tasks, ready, store, before, t, r, queue.store);
    waiting := before[t := r];
  }

  /** Push every task of a list. */
  method PushAll(queue: Heap<Id>, tasks: Tasks, ids: seq<Id>, ghost ready: set<Id>, ghost before: Waiting)
    returns (ghost waiting: Waiting)
    requires queue.Valid() && queue.maxFirst && Holds(tasks, ready, queue.store, before)
    requires Distinct(ids) && Elems(ids) !! ready && Elems(ids) <= tasks.Keys
    modifies queue
    ensures queue.Valid() && Holds(tasks, ready + Elems(ids), queue.store, waiting)
    ensures IdsPushed(tasks, old(IdsIn(queue.items, queue.store)), ids, IdsIn(queue.items, queue.store))
  {
    waiting := before;
    ghost var start := IdsIn(queue.items, queue.store);
    PushingStarts(tasks, ready, start, ids, queue.store, waiting);
    var i := 0;
    while i < |ids|
      invariant 0 <= i <= |ids| && queue.Valid()
      invariant Pushing(tasks, ready, start, ids, i, IdsIn(queue.items, queue.store), queue.store, waiting)
    {
      ghost var q := IdsIn(queue.items, queue.store);
      PushingHolds(tasks, ready, start, ids, i, q, queue.store, waiting);
      waiting := PushOne(queue, tasks, ids[i], ready + Elems(ids[..i]), waiting);
      PushingOn(tasks, ready, start, ids, i, q, IdsIn(queue.items, queue.store), queue.store, waiting);
      i := i + 1;
    }
    assert ids[..i] == ids;
  }

  /** `heap.Pop`: a task of the highest priority in the queue. */
  method PopHighest(queue: Heap<Id>, ghost tasks: Tasks, ghost ready: set<Id>, ghost before: Waiting)
    returns (id: Id, ghost waiting: Waiting)
    requires queue.Valid() && queue.maxFirst && queue.items != []
    requires Holds(tasks, ready, queue.store, before)
    modifies queue
    ensures queue.Valid() && Holds(tasks, ready - {id}, queue.store, waiting)
    ensures Highest(tasks, ready, id)
    ensures var q := old(IdsIn(queue.items, queue.store));
            q != [] && q[0] == id && RemovedAt(IdWeights(tasks, q), q, IdsIn(queue.items, queue.store), 0)
  {
    ghost var items, store := queue.items, queue.store;
    HoldsUnderPriority(tasks, ready, items, store, before);
    RootIsHighest(tasks, ready, queue.items, store, before);
    var item := queue.Pop();
    PopKeepsHolds(tasks, ready, store, before, item, queue.store);
    PopIsIdPop(tasks, items, store, item, queue.items, queue.store);
    id := queue.store[item].value;
    waiting := before - {id};
  }

  /** The launches of `Run`, in order; what the launched goroutines do is in `LaunchProtocol`. */
  method Run(table: TaskTable) returns (launched: seq<Id>)
    requires table.Valid()
    ensures CompleteLaunch(table.tasks, table.inDegree.Keys, launched)
    ensures HighestFirst(table.tasks, table.inDegree.Keys, launched)
    ensures AsTheHeapHasThem(table.tasks, table.inDegree.Keys, launched)
  {
    var tasks, inDegree := table.tasks, table.inDegree;
    ghost var declared := inDegree.Keys;
    var allEdges;
    ghost var all;
    allEdges, all := EdgeList(tasks);
    LaunchingStart(tasks, allEdges, inDegree);
    var readyQueue;
    ghost var waiting, first;
    readyQueue, waiting, first := InitialQueue(tasks, inDegree, allEdges);
    launched := [];
    ghost var heaps := [IdsIn(readyQueue.items, readyQueue.store)];
    assert HeapTrace(tasks, declared, [], first, all, heaps);
    while readyQueue.items != []
      invariant fresh(readyQueue) && readyQueue.Valid() && readyQueue.maxFirst
      invariant Holds(tasks, ReadyTasks(tasks, declared, launched), readyQueue.store, waiting)
      invariant Launching(tasks, allEdges, declared, inDegree, launched)
      invariant HeapTrace(tasks, declared, launched, first, all, heaps)
      invariant heaps[|launched|] == IdsIn(readyQueue.items, readyQueue.store)
      decreases declared - Elems(launched)
    {
      ghost var before, ready := inDegree, ReadyTasks(tasks, declared, launched);
      var id, freed;
      id, waiting := PopHighest(readyQueue, tasks, ready, waiting);
      ghost var rest := IdsIn(readyQueue.items, readyQueue.store);
      inDegree, freed := Release(tasks, allEdges, inDegree, id, launched);
      waiting := PushAll(readyQueue, tasks, freed, ready - {id}, waiting);
      LaunchingStep(tasks, allEdges, declared, before, launched, id, inDegree);
      ghost var now := IdsIn(readyQueue.items, readyQueue.store);
      TakenAndPushed(tasks, heaps[|launched|], rest, freed, now);
      HeapGoesOn(tasks, declared, launched, first, all, heaps, id, freed, now);
      heaps := heaps + [now];
      launched := launched + [id];
    }
    EmptyHoldsNothing(tasks, ReadyTasks(tasks, declared, launched), readyQueue.store, waiting);
  }

  /** Push the tasks that are ready at the start, then `heap.Init`. */
  method InitialQueue(tasks: Tasks, inDegree: map<Id, int>, ghost edges: seq<DepEdge>)
    returns (queue: Heap<Id>, ghost waiting: Waiting, ghost first: seq<Id>)
    requires TableOk(tasks, inDegree) && EdgesMatch(tasks, edges)
    ensures fresh(queue) && queue.Valid() && queue.maxFirst
    ensures Holds(tasks, ReadyTasks(tasks, inDegree.Keys, []), queue.store, waiting)
    ensures Lists(first, inDegree.Keys)
    ensures forall all :: HeapTrace(tasks, inDegree.Keys, [], first, all, [IdsIn(queue.items, queue.store)])
  {
    var ready;
    ready, first := InitiallyReady(tasks, inDegree, edges);
    queue := new Heap<Id>(true, 0);
    assert IdsIn(queue.items, queue.store) == [];
    waiting := PushAll(queue, tasks, ready, {}, map[]);
    ghost var store := queue.store;
    queue.Init();
    forall all ensures HeapTrace(tasks, inDegree.Keys, [], first, all, [IdsIn(queue.items, queue.store)]) {
      HeapStarts(tasks, inDegree.Keys, first, all, ready, IdsIn(queue.items, queue.store));
    }
    MoveKeepsHolds(tasks, ReadyTasks(tasks, inDegree.Keys, []), store, waiting, queue.store);
  }
}
