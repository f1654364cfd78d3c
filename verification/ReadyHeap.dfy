/** What the priority scheduler's heap holds while tasks are launched from it. */
module ReadyHeap {
  import opened Order
  import opened TaskGraph
  import opened DepCount
  import opened HeapEntries

  /** For each waiting task, its entry in the queue. */
  type Waiting = map<Id, Ref>

  /** The queue holds exactly the `ready` tasks, each once, under its priority. */
  ghost predicate Holds(tasks: Tasks, ready: set<Id>, store: Store<Id>, waiting: Waiting) {
    && waiting.Keys == ready && ready <= tasks.Keys
    && (forall t | t in waiting ::
          && waiting[t] in store && store[waiting[t]].index != -1
          && store[waiting[t]].value == t && store[waiting[t]].key == tasks[t].priority)
    && (forall r | r in store && store[r].index != -1 :: store[r].value in waiting && waiting[store[r].value] == r)
  }

  lemma PushKeepsHolds(
    tasks: Tasks, ready: set<Id>, store: Store<Id>, waiting: Waiting, t: Id, r: Ref, store': Store<Id>)
    requires Holds(tasks, ready, store, waiting) && t in tasks && t !in ready
    requires Added(store, r, t, tasks[t].priority, store')
    ensures Holds(tasks, ready + {t}, store', waiting[t := r])
  {
  }

  lemma PopKeepsHolds(tasks: Tasks, ready: set<Id>, store: Store<Id>, waiting: Waiting, r: Ref, store': Store<Id>)
    requires Holds(tasks, ready, store, waiting) && r in store && store[r].index != -1
    requires SameEntries(SetIndex(store, r, -1), store')
    ensures store[r].value in ready
    ensures Holds(tasks, ready - {store[r].value}, store', waiting - {store[r].value})
  {
  }

  lemma MoveKeepsHolds(tasks: Tasks, ready: set<Id>, store: Store<Id>, waiting: Waiting, store': Store<Id>)
    requires Holds(tasks, ready, store, waiting) && SameEntries(store, store')
    ensures Holds(tasks, ready, store', waiting)
  {
  }

  /** Each launched task had the highest priority of all that were ready at that moment. */
  ghost predicate HighestFirst(tasks: Tasks, declared: set<Id>, order: seq<Id>) {
    forall k | 0 <= k < |order| :: Highest(tasks, ReadyTasks(tasks, declared, order[..k]), order[k])
  }

  ghost predicate Highest(tasks: Tasks, ready: set<Id>, id: Id) {
    id in ready && id in tasks && forall t | t in ready && t in tasks :: tasks[t].priority <= tasks[id].priority
  }

  lemma HighestExtend(tasks: Tasks, declared: set<Id>, order: seq<Id>, id: Id)
    requires HighestFirst(tasks, declared, order)
    requires Highest(tasks, ReadyTasks(tasks, declared, order), id)
    ensures HighestFirst(tasks, declared, order + [id])
  {
    var more := order + [id];
    forall k | 0 <= k < |more| ensures Highest(tasks, ReadyTasks(tasks, declared, more[..k]), more[k]) {
      assert more[..k] == order[..k];
      if k == |order| { assert order[..k] == order; }
    }
  }

  lemma RootIsHighest(tasks: Tasks, ready: set<Id>, items: seq<Ref>, store: Store<Id>, waiting: Waiting)
    requires HeapOk(true, items, store) && Holds(tasks, ready, store, waiting) && items != []
    ensures items[0] in store && store[items[0]].index != -1
    ensures Highest(tasks, ready, store[items[0]].value)
  {
    var root := items[0];
    assert root in store && store[root].index == 0;
    forall t | t in ready ensures tasks[t].priority <= store[root].key {
      RootLightest(true, items, store, waiting[t]);
    }
  }

  lemma EmptyHoldsNothing(tasks: Tasks, ready: set<Id>, store: Store<Id>, waiting: Waiting)
    requires Indexed([], store) && Holds(tasks, ready, store, waiting)
    ensures ready == {}
  {
  }

  /** The invariant of the launch loop. */
  ghost predicate Launching(
    tasks: Tasks, edges: seq<DepEdge>, declared: set<Id>, inDegree: map<Id, int>, launched: seq<Id>)
  {
    && inDegree.Keys == declared <= tasks.Keys
    && EdgesMatch(tasks, edges) && Counts(edges, inDegree, launched)
    && (forall t | t in tasks && t !in declared :: tasks[t].deps == [])
    && LaunchOrder(tasks, declared, launched) && HighestFirst(tasks, declared, launched)
  }

  lemma LaunchingStart(tasks: Tasks, edges: seq<DepEdge>, inDegree: map<Id, int>)
    requires TableOk(tasks, inDegree) && EdgesMatch(tasks, edges)
    ensures Launching(tasks, edges, inDegree.Keys, inDegree, [])
  {
    CountsAtStart(tasks, inDegree, edges);
  }

  lemma LaunchingStep(
    tasks: Tasks, edges: seq<DepEdge>, declared: set<Id>, inDegree: map<Id, int>, launched: seq<Id>,
    id: Id, inDegree': map<Id, int>)
    requires Launching(tasks, edges, declared, inDegree, launched)
    requires Highest(tasks, ReadyTasks(tasks, declared, launched), id)
    requires inDegree'.Keys == declared && Counts(edges, inDegree', launched + [id])
    ensures Launching(tasks, edges, declared, inDegree', launched + [id])
    ensures declared - Elems(launched + [id]) < declared - Elems(launched)
  {
    LaunchExtend(tasks, declared, launched, id);
    HighestExtend(tasks, declared, launched, id);
    assert Elems(launched + [id]) == Elems(launched) + {id};
    assert id in declared && id !in Elems(launched);
  }
}
