/** The priority scheduler's whole run, as the ids in its heap's slots from launch to launch. */
module LaunchTrace {
  import opened Order
  import opened TaskGraph
  import opened DepCount
  import opened LaunchQueue
  import opened LaunchHeap

  /** The heap at the start of the run and after each launch. */
  ghost predicate HeapTrace(
    tasks: Tasks, declared: set<Id>, o: seq<Id>, first: seq<Id>, all: seq<Id>, heaps: seq<seq<Id>>)
  {
    && |heaps| == |o| + 1 && StartsAs(tasks, declared, o, first, heaps)
    && forall k | 0 <= k < |o| :: LaunchAt(tasks, declared, o, all, heaps, k)
  }

  /** Each launch takes the root of the heap, for some order in which the two maps are visited. */
  ghost predicate AsTheHeapHasThem(tasks: Tasks, declared: set<Id>, o: seq<Id>) {
    exists first, all, heaps ::
      Lists(first, declared) && Lists(all, tasks.Keys) && HeapTrace(tasks, declared, o, first, all, heaps)
  }

  lemma HeapStarts(tasks: Tasks, declared: set<Id>, first: seq<Id>, all: seq<Id>, list: seq<Id>, q: seq<Id>)
    requires Distinct(list) && Elems(list) == ReadyTasks(tasks, declared, []) && ListedBy(first, list)
    requires IdsPushed(tasks, [], list, q)
    ensures HeapTrace(tasks, declared, [], first, all, [q])
  {
    ListStarts(tasks, declared, first, all, list, q);
  }

  lemma HeapGoesOn(
    tasks: Tasks, declared: set<Id>, o: seq<Id>, first: seq<Id>, all: seq<Id>, heaps: seq<seq<Id>>,
    id: Id, freed: seq<Id>, q': seq<Id>)
    requires HeapTrace(tasks, declared, o, first, all, heaps)
    requires FreedAfter(tasks, declared, o, all, heaps[|o|], id, freed, q')
    ensures HeapTrace(tasks, declared, o + [id], first, all, heaps + [q'])
  {
    NewLaunch(tasks, declared, o, all, heaps, id, freed, q');
    StartsStay(tasks, declared, o, id, first, heaps, q');
    forall k | 0 <= k < |o| ensures LaunchAt(tasks, declared, o + [id], all, heaps + [q'], k) {
      LaunchStays(tasks, declared, o, id, all, heaps, q', k);
    }
  }
}
