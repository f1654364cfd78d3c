/**
 In which order the priority scheduler launches tasks of equal priority: as its heap has them. The
 heap is described by the ids in its slots, and runs through the same sifts as the scheduler's.
 */
module LaunchHeap {
  import opened Order
  import opened TaskGraph
  import opened DepCount
  import opened HeapShape
  import opened HeapPaths
  import opened HeapEntries
  import opened ReadyHeap
  import opened LaunchQueue

  function PriorityOf(tasks: Tasks, id: Id): int {
    if id in tasks then tasks[id].priority else 0
  }

  /** High priorities are light. */
  function IdWeights(tasks: Tasks, q: seq<Id>): (w: seq<int>)
    ensures |w| == |q|
  {
    seq(|q|, k requires 0 <= k < |q| => -PriorityOf(tasks, q[k]))
  }

  ghost predicate IdPushed(tasks: Tasks, q: seq<Id>, id: Id, q': seq<Id>) {
    SiftedUp(IdWeights(tasks, q + [id]), q + [id], q', |q|)
  }

  /** The ids are pushed one after the other. */
  ghost predicate IdsPushed(tasks: Tasks, q: seq<Id>, ids: seq<Id>, q': seq<Id>) {
    exists trace :: PushTrace(tasks, q, ids, q', trace)
  }

  ghost predicate PushTrace(tasks: Tasks, q: seq<Id>, ids: seq<Id>, q': seq<Id>, trace: seq<seq<Id>>) {
    && |trace| == |ids| + 1 && trace[0] == q && trace[|ids|] == q'
    && forall k | 0 <= k < |ids| :: IdPushed(tasks, trace[k], ids[k], trace[k + 1])
  }

  /** The root is taken, and what its launch made ready is pushed. */
  ghost predicate IdsAfter(tasks: Tasks, q: seq<Id>, freed: seq<Id>, q': seq<Id>) {
    exists rest :: q != [] && RemovedAt(IdWeights(tasks, q), q, rest, 0) && IdsPushed(tasks, rest, freed, q')
  }

  /** The tasks that become ready with launch `k` of the order, listed. */
  ghost predicate ListsReady(tasks: Tasks, declared: set<Id>, o: seq<Id>, visited: seq<Id>, k: nat, list: seq<Id>) {
    && Distinct(list) && ListedBy(visited, list)
    && forall t :: t in list <==> BecomesReady(tasks, declared, o, k, t)
  }

  ghost predicate StartsWith(tasks: Tasks, declared: set<Id>, o: seq<Id>, first: seq<Id>, q: seq<Id>) {
    exists list :: ListsReady(tasks, declared, o, first, 0, list) && IdsPushed(tasks, [], list, q)
  }

  ghost predicate StartsAs(tasks: Tasks, declared: set<Id>, o: seq<Id>, first: seq<Id>, heaps: seq<seq<Id>>) {
    heaps != [] && StartsWith(tasks, declared, o, first, heaps[0])
  }

  ghost predicate Launches(
    tasks: Tasks, declared: set<Id>, o: seq<Id>, all: seq<Id>, k: nat, q: seq<Id>, q': seq<Id>)
  {
    && k < |o| && q != [] && q[0] == o[k]
    && exists freed :: ListsReady(tasks, declared, o, all, k + 1, freed) && IdsAfter(tasks, q, freed, q')
  }

  ghost predicate LaunchAt(tasks: Tasks, declared: set<Id>, o: seq<Id>, all: seq<Id>, heaps: seq<seq<Id>>, k: nat) {
    k + 1 < |heaps| && Launches(tasks, declared, o, all, k, heaps[k], heaps[k + 1])
  }

  // --- the ids in the slots ---------------------------------------------------------------

  ghost function IdsIn(items: seq<Ref>, store: Store<Id>): (ids: seq<Id>)
    ensures |ids| == |items|
  {
    seq(|items|, k requires 0 <= k < |items| => if items[k] in store then store[items[k]].value else "")
  }

  lemma MovedWith(s: seq<Ref>, s': seq<Ref>, q: seq<Id>, q': seq<Id>, p: seq<nat>, store: Store<Id>)
    requires MovedAlong(s, s', p) && q == IdsIn(s, store) && q' == IdsIn(s', store)
    ensures MovedAlong(q, q', p)
  {
    forall k | 0 <= k < |p| - 1 ensures Follows(q, q', p, k) {
      assert Follows(s, s', p, k);
    }
  }

  lemma RisesWith(w: seq<int>, s: seq<Ref>, s': seq<Ref>, store: Store<Id>, i: nat)
    requires SiftedUp(w, s, s', i)
    ensures SiftedUp(w, IdsIn(s, store), IdsIn(s', store), i)
  {
    var p :| UpPath(w, i, p) && StaysBelow(w, p[|p| - 1], w[i]) && MovedAlong(s, s', p);
    MovedWith(s, s', IdsIn(s, store), IdsIn(s', store), p, store);
  }

  lemma SettlesWith(w: seq<int>, s: seq<Ref>, s': seq<Ref>, store: Store<Id>, i: nat)
    requires i < |w| && SettledAt(w, s, s', i)
    ensures SettledAt(w, IdsIn(s, store), IdsIn(s', store), i)
  {
    if StaysAbove(w, i, w[i]) {
      RisesWith(w, s, s', store, i);
    } else {
      var p :| DownPath(w, i, p) && StaysAbove(w, p[|p| - 1], w[i]) && MovedAlong(s, s', p);
      MovedWith(s, s', IdsIn(s, store), IdsIn(s', store), p, store);
    }
  }

  lemma RemovedWith(w: seq<int>, s: seq<Ref>, s': seq<Ref>, store: Store<Id>)
    requires RemovedAt(w, s, s', 0)
    ensures RemovedAt(w, IdsIn(s, store), IdsIn(s', store), 0)
  {
    var t :| |t| == |s| > 0 && s' == t[..|s| - 1] && MovedOut(w, s, t, 0);
    MovedOutWith(w, s, t, store);
    assert IdsIn(s', store) == IdsIn(t, store)[..|s| - 1];
  }

  lemma MovedOutWith(w: seq<int>, s: seq<Ref>, t: seq<Ref>, store: Store<Id>)
    requires MovedOut(w, s, t, 0) && |t| == |s|
    ensures MovedOut(w, IdsIn(s, store), IdsIn(t, store), 0)
  {
    var n := |s| - 1;
    if n > 0 {
      SettlesWith(SwapAt(w, 0, n)[..n], SwapAt(s, 0, n), t, store, 0);
      assert IdsIn(SwapAt(s, 0, n), store) == SwapAt(IdsIn(s, store), 0, n);
    }
  }

  /** The weights of entries are those of their tasks. */
  ghost predicate UnderPriority(tasks: Tasks, items: seq<Ref>, store: Store<Id>) {
    forall k | 0 <= k < |items| ::
      items[k] in store && store[items[k]].key == PriorityOf(tasks, store[items[k]].value)
  }

  lemma WeightsAreIds(tasks: Tasks, items: seq<Ref>, store: Store<Id>)
    requires UnderPriority(tasks, items, store)
    ensures Weights(true, items, store) == IdWeights(tasks, IdsIn(items, store))
  {
  }

  lemma HoldsUnderPriority(tasks: Tasks, ready: set<Id>, items: seq<Ref>, store: Store<Id>, waiting: Waiting)
    requires Holds(tasks, ready, store, waiting) && Indexed(items, store)
    ensures UnderPriority(tasks, items, store)
  {
    forall k | 0 <= k < |items|
      ensures items[k] in store && store[items[k]].key == PriorityOf(tasks, store[items[k]].value)
    {
      assert store[items[k]].index == k;
    }
  }

  /** `heap.Push`, seen by ids. */
  lemma PushIsIdPush(
    tasks: Tasks, items: seq<Ref>, store: Store<Id>, r: Ref, id: Id, items': seq<Ref>, store': Store<Id>)
    requires UnderPriority(tasks, items, store) && id in tasks && Indexed(items, store)
    requires PushedTo(true, items, store, r, tasks[id].priority, items')
    requires Added(store, r, id, tasks[id].priority, store')
    ensures IdPushed(tasks, IdsIn(items, store), id, IdsIn(items', store'))
  {
    RisesWith(Weights(true, items, store) + [Weight(true, tasks[id].priority)], items + [r], items', store', |items|);
    WeightsAreIds(tasks, items, store);
    OneMoreId(items, store, r, id, tasks[id].priority, store');
    OneMoreIdWeight(tasks, IdsIn(items, store), id);
  }

  lemma OneMoreIdWeight(tasks: Tasks, q: seq<Id>, id: Id)
    requires id in tasks
    ensures IdWeights(tasks, q + [id]) == IdWeights(tasks, q) + [-tasks[id].priority]
  {
  }

  lemma OneMoreId(items: seq<Ref>, store: Store<Id>, r: Ref, id: Id, key: int, store': Store<Id>)
    requires Indexed(items, store) && Added(store, r, id, key, store')
    ensures IdsIn(items + [r], store') == IdsIn(items, store) + [id]
  {
    forall k | 0 <= k < |items| ensures IdsIn(items + [r], store')[k] == IdsIn(items, store)[k] {
      assert items[k] in store && items[k] != r;
    }
  }

  /** `heap.Pop`, seen by ids. */
  lemma PopIsIdPop(tasks: Tasks, items: seq<Ref>, store: Store<Id>, r: Ref, items': seq<Ref>, store': Store<Id>)
    requires UnderPriority(tasks, items, store) && r in store
    requires RemovedTo(true, items, store, 0, items') && SameEntries(SetIndex(store, r, -1), store')
    ensures RemovedAt(IdWeights(tasks, IdsIn(items, store)), IdsIn(items, store), IdsIn(items', store'), 0)
  {
    WeightsAreIds(tasks, items, store);
    RemovedWith(Weights(true, items, store), items, items', store);
    assert IdsIn(items', store') == IdsIn(items', store);
  }

  // --- growing the traces -----------------------------------------------------------------

  lemma NothingPushed(tasks: Tasks, q: seq<Id>)
    ensures IdsPushed(tasks, q, [], q)
  {
    assert PushTrace(tasks, q, [], q, [q]);
  }

  lemma OneMorePushed(tasks: Tasks, q: seq<Id>, ids: seq<Id>, q1: seq<Id>, id: Id, q': seq<Id>)
    requires IdsPushed(tasks, q, ids, q1) && IdPushed(tasks, q1, id, q')
    ensures IdsPushed(tasks, q, ids + [id], q')
  {
    var trace :| PushTrace(tasks, q, ids, q1, trace);
    var longer, more := trace + [q'], ids + [id];
    forall k | 0 <= k < |more| ensures IdPushed(tasks, longer[k], more[k], longer[k + 1]) {
      if k < |ids| { assert IdPushed(tasks, trace[k], ids[k], trace[k + 1]); }
    }
    assert PushTrace(tasks, q, more, q', longer);
  }

  /** The first `i` ids have been pushed onto what was `start`. */
  ghost predicate Pushing(
    tasks: Tasks, ready: set<Id>, start: seq<Id>, ids: seq<Id>, i: nat, q: seq<Id>, store: Store<Id>, waiting: Waiting)
  {
    && i <= |ids| && Holds(tasks, ready + Elems(ids[..i]), store, waiting)
    && IdsPushed(tasks, start, ids[..i], q)
  }

  lemma PushingStarts(
    tasks: Tasks, ready: set<Id>, start: seq<Id>, ids: seq<Id>, store: Store<Id>, waiting: Waiting)
    requires Holds(tasks, ready, store, waiting)
    ensures Pushing(tasks, ready, start, ids, 0, start, store, waiting)
  {
    NothingPushed(tasks, start);
    assert ids[..0] == [] && ready + Elems([]) == ready;
  }

  lemma PushingHolds(
    tasks: Tasks, ready: set<Id>, start: seq<Id>, ids: seq<Id>, i: nat, q: seq<Id>, store: Store<Id>, waiting: Waiting)
    requires Pushing(tasks, ready, start, ids, i, q, store, waiting) && i < |ids|
    requires Distinct(ids) && Elems(ids) !! ready && Elems(ids) <= tasks.Keys
    ensures Holds(tasks, ready + Elems(ids[..i]), store, waiting)
    ensures ids[i] in tasks && ids[i] !in ready + Elems(ids[..i])
  {
    assert ids[i] in Elems(ids) && ids[i] !in ids[..i];
  }

  lemma PushingOn(
    tasks: Tasks, ready: set<Id>, start: seq<Id>, ids: seq<Id>, i: nat, q: seq<Id>,
    q': seq<Id>, store': Store<Id>, waiting': Waiting)
    requires i < |ids| && IdsPushed(tasks, start, ids[..i], q) && IdPushed(tasks, q, ids[i], q')
    requires Holds(tasks, ready + Elems(ids[..i]) + {ids[i]}, store', waiting')
    ensures Pushing(tasks, ready, start, ids, i + 1, q', store', waiting')
  {
    OneMorePushed(tasks, start, ids[..i], q, ids[i], q');
    assert ids[..i + 1] == ids[..i] + [ids[i]];
    assert ready + Elems(ids[..i]) + {ids[i]} == ready + Elems(ids[..i + 1]);
  }

  lemma ListStarts(tasks: Tasks, declared: set<Id>, first: seq<Id>, all: seq<Id>, list: seq<Id>, q: seq<Id>)
    requires Distinct(list) && Elems(list) == ReadyTasks(tasks, declared, []) && ListedBy(first, list)
    requires IdsPushed(tasks, [], list, q)
    ensures StartsWith(tasks, declared, [], first, q)
  {
    forall t ensures t in list <==> BecomesReady(tasks, declared, [], 0, t) {
      assert t in list <==> t in Elems(list);
    }
    assert ListsReady(tasks, declared, [], first, 0, list);
  }

  lemma NewLaunch(
    tasks: Tasks, declared: set<Id>, o: seq<Id>, all: seq<Id>, heaps: seq<seq<Id>>, id: Id, freed: seq<Id>,
    q': seq<Id>)
    requires |heaps| == |o| + 1 && FreedAfter(tasks, declared, o, all, heaps[|o|], id, freed, q')
    ensures LaunchAt(tasks, declared, o + [id], all, heaps + [q'], |o|)
  {
    FreedIsReady(tasks, declared, o, id, all, freed);
  }

  lemma TakenAndPushed(tasks: Tasks, q: seq<Id>, rest: seq<Id>, freed: seq<Id>, q': seq<Id>)
    requires q != [] && RemovedAt(IdWeights(tasks, q), q, rest, 0) && IdsPushed(tasks, rest, freed, q')
    ensures IdsAfter(tasks, q, freed, q')
  {
  }

  /** The task at the root was launched, and what that freed was pushed. */
  ghost predicate FreedAfter(
    tasks: Tasks, declared: set<Id>, o: seq<Id>, all: seq<Id>, q: seq<Id>, id: Id, freed: seq<Id>, q': seq<Id>)
  {
    && q != [] && q[0] == id && IdsAfter(tasks, q, freed, q')
    && FreedBy(tasks, declared, o, id, freed) && Distinct(freed) && ListedBy(all, freed)
  }

  lemma StartsStay(
    tasks: Tasks, declared: set<Id>, o: seq<Id>, id: Id, first: seq<Id>, heaps: seq<seq<Id>>, last: seq<Id>)
    requires StartsAs(tasks, declared, o, first, heaps)
    ensures StartsAs(tasks, declared, o + [id], first, heaps + [last])
  {
    var q := heaps[0];
    var list :| ListsReady(tasks, declared, o, first, 0, list) && IdsPushed(tasks, [], list, q);
    ListStays(tasks, declared, o, id, first, 0, list);
  }

  lemma LaunchStays(
    tasks: Tasks, declared: set<Id>, o: seq<Id>, id: Id, all: seq<Id>, heaps: seq<seq<Id>>, last: seq<Id>, k: nat)
    requires LaunchAt(tasks, declared, o, all, heaps, k)
    ensures LaunchAt(tasks, declared, o + [id], all, heaps + [last], k)
  {
    var q, q' := heaps[k], heaps[k + 1];
    var freed :| ListsReady(tasks, declared, o, all, k + 1, freed) && IdsAfter(tasks, q, freed, q');
    ListStays(tasks, declared, o, id, all, k + 1, freed);
  }

  lemma ListStays(tasks: Tasks, declared: set<Id>, o: seq<Id>, id: Id, visited: seq<Id>, k: nat, list: seq<Id>)
    requires ListsReady(tasks, declared, o, visited, k, list) && k <= |o|
    ensures ListsReady(tasks, declared, o + [id], visited, k, list)
  {
    forall t ensures t in list <==> BecomesReady(tasks, declared, o + [id], k, t) {
      SameReady(tasks, declared, o, id, k, t);
    }
  }

  lemma FreedIsReady(tasks: Tasks, declared: set<Id>, o: seq<Id>, id: Id, all: seq<Id>, freed: seq<Id>)
    requires FreedBy(tasks, declared, o, id, freed) && Distinct(freed) && ListedBy(all, freed)
    ensures ListsReady(tasks, declared, o + [id], all, |o| + 1, freed)
  {
    var o' := o + [id];
    assert o'[..|o| + 1] == o' && o'[..|o|] == o;
    forall t ensures t in freed <==> BecomesReady(tasks, declared, o', |o| + 1, t) {
      assert t in freed <==> t in Elems(freed);
      assert ReadyAfter(tasks, declared, o', |o| + 1, t) <==> t in ReadyTasks(tasks, declared, o');
      assert ReadyAfter(tasks, declared, o', |o|, t) <==> t in ReadyTasks(tasks, declared, o);
    }
  }
}
