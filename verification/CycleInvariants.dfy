/** What the depth-first cycle search keeps true of its variables, as predicates on their values. */
module CycleInvariants {
  import opened Order
  import opened Digraph
  import opened Edges

  /** First and last entry agree, nothing else repeats, consecutive entries are arcs. */
  ghost predicate SimpleCycle(arcs: Arcs, c: seq<Id>) {
    ClosedWalk(arcs, c) && Distinct(c[..|c| - 1])
  }

  ghost predicate ClosedBy(c: seq<Id>, u: Id, v: Id) {
    |c| >= 2 && c[|c| - 2] == u && c[|c| - 1] == v
  }

  /** `(u, v)` is the arc that closes one of the reported cycles. */
  ghost predicate Closing(cycles: seq<seq<Id>>, u: Id, v: Id) {
    exists i :: 0 <= i < |cycles| && ClosedBy(cycles[i], u, v)
  }

  lemma ClosingGrows(before: seq<seq<Id>>, after: seq<seq<Id>>, u: Id, v: Id)
    requires before <= after && Closing(before, u, v)
    ensures Closing(after, u, v)
  {
    var i :| 0 <= i < |before| && ClosedBy(before[i], u, v);
    assert after[i] == before[i];
  }

  /** Arcs that close no reported cycle. */
  ghost function OpenArcs(arcs: Arcs, cycles: seq<seq<Id>>): Arcs {
    set a | a in arcs && !Closing(cycles, a.0, a.1)
  }

  const IN_PROGRESS := 1
  const DONE := 2

  /** `stack` is what is in progress, `finished` what is done, `path` gives stack positions. */
  ghost predicate Colours(visited: map<Id, int>, path: map<Id, nat>, stack: seq<Id>, finished: seq<Id>) {
    && Distinct(stack) && Distinct(finished)
    && (forall id :: id in visited <==> id in stack || id in finished)
    && (forall id | id in stack :: id in visited && visited[id] == IN_PROGRESS)
    && (forall id | id in finished :: id in visited && visited[id] == DONE)
    && (forall id :: id in path <==> id in stack)
    && (forall i | 0 <= i < |stack| :: stack[i] in path && path[stack[i]] == i)
  }

  ghost predicate StackIsWalk(arcs: Arcs, stack: seq<Id>) {
    stack != [] ==> Walk(arcs, stack)
  }

  ghost predicate CyclesGenuine(arcs: Arcs, cycles: seq<seq<Id>>, visited: map<Id, int>) {
    forall i | 0 <= i < |cycles| :: SimpleCycle(arcs, cycles[i]) && Elems(cycles[i]) <= visited.Keys
  }

  /** An identifier in progress is on the stack, where `path` says. */
  lemma InProgressAt(visited: map<Id, int>, path: map<Id, nat>, stack: seq<Id>, finished: seq<Id>, id: Id)
    requires Colours(visited, path, stack, finished) && id in visited && visited[id] == IN_PROGRESS
    ensures id in path && path[id] < |stack| && stack[path[id]] == id
  {
    var i :| 0 <= i < |stack| && stack[i] == id;
  }

  lemma EnterKeepsColours(visited: map<Id, int>, path: map<Id, nat>, stack: seq<Id>, finished: seq<Id>, id: Id)
    requires Colours(visited, path, stack, finished) && id !in visited
    ensures Colours(visited[id := IN_PROGRESS], path[id := |stack|], stack + [id], finished)
  {
  }

  lemma LeaveKeepsColours(visited: map<Id, int>, path: map<Id, nat>, stack: seq<Id>, finished: seq<Id>, id: Id)
    requires Colours(visited, path, stack + [id], finished)
    ensures Colours(visited[id := DONE], path - {id}, stack, finished + [id])
  {
    assert forall x | x in stack :: x in stack + [id];
    assert (stack + [id])[|stack|] == id;
    assert forall x :: x in stack + [id] <==> x in stack || x == id;
    assert forall i | 0 <= i < |stack| :: stack[i] == (stack + [id])[i];
  }

  lemma PushKeepsWalk(arcs: Arcs, stack: seq<Id>, id: Id)
    requires StackIsWalk(arcs, stack)
    requires stack != [] ==> (stack[|stack| - 1], id) in arcs
    ensures StackIsWalk(arcs, stack + [id])
  {
    var s := stack + [id];
    forall i | 0 <= i < |s| - 1 ensures StepAt(arcs, s, i) {
      if i < |stack| - 1 { assert StepAt(arcs, stack, i); }
    }
  }

  /** The slice of the stack from an in-progress target, closed by the target, is a simple cycle. */
  lemma StackSliceIsCycle(arcs: Arcs, stack: seq<Id>, start: nat)
    requires Distinct(stack) && StackIsWalk(arcs, stack) && start < |stack|
    requires (stack[|stack| - 1], stack[start]) in arcs
    ensures SimpleCycle(arcs, stack[start..] + [stack[start]])
    ensures ClosedBy(stack[start..] + [stack[start]], stack[|stack| - 1], stack[start])
  {
    var cycle := stack[start..] + [stack[start]];
    assert cycle[..|cycle| - 1] == stack[start..];
    forall i | 0 <= i < |cycle| - 1 ensures StepAt(arcs, cycle, i) {
      if i < |cycle| - 2 {
        assert StepAt(arcs, stack, start + i);
      }
    }
  }

  lemma MoreCyclesStayBackward(arcs: Arcs, before: seq<seq<Id>>, after: seq<seq<Id>>, finished: seq<Id>)
    requires before <= after && SuccsBefore(OpenArcs(arcs, before), finished)
    ensures SuccsBefore(OpenArcs(arcs, after), finished)
  {
    forall i, v | 0 <= i < |finished| && (finished[i], v) in OpenArcs(arcs, after) ensures v in finished[..i] {
      if Closing(before, finished[i], v) { ClosingGrows(before, after, finished[i], v); }
      assert (finished[i], v) in OpenArcs(arcs, before);
    }
  }

  lemma FinishStaysBackward(arcs: Arcs, cycles: seq<seq<Id>>, finished: seq<Id>, id: Id)
    requires SuccsBefore(OpenArcs(arcs, cycles), finished)
    requires forall v | (id, v) in OpenArcs(arcs, cycles) :: v in finished
    ensures SuccsBefore(OpenArcs(arcs, cycles), finished + [id])
  {
    var more := finished + [id];
    forall i, v | 0 <= i < |more| && (more[i], v) in OpenArcs(arcs, cycles) ensures v in more[..i] {
      if i < |finished| {
        assert more[..i] == finished[..i] && (finished[i], v) in OpenArcs(arcs, cycles);
      } else {
        assert more[..i] == finished;
      }
    }
  }

  /** The arc from `u` to `v` has been dealt with: `v` is done, or the arc closed a reported cycle. */
  ghost predicate Settled(finished: seq<Id>, cycles: seq<seq<Id>>, u: Id, v: Id) {
    v in finished || Closing(cycles, u, v)
  }

  lemma SettledGrows(finished0: seq<Id>, cycles0: seq<seq<Id>>, finished: seq<Id>, cycles: seq<seq<Id>>, u: Id, v: Id)
    requires finished0 <= finished && cycles0 <= cycles && Settled(finished0, cycles0, u, v)
    ensures Settled(finished, cycles, u, v)
  {
    if Closing(cycles0, u, v) {
      ClosingGrows(cycles0, cycles, u, v);
    }
  }

  lemma AllSettled(edges: Adjacency, finished: seq<Id>, cycles: seq<seq<Id>>, id: Id)
    requires forall k | 0 <= k < |Bucket(edges, id)| :: Settled(finished, cycles, id, Bucket(edges, id)[k].target)
    ensures forall v | (id, v) in OpenArcs(ArcsOf(edges), cycles) :: v in finished
  {
    forall v | (id, v) in OpenArcs(ArcsOf(edges), cycles) ensures v in finished {
      ArcsOfBucket(edges, id, v);
      var e :| e in Bucket(edges, id) && e.target == v;
      var k :| 0 <= k < |Bucket(edges, id)| && Bucket(edges, id)[k] == e;
      assert Settled(finished, cycles, id, Bucket(edges, id)[k].target);
    }
  }

  lemma WalkBelow(arcs: Arcs, stack: seq<Id>, id: Id)
    requires StackIsWalk(arcs, stack + [id])
    ensures StackIsWalk(arcs, stack)
  {
    if stack != [] {
      WalkSlice(arcs, stack + [id], 0, |stack|);
      assert (stack + [id])[0..|stack|] == stack;
    }
  }

  ghost predicate ReachedFrom(arcs: Arcs, roots: set<Id>, v: Id) {
    exists r :: r in roots && Reaches(arcs, r, v)
  }

  ghost predicate SuccClosed(arcs: Arcs, universe: set<Id>) {
    forall a | a in arcs && a.0 in universe :: a.1 in universe
  }

  ghost predicate SomeArcCloses(cycles: seq<seq<Id>>, p: seq<Id>) {
    exists k :: 0 <= k < |p| - 1 && Closing(cycles, p[k], p[k + 1])
  }

  /**
   What `DetectCycles` promises: simple cycles only, and enough of them that every closed walk
   reachable from the nodes runs through an arc that closes one of them.
   */
  ghost predicate CycleReport(arcs: Arcs, roots: set<Id>, cycles: seq<seq<Id>>) {
    && (forall i | 0 <= i < |cycles| :: SimpleCycle(arcs, cycles[i]) && ReachedFrom(arcs, roots, cycles[i][0]))
    && (forall p | ClosedWalk(arcs, p) && ReachedFrom(arcs, roots, p[0]) :: SomeArcCloses(cycles, p))
  }

  lemma FinishedIsClosed(arcs: Arcs, visited: map<Id, int>, cycles: seq<seq<Id>>, finished: seq<Id>, u: Id, v: Id)
    requires CyclesGenuine(arcs, cycles, visited) && (forall x | x in visited :: x in finished)
    requires SuccsBefore(OpenArcs(arcs, cycles), finished)
    requires (u, v) in arcs && u in finished
    ensures v in finished
  {
    if Closing(cycles, u, v) {
      var i :| 0 <= i < |cycles| && ClosedBy(cycles[i], u, v);
      assert v in Elems(cycles[i]);
    } else {
      var i :| 0 <= i < |finished| && finished[i] == u;
      assert v in finished[..i];
    }
  }

  lemma ClosedWalkIsBroken(
    arcs: Arcs, visited: map<Id, int>, cycles: seq<seq<Id>>, finished: seq<Id>, r: Id, p: seq<Id>)
    requires CyclesGenuine(arcs, cycles, visited) && (forall x | x in visited :: x in finished)
    requires SuccsBefore(OpenArcs(arcs, cycles), finished) && Distinct(finished)
    requires ClosedWalk(arcs, p) && r in finished && Reaches(arcs, r, p[0])
    ensures SomeArcCloses(cycles, p)
  {
    var q :| Walk(arcs, q) && q[0] == r && q[|q| - 1] == p[0];
    forall u, v | (u, v) in arcs && u in Elems(finished) ensures v in Elems(finished) {
      FinishedIsClosed(arcs, visited, cycles, finished, u, v);
    }
    DescendantsInside(arcs, Elems(finished), q);
    if !SomeArcCloses(cycles, p) {
      forall k | 0 <= k < |p| - 1 ensures StepAt(OpenArcs(arcs, cycles), p, k) {
        assert StepAt(arcs, p, k) && !Closing(cycles, p[k], p[k + 1]);
      }
      SuccsBeforeNoCycle(OpenArcs(arcs, cycles), finished, p);
      assert ClosedWalk(OpenArcs(arcs, cycles), p);
    }
  }

  /** Everything the search keeps true about the values of its variables. */
  ghost predicate Consistent(
    arcs: Arcs, visited: map<Id, int>, path: map<Id, nat>, stack: seq<Id>, cycles: seq<seq<Id>>, finished: seq<Id>)
  {
    && Colours(visited, path, stack, finished)
    && StackIsWalk(arcs, stack)
    && CyclesGenuine(arcs, cycles, visited)
    && SuccsBefore(OpenArcs(arcs, cycles), finished)
  }

  lemma EnterKeeps(
    arcs: Arcs, visited: map<Id, int>, path: map<Id, nat>, stack: seq<Id>, cycles: seq<seq<Id>>, finished: seq<Id>,
    id: Id)
    requires Consistent(arcs, visited, path, stack, cycles, finished) && id !in visited
    requires stack != [] ==> (stack[|stack| - 1], id) in arcs
    ensures Consistent(arcs, visited[id := IN_PROGRESS], path[id := |stack|], stack + [id], cycles, finished)
  {
    EnterKeepsColours(visited, path, stack, finished, id);
    PushKeepsWalk(arcs, stack, id);
  }

  lemma LeaveKeeps(
    arcs: Arcs, visited: map<Id, int>, path: map<Id, nat>, stack: seq<Id>, cycles: seq<seq<Id>>, finished: seq<Id>,
    id: Id)
    requires Consistent(arcs, visited, path, stack + [id], cycles, finished)
    requires forall v | (id, v) in OpenArcs(arcs, cycles) :: v in finished
    ensures Consistent(arcs, visited[id := DONE], path - {id}, stack, cycles, finished + [id])
    ensures visited[id := DONE].Keys == visited.Keys
  {
    LeaveKeepsColours(visited, path, stack, finished, id);
    assert (stack + [id])[|stack|] in visited;
    WalkBelow(arcs, stack, id);
    FinishStaysBackward(arcs, cycles, finished, id);
  }

  lemma ReportKeeps(
    arcs: Arcs, visited: map<Id, int>, path: map<Id, nat>, stack: seq<Id>, cycles: seq<seq<Id>>, finished: seq<Id>,
    start: nat)
    requires Consistent(arcs, visited, path, stack, cycles, finished)
    requires start < |stack| && (stack[|stack| - 1], stack[start]) in arcs
    ensures Consistent(arcs, visited, path, stack, cycles + [stack[start..] + [stack[start]]], finished)
    ensures ClosedBy(stack[start..] + [stack[start]], stack[|stack| - 1], stack[start])
  {
    var cycle := stack[start..] + [stack[start]];
    StackSliceIsCycle(arcs, stack, start);
    MoreCyclesStayBackward(arcs, cycles, cycles + [cycle], finished);
    assert forall x | x in cycle :: x in stack;
  }

  lemma TargetIsArc(edges: Adjacency, id: Id, k: nat)
    requires k < |Bucket(edges, id)|
    ensures (id, Bucket(edges, id)[k].target) in ArcsOf(edges)
  {
    assert Bucket(edges, id)[k] in edges[id];
  }

  ghost function ReachableSet(arcs: Arcs, roots: set<Id>): set<Id> {
    roots + set a | a in arcs && ReachedFrom(arcs, roots, a.1) :: a.1
  }

  lemma ReachableSetClosed(arcs: Arcs, roots: set<Id>)
    ensures SuccClosed(arcs, ReachableSet(arcs, roots))
    ensures forall v | v in ReachableSet(arcs, roots) :: ReachedFrom(arcs, roots, v)
  {
    forall v | v in roots ensures ReachedFrom(arcs, roots, v) {
      ReachesSelf(arcs, v);
    }
    forall a | a in arcs && ReachedFrom(arcs, roots, a.0) ensures ReachedFrom(arcs, roots, a.1) {
      var r :| r in roots && Reaches(arcs, r, a.0);
      ReachesArc(arcs, a.0, a.1);
      ReachesTransitive(arcs, r, a.0, a.1);
    }
  }

  /** With nothing in progress and every root visited, the report is complete. */
  lemma SearchDone(
    arcs: Arcs, roots: set<Id>, universe: set<Id>,
    visited: map<Id, int>, path: map<Id, nat>, cycles: seq<seq<Id>>, finished: seq<Id>)
    requires Consistent(arcs, visited, path, [], cycles, finished)
    requires roots <= visited.Keys <= universe == ReachableSet(arcs, roots)
    ensures CycleReport(arcs, roots, cycles)
  {
    ReachableSetClosed(arcs, roots);
    forall i | 0 <= i < |cycles|
      ensures SimpleCycle(arcs, cycles[i]) && ReachedFrom(arcs, roots, cycles[i][0])
    {
      assert cycles[i][0] in Elems(cycles[i]);
    }
    forall p | ClosedWalk(arcs, p) && ReachedFrom(arcs, roots, p[0]) ensures SomeArcCloses(cycles, p) {
      var r :| r in roots && Reaches(arcs, r, p[0]);
      assert r in visited;
      ClosedWalkIsBroken(arcs, visited, cycles, finished, r, p);
    }
  }
}
