/**
 The depth-first search behind `DetectCycles`. The variables its recursive closure captures
 (`visited`, `path`, `stack`, `cycles`) are the fields of a search object.
 */
module CycleSearch {
  import opened Order
  import opened Edges
  import opened CycleInvariants
  import opened CycleTally
  import opened CycleSweep
  import opened CycleReading

  class Search {
    const edges: Adjacency
    var visited: map<Id, int>
    var path: map<Id, nat>
    var stack: seq<Id>
    var cycles: seq<seq<Id>>
    ghost var finished: seq<Id>

    constructor (edges: Adjacency)
      ensures this.edges == edges && Now() == NOTHING_VISITED
    {
      this.edges := edges;
      visited, path, stack, cycles, finished := map[], map[], [], [], [];
    }

    ghost function Now(): Sweep
      reads this
    {
      Sweep(visited, path, stack, cycles, finished)
    }

    method Dfs(id: Id, ghost U: set<Id>)
      requires SuccClosed(ArcsOf(edges), U) && id in U && id !in visited && visited.Keys <= U
      requires Good(edges, Now()) && (stack != [] ==> (stack[|stack| - 1], id) in ArcsOf(edges))
      modifies this
      ensures Now() == Visit(edges, U, old(Now()), id)
      decreases U - visited.Keys, 0, 0
    {
      ghost var s1 := Enter(Now(), id);
      EnterGood(edges, Now(), id);
      assert id in U - visited.Keys && id !in U - s1.visited.Keys;
      visited := visited[id := IN_PROGRESS];
      path := path[id := |stack|];
      stack := stack + [id];
      FollowAll(id, U);
      FollowKeeps(edges, U, s1, id, 0, id);
      stack := stack[..|stack| - 1];
      visited := visited[id := DONE];
      path := path - {id};
      finished := finished + [id];
    }

    /** The loop over the edges of `id`. */
    method FollowAll(id: Id, ghost U: set<Id>)
      requires SuccClosed(ArcsOf(edges), U) && id in U && visited.Keys <= U
      requires Good(edges, Now()) && AtTop(Now(), id) && PartTally(edges, stack, cycles, id, 0)
      modifies this
      ensures Now() == Follow(edges, U, old(Now()), id, 0)
      decreases U - visited.Keys, 2, 0
    {
      var i := 0;
      while i < |Bucket(edges, id)|
        invariant 0 <= i <= |Bucket(edges, id)| && Following(edges, U, old(Now()), Now(), id, i)
      {
        FollowingStep(edges, U, old(Now()), Now(), id, i);
        FollowEdge(id, i, U);
        i := i + 1;
      }
    }

    /** The body of that loop. */
    method FollowEdge(id: Id, i: nat, ghost U: set<Id>)
      requires SuccClosed(ArcsOf(edges), U) && id in U && visited.Keys <= U && i < |Bucket(edges, id)|
      requires Good(edges, Now()) && AtTop(Now(), id)
      modifies this
      ensures Now() == FollowOne(edges, U, old(Now()), id, i)
      decreases U - visited.Keys, 1, 0
    {
      var target := Bucket(edges, id)[i].target;
      TargetIsArc(edges, id, i);
      if target !in visited {
        Dfs(target, U);
      } else if visited[target] == IN_PROGRESS {
        ReportGood(edges, Now(), id, target);
        var start := path[target];
        cycles := cycles + [stack[start..] + [target]];
      }
    }
  }

  /**
   Try the nodes in the given order. What is reported is complete: every closed walk that a node
   reaches runs through an arc that closes a reported cycle. It is also exactly what can be read off
   the least trails.
   */
  method SearchFrom(edges: Adjacency, order: seq<Id>) returns (cycles: seq<seq<Id>>)
    ensures cycles == SearchCycles(edges, order) && LeastTrailCycles(edges, order, cycles)
    ensures CycleReport(ArcsOf(edges), Elems(order), cycles) && OncePerEdge(edges, cycles)
  {
    ghost var U := ReachableSet(ArcsOf(edges), Elems(order));
    ReachableSetClosed(ArcsOf(edges), Elems(order));
    var search := new Search(edges);
    for i := 0 to |order|
      invariant fresh(search) && search.edges == edges && Trying(edges, U, order, i, search.Now())
    {
      var id := order[i];
      assert id in Elems(order);
      TryingStep(edges, U, order, i, search.Now());
      if id !in search.visited {
        search.Dfs(id, U);
      }
    }
    TryingDone(edges, order, search.Now());
    SearchReadsLeastTrails(edges, order);
    return search.cycles;
  }
}
