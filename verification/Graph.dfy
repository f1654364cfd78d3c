/** The dependency graph: a node table, the edges by source and the same edges by target. */
module Graph {
  import opened Order
  import opened Digraph
  import opened LeastOrder
  import opened Edges
  import opened CycleInvariants
  import opened CycleTally
  import opened CycleSweep
  import opened CycleReading
  import opened CycleSearch
  import opened CountdownInvariants

  datatype SortResult = Sorted(order: seq<Id>) | CycleDetected

  datatype DiffResult = DiffResult(
    addedNodes: seq<Node>, removedNodes: seq<Node>, addedEdges: seq<Edge>, removedEdges: seq<Edge>)

  /** What `TopologicalSort` has in-degrees for: the nodes and every edge target. */
  ghost function Candidates(nodes: map<Id, Node>, edges: Adjacency): set<Id> {
    nodes.Keys + Targets(edges)
  }

  /** The result of `TopologicalSort` on any graph; only lengths are compared at the end. */
  ghost function SortOutcome(nodes: map<Id, Node>, edges: Adjacency): SortResult {
    var order := LeastFirst(ArcsOf(edges), Candidates(nodes, edges));
    if |order| == |nodes| then SortResult.Sorted(order) else CycleDetected
  }

  /** Every edge joins two nodes. */
  ghost predicate Closed(nodes: map<Id, Node>, edges: Adjacency) {
    forall a | a in ArcsOf(edges) :: a.0 in nodes && a.1 in nodes
  }

  /** Some edge of the other graph has the same endpoints and type; the `Dynamic` flag is not compared. */
  predicate Keyed(edges: Adjacency, e: Edge) {
    exists k :: 0 <= k < |Bucket(edges, e.source)| && SameKey(Bucket(edges, e.source)[k], e)
  }

  predicate SameKey(a: Edge, b: Edge) {
    a.target == b.target && a.kind == b.kind
  }

  /** `list` holds the nodes of `from` whose ids `against` lacks, each once. */
  ghost predicate MissingNodeList(from: map<Id, Node>, against: map<Id, Node>, list: seq<Node>) {
    && Distinct(list)
    && forall n: Node :: n in list <==> n.id in from && from[n.id] == n && n.id !in against
  }

  /**
   `list` holds the edges of `from` that have no counterpart in `against`, as often as they occur,
   those of one source together and in their order.
   */
  ghost predicate MissingEdgeList(from: Adjacency, against: Adjacency, list: seq<Edge>) {
    && ByBuckets(from, list)
    && forall e: Edge :: multiset(list)[e] == if Keyed(against, e) then 0 else Count(from, e)
  }

  ghost predicate IsDiff(
    nodes: map<Id, Node>, edges: Adjacency, nodes': map<Id, Node>, edges': Adjacency, d: DiffResult)
  {
    && MissingNodeList(nodes, nodes', d.removedNodes) && MissingNodeList(nodes', nodes, d.addedNodes)
    && MissingEdgeList(edges, edges', d.removedEdges) && MissingEdgeList(edges', edges, d.addedEdges)
  }

  class Graph {
    var nodes: map<Id, Node>
    var edges: Adjacency
    var reverse: Adjacency

    ghost predicate Valid()
      reads this
    {
      Transposed(edges, reverse) && forall id | id in nodes :: nodes[id].id == id
    }

    constructor ()
      ensures Valid() && nodes == map[] && edges == map[] && reverse == map[]
    {
      nodes, edges, reverse := map[], map[], map[];
    }

    method AddNode(node: Node)
      requires Valid()
      modifies this`nodes
      ensures Valid() && nodes == old(nodes)[node.id := node]
    {
      nodes := nodes[node.id := node];
    }

    method AddEdge(source: Id, target: Id, kind: string, dynamic: bool)
      requires Valid()
      modifies this`edges, this`reverse
      ensures Valid()
      ensures edges == AddTo(old(edges), source, Edge(source, target, kind, dynamic))
      ensures reverse == AddTo(old(reverse), target, Edge(source, target, kind, dynamic))
      ensures forall e: Edge ::
                Count(edges, e) == Count(old(edges), e) + if e == Edge(source, target, kind, dynamic) then 1 else 0
      ensures ArcsOf(edges) == ArcsOf(old(edges)) + {(source, target)}
      ensures Bucket(edges, source) == Bucket(old(edges), source) + [Edge(source, target, kind, dynamic)]
      ensures Bucket(reverse, target) == Bucket(old(reverse), target) + [Edge(source, target, kind, dynamic)]
    {
      var edge := Edge(source, target, kind, dynamic);
      AddKeepsTransposed(edges, reverse, edge);
      AddedLast(edges, source, edge);
      AddedLast(reverse, target, edge);
      ArcsAfterAdd(edges, edge);
      edges := AddTo(edges, source, edge);
      reverse := AddTo(reverse, target, edge);
    }

    method Clear()
      modifies this
      ensures Valid() && nodes == map[] && edges == map[] && reverse == map[]
    {
      nodes, edges, reverse := map[], map[], map[];
    }

    // --- topological sort -----------------------------------------------------------------

    /** The first two loops of `TopologicalSort`; the maps are visited in any order. */
    method InDegrees() returns (inDegree: map<Id, int>)
      ensures inDegree.Keys == Candidates(nodes, edges)
      ensures forall v | v in inDegree :: inDegree[v] == InFrom(edges, edges.Keys, v)
    {
      inDegree := map[];
      var ids := nodes.Keys;
      while ids != {}
        invariant ids <= nodes.Keys
        invariant inDegree.Keys == nodes.Keys - ids
        invariant forall v | v in inDegree :: inDegree[v] == 0
        decreases ids
      {
        var id :| id in ids;
        inDegree := inDegree[id := 0];
        ids := ids - {id};
      }
      var sources := edges.Keys;
      ghost var seen: set<Id> := {};
      assert forall v :: InFrom(edges, {}, v) == 0;
      while sources != {}
        invariant sources <= edges.Keys && seen == edges.Keys - sources
        invariant nodes.Keys <= inDegree.Keys <= Candidates(nodes, edges)
        invariant forall u, e | u in seen && e in edges[u] :: e.target in inDegree
        invariant forall v :: Degree(inDegree, v) == InFrom(edges, seen, v)
        decreases sources
      {
        var u :| u in sources;
        ghost var before := inDegree;
        inDegree := CountBucket(inDegree, u);
        sources := sources - {u};
        assert seen + {u} - {u} == seen;
        forall v ensures Degree(inDegree, v) == InFrom(edges, seen + {u}, v) {
          assert Degree(before, v) == InFrom(edges, seen, v);
          InFromRemove(edges, seen + {u}, u, v);
        }
        seen := seen + {u};
      }
      assert seen == edges.Keys;
      forall v | v in inDegree ensures inDegree[v] == InFrom(edges, edges.Keys, v) {
        assert Degree(inDegree, v) == InFrom(edges, seen, v);
      }
    }

    /** The loop over the edges of one source, which adds one to each target's in-degree. */
    method CountBucket(before: map<Id, int>, u: Id) returns (inDegree: map<Id, int>)
      requires u in edges
      ensures inDegree.Keys == before.Keys + set e | e in edges[u] :: e.target
      ensures forall v :: Degree(inDegree, v) == Degree(before, v) + CountTo(Bucket(edges, u), v)
    {
      inDegree := before;
      var es := edges[u];
      var i := 0;
      while i < |es|
        invariant 0 <= i <= |es|
        invariant inDegree.Keys == before.Keys + set e | e in es[..i] :: e.target
        invariant forall v :: Degree(inDegree, v) == Degree(before, v) + CountTo(es[..i], v)
      {
        ghost var was := inDegree;
        var t := es[i].target;
        inDegree := inDegree[t := Degree(inDegree, t) + 1];
        forall v ensures Degree(inDegree, v) == Degree(before, v) + CountTo(es[..i + 1], v) {
          assert Degree(was, v) == Degree(before, v) + CountTo(es[..i], v);
          CountToStep(es, i, v);
        }
        assert es[..i + 1] == es[..i] + [es[i]];
        i := i + 1;
      }
      assert es[..i] == es;
    }

    method TopologicalSort() returns (r: SortResult)
      ensures r == SortOutcome(nodes, edges)
    {
      ghost var V := Candidates(nodes, edges);
      var inDegree := InDegrees();
      var queue := InitialQueue(inDegree);
      var result: seq<Id> := [];
      ProgressAtStart(edges, V, inDegree, queue);
      while queue != []
        invariant Progress(edges, V, inDegree, result, queue)
        decreases V - Elems(result)
      {
        var node := queue[0];
        ghost var emitted := result;
        result := result + [node];
        EmitGrows(edges, V, inDegree, emitted, queue);
        inDegree, queue := Release(node, inDegree, queue[1..], emitted);
      }
      ProgressAtEnd(edges, V, inDegree, result);
      if |result| != |nodes| {
        return CycleDetected;
      }
      return SortResult.Sorted(result);
    }

    /** The vertices of in-degree zero, sorted; the map is visited in any order. */
    method InitialQueue(inDegree: map<Id, int>) returns (queue: seq<Id>)
      ensures QueueHoldsZeros(inDegree.Keys, inDegree, [], queue)
    {
      queue := [];
      var ids := inDegree.Keys;
      while ids != {}
        invariant ids <= inDegree.Keys
        invariant Distinct(queue)
        invariant forall v :: v in queue <==> v in inDegree.Keys - ids && inDegree[v] == 0
        decreases ids
      {
        var id :| id in ids;
        if inDegree[id] == 0 {
          queue := queue + [id];
        }
        ids := ids - {id};
      }
      SortFacts(queue);
      assert forall v :: v in Sort(queue) <==> v in Elems(Sort(queue));
      assert forall v :: v in queue <==> v in Elems(queue);
      queue := Sort(queue);
    }

    /** The loop over the edges of an emitted node: decrement, and queue whatever drops to zero. */
    method Release(node: Id, before: map<Id, int>, waiting: seq<Id>, ghost emitted: seq<Id>)
      returns (inDegree: map<Id, int>, queue: seq<Id>)
      requires Progress(edges, Candidates(nodes, edges), before, emitted, [node] + waiting)
      ensures Progress(edges, Candidates(nodes, edges), inDegree, emitted + [node], queue)
    {
      ghost var V := Candidates(nodes, edges);
      var es := Bucket(edges, node);
      inDegree, queue := before, waiting;
      CountingStart(edges, V, before, emitted, node, waiting);
      var i := 0;
      while i < |es|
        invariant 0 <= i <= |es|
        invariant Counting(edges, V, inDegree, emitted + [node], node, i, queue)
      {
        var t := es[i].target;
        CountingStep(edges, V, inDegree, emitted + [node], node, i, queue);
        inDegree := inDegree[t := inDegree[t] - 1];
        if inDegree[t] == 0 {
          queue := Sort(queue + [t]);
        }
        i := i + 1;
      }
      CountingEnd(edges, V, inDegree, emitted + [node], node, queue);
    }

    // --- cycles -----------------------------------------------------------------------------

    /** The nodes are tried in any order. */
    method DetectCycles() returns (cycles: seq<seq<Id>>)
      ensures exists order ::
                && Lists(order, nodes.Keys) && cycles == SearchCycles(edges, order)
                && LeastTrailCycles(edges, order, cycles)
      ensures CycleReport(ArcsOf(edges), nodes.Keys, cycles) && OncePerEdge(edges, cycles)
    {
      var order := AnyOrder(nodes.Keys);
      assert Elems(order) == nodes.Keys;
      cycles := SearchFrom(edges, order);
    }

    // --- what a change affects --------------------------------------------------------------

    method AffectedNodes(id: Id) returns (result: seq<Id>)
      requires Valid()
      ensures Order.Sorted(result) && Distinct(result)
      ensures forall x :: x in result <==> Reaches(ArcsOf(edges), x, id)
    {
      ghost var arcs := ArcsOf(edges);
      var affected, queue := {id}, [id];
      SpreadStart(arcs, id);
      while queue != []
        invariant Spreading(arcs, id, affected, queue)
        decreases Vertices(arcs, id) - (affected - Elems(queue))
      {
        var current := queue[0];
        PredsFromReverse(edges, reverse, current);
        affected, queue := Expand(Bucket(reverse, current), arcs, id, affected, queue);
      }
      SpreadDone(arcs, id, affected);
      result := AnyOrder(affected);
      SortFacts(result);
      assert forall x :: x in Sort(result) <==> x in Elems(Sort(result));
      assert forall x :: x in result <==> x in Elems(result);
      result := Sort(result);
    }

    // --- comparing two graphs ---------------------------------------------------------------

    method Diff(other: Graph) returns (d: DiffResult)
      requires Valid() && other.Valid()
      ensures IsDiff(nodes, edges, other.nodes, other.edges, d)
    {
      var removedNodes := MissingNodes(nodes, other.nodes);
      var addedNodes := MissingNodes(other.nodes, nodes);
      var removedEdges := MissingEdges(edges, other.edges);
      var addedEdges := MissingEdges(other.edges, edges);
      d := DiffResult(addedNodes, removedNodes, addedEdges, removedEdges);
    }
  }

  /** Take the front of the queue and add the unseen sources of the edges `into` it. */
  method Expand(into: seq<Edge>, ghost arcs: Arcs, ghost start: Id, before: set<Id>, waiting: seq<Id>)
    returns (affected: set<Id>, queue: seq<Id>)
    requires Spreading(arcs, start, before, waiting) && waiting != []
    requires forall u :: (u, waiting[0]) in arcs <==> exists k :: 0 <= k < |into| && into[k].source == u
    ensures Spreading(arcs, start, affected, queue)
    ensures Vertices(arcs, start) - (affected - Elems(queue)) < Vertices(arcs, start) - (before - Elems(waiting))
  {
    ExpandStart(arcs, start, before, waiting);
    affected, queue := before, waiting[1..];
    var i := 0;
    while i < |into|
      invariant 0 <= i <= |into|
      invariant Expanding(arcs, start, affected, queue, waiting[0])
      invariant affected - Elems(queue) == before - Elems(waiting[1..])
      invariant forall k | 0 <= k < i :: into[k].source in affected
    {
      var u := into[i].source;
      if u !in affected {
        ExpandAdd(arcs, start, affected, queue, waiting[0], u);
        affected := affected + {u};
        queue := queue + [u];
      }
      i := i + 1;
    }
    ExpandDone(arcs, start, affected, queue, waiting[0]);
    SpreadShrinks(arcs, start, before, waiting, affected, queue);
  }

  /** The loop that `Diff` runs over the nodes of either graph. */
  method MissingNodes(from: map<Id, Node>, against: map<Id, Node>) returns (list: seq<Node>)
    requires forall id | id in from :: from[id].id == id
    ensures MissingNodeList(from, against, list)
  {
    list := [];
    var ids := AnyOrder(from.Keys);
    var i := 0;
    while i < |ids|
      invariant 0 <= i <= |ids|
      invariant Distinct(list)
      invariant forall n: Node :: n in list <==> n.id in ids[..i] && from[n.id] == n && n.id !in against
    {
      if ids[i] !in against {
        assert ids[i] in ids;
        list := list + [from[ids[i]]];
      }
      i := i + 1;
    }
  }

  /** The loop that `Diff` runs over the edges of either graph. */
  method MissingEdges(from: Adjacency, against: Adjacency) returns (list: seq<Edge>)
    requires SourcesMatch(from) && SourcesMatch(against)
    ensures MissingEdgeList(from, against, list)
  {
    list := [];
    assert InPlaces(from, list, []);
    var sources := AnyOrder(from.Keys);
    var i := 0;
    while i < |sources|
      invariant 0 <= i <= |sources| && ByBuckets(from, list)
      invariant forall e: Edge :: multiset(list)[e] ==
                  if e.source in sources[..i] && !Keyed(against, e) then Count(from, e) else 0
    {
      var u := sources[i];
      assert u in sources;
      var found, pos := MissingInBucket(from[u], against, u);
      forall e: Edge
        ensures multiset(list + found)[e] ==
                if e.source in sources[..i + 1] && !Keyed(against, e) then Count(from, e) else 0
      {
        assert multiset(list + found)[e] == multiset(list)[e] + multiset(found)[e];
        assert e.source in sources[..i + 1] <==> e.source in sources[..i] || e.source == u;
        if e.source != u { assert e !in from[u]; }
      }
      forall e | e in list ensures e.source != u {
        assert multiset(list)[e] > 0;
      }
      AddBucket(from, list, u, found, pos);
      list := list + found;
      i := i + 1;
    }
    forall e: Edge ensures multiset(list)[e] == if Keyed(against, e) then 0 else Count(from, e) {
      assert e.source in sources[..i] <==> e.source in from;
    }
  }

  /** The innermost loop of `Diff`, left at the first match. */
  method HasCounterpart(others: seq<Edge>, e: Edge) returns (found: bool)
    ensures found <==> exists k :: 0 <= k < |others| && SameKey(others[k], e)
  {
    found := false;
    var j := 0;
    while j < |others| && !found
      invariant 0 <= j <= |others|
      invariant found <==> exists k :: 0 <= k < j && SameKey(others[k], e)
    {
      found := others[j].target == e.target && others[j].kind == e.kind;
      j := j + 1;
    }
  }

  method MissingInBucket(es: seq<Edge>, against: Adjacency, u: Id) returns (list: seq<Edge>, ghost pos: seq<nat>)
    requires forall e | e in es :: e.source == u
    ensures PartOf(es, list, pos)
    ensures forall e: Edge :: multiset(list)[e] == if Keyed(against, e) then 0 else multiset(es)[e]
  {
    list, pos := [], [];
    var others := Bucket(against, u);
    var i := 0;
    while i < |es|
      invariant 0 <= i <= |es| && PartOf(es[..i], list, pos)
      invariant forall e: Edge :: multiset(list)[e] == if Keyed(against, e) then 0 else multiset(es[..i])[e]
    {
      assert es[i] in es;
      var found := HasCounterpart(others, es[i]);
      assert found <==> Keyed(against, es[i]);
      assert es[..i + 1] == es[..i] + [es[i]];
      PartGoesOn(es, i, list, pos);
      if !found {
        list, pos := list + [es[i]], pos + [i];
      }
      i := i + 1;
    }
    assert es[..i] == es;
  }
}
