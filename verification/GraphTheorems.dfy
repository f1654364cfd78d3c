/** What the graph's operations mean, for every graph and across operations. */
module GraphTheorems {
  import opened Order
  import opened Digraph
  import opened LeastOrder
  import opened TopologicalOrders
  import opened Edges
  import opened CycleInvariants
  import opened StoreTables
  import opened Graph

  lemma TargetsAreArcTargets(edges: Adjacency)
    ensures forall v :: v in Targets(edges) <==> exists u :: (u, v) in ArcsOf(edges)
  {
    forall v | v in Targets(edges) ensures exists u :: (u, v) in ArcsOf(edges) {
      var u, e :| u in edges && e in edges[u] && e.target == v;
      assert (u, v) in ArcsOf(edges);
    }
  }

  lemma ClosedCandidates(nodes: map<Id, Node>, edges: Adjacency)
    requires Closed(nodes, edges)
    ensures Candidates(nodes, edges) == nodes.Keys
  {
    TargetsAreArcTargets(edges);
  }

  ghost predicate HasCycle(edges: Adjacency) {
    exists v :: OnCycle(ArcsOf(edges), v)
  }

  lemma CycleInside(arcs: Arcs, v: Id)
    requires OnCycle(arcs, v)
    ensures exists a :: a in arcs && a.0 == v
  {
    var p :| ClosedWalk(arcs, p) && p[0] == v;
    assert StepAt(arcs, p, 0);
    assert (p[0], p[1]) in arcs;
  }

  /**
   On a closed graph the two cycle tests agree with each other and with the definition:
   the sort fails iff the search reports a cycle iff some node reaches itself.
   */
  lemma CycleTestsAgree(nodes: map<Id, Node>, edges: Adjacency, cycles: seq<seq<Id>>)
    requires Closed(nodes, edges) && CycleReport(ArcsOf(edges), nodes.Keys, cycles)
    ensures SortOutcome(nodes, edges).CycleDetected? <==> HasCycle(edges)
    ensures cycles != [] <==> HasCycle(edges)
  {
    var arcs := ArcsOf(edges);
    SortDetectsCycles(nodes, edges);
    CyclesFoundIff(nodes, edges, cycles);
    if HasCycle(edges) {
      var v :| OnCycle(arcs, v);
      CycleInside(arcs, v);
      ReachesSelf(arcs, v);
      assert ReachedFrom(arcs, nodes.Keys, v);
    }
  }

  /** On any graph, a cycle is reported iff one can be reached from a node. */
  lemma CyclesFoundIff(nodes: map<Id, Node>, edges: Adjacency, cycles: seq<seq<Id>>)
    requires CycleReport(ArcsOf(edges), nodes.Keys, cycles)
    ensures cycles != [] <==> exists v :: OnCycle(ArcsOf(edges), v) && ReachedFrom(ArcsOf(edges), nodes.Keys, v)
  {
    var arcs := ArcsOf(edges);
    if cycles != [] {
      assert SimpleCycle(arcs, cycles[0]) && ReachedFrom(arcs, nodes.Keys, cycles[0][0]);
      assert OnCycle(arcs, cycles[0][0]);
    }
    if v :| OnCycle(arcs, v) && ReachedFrom(arcs, nodes.Keys, v) {
      var p :| ClosedWalk(arcs, p) && p[0] == v;
      assert SomeArcCloses(cycles, p);
    }
  }

  lemma SortDetectsCycles(nodes: map<Id, Node>, edges: Adjacency)
    requires Closed(nodes, edges)
    ensures SortOutcome(nodes, edges).CycleDetected? <==> HasCycle(edges)
  {
    var arcs, V := ArcsOf(edges), nodes.Keys;
    var order := LeastFirst(arcs, V);
    ClosedCandidates(nodes, edges);
    AllEmittedIff(arcs, V);
    EmittedWithin(arcs, V);
    if v :| OnCycle(arcs, v) {
      CycleInside(arcs, v);
    }
  }

  lemma EmittedWithin(arcs: Arcs, V: set<Id>)
    ensures Distinct(LeastFirst(arcs, V)) && Elems(LeastFirst(arcs, V)) <= V
    ensures |LeastFirst(arcs, V)| == |V| <==> Elems(LeastFirst(arcs, V)) == V
    ensures |LeastFirst(arcs, V)| <= |V|
  {
    var order := LeastFirst(arcs, V);
    LeastFirstGreedy(arcs, V);
    GreedyOrdered(arcs, V, order);
    DistinctSize(order);
    SubsetSize(Elems(order), V);
  }

  /**
   On a closed acyclic graph the sort succeeds with the lexicographically least of all
   topological orders of the nodes.
   */
  lemma SortIsLeastOrder(nodes: map<Id, Node>, edges: Adjacency)
    requires Closed(nodes, edges) && !HasCycle(edges)
    ensures SortOutcome(nodes, edges).Sorted?
    ensures TopologicalOrder(ArcsOf(edges), nodes.Keys, SortOutcome(nodes, edges).order)
    ensures forall other | TopologicalOrder(ArcsOf(edges), nodes.Keys, other) ::
              SeqLe(SortOutcome(nodes, edges).order, other)
  {
    var arcs, V := ArcsOf(edges), nodes.Keys;
    SortDetectsCycles(nodes, edges);
    ClosedCandidates(nodes, edges);
    EmittedWithin(arcs, V);
    AllEmittedIff(arcs, V);
    forall other | TopologicalOrder(arcs, V, other) ensures SeqLe(LeastFirst(arcs, V), other) {
      LeastFirstIsLeast(arcs, V, other);
    }
  }

  /** Only which pairs of ids are joined matters: not edge order, types, flags or multiplicity. */
  lemma SortDependsOnArcsOnly(nodes: map<Id, Node>, edges: Adjacency, nodes': map<Id, Node>, edges': Adjacency)
    requires nodes.Keys == nodes'.Keys && ArcsOf(edges) == ArcsOf(edges')
    ensures SortOutcome(nodes, edges) == SortOutcome(nodes', edges')
  {
    TargetsAreArcTargets(edges);
    TargetsAreArcTargets(edges');
    assert Targets(edges) == Targets(edges');
    assert |nodes| == |nodes.Keys| && |nodes'| == |nodes'.Keys|;
  }

  // --- graphs with undeclared targets -----------------------------------------------------

  ghost predicate SourcesDeclared(nodes: map<Id, Node>, edges: Adjacency) {
    forall a | a in ArcsOf(edges) :: a.0 in nodes
  }

  ghost predicate TargetsDeclared(nodes: map<Id, Node>, edges: Adjacency) {
    forall a | a in ArcsOf(edges) :: a.1 in nodes
  }

  /** The sort's answer is what its comment promises: an order of the nodes, or an error for a cycle. */
  ghost predicate SortIsRight(nodes: map<Id, Node>, edges: Adjacency) {
    match SortOutcome(nodes, edges)
    case Sorted(order) => TopologicalOrder(ArcsOf(edges), nodes.Keys, order)
    case CycleDetected => HasCycle(edges)
  }

  /** Edge targets that are no nodes. */
  ghost function Undeclared(nodes: map<Id, Node>, edges: Adjacency): set<Id> {
    Targets(edges) - nodes.Keys
  }

  /** What lies downstream of a cycle, or of an edge source that is neither a node nor a target. */
  ghost function Blocked(nodes: map<Id, Node>, edges: Adjacency): set<Id> {
    set v | v in Candidates(nodes, edges) && BlockedAt(nodes, edges, v)
  }

  ghost predicate BlockedAt(nodes: map<Id, Node>, edges: Adjacency, v: Id) {
    exists u :: Reaches(ArcsOf(edges), u, v) && (u !in Candidates(nodes, edges) || OnCycle(ArcsOf(edges), u))
  }

  lemma GroundedUnlessBlocked(nodes: map<Id, Node>, edges: Adjacency, v: Id)
    ensures Grounded(ArcsOf(edges), Candidates(nodes, edges), v)
      <==> v in Candidates(nodes, edges) && v !in Blocked(nodes, edges)
  {
    if Grounded(ArcsOf(edges), Candidates(nodes, edges), v) {
      GroundedCandidate(ArcsOf(edges), Candidates(nodes, edges), v);
    }
  }

  /** The sort emits every candidate but the blocked ones. */
  lemma EmittedAllButBlocked(nodes: map<Id, Node>, edges: Adjacency)
    ensures Elems(LeastFirst(ArcsOf(edges), Candidates(nodes, edges)))
         == Candidates(nodes, edges) - Blocked(nodes, edges)
  {
    var order := LeastFirst(ArcsOf(edges), Candidates(nodes, edges));
    EmittedExactly(ArcsOf(edges), Candidates(nodes, edges));
    forall v ensures v in Elems(order) <==> v in Candidates(nodes, edges) && v !in Blocked(nodes, edges) {
      GroundedUnlessBlocked(nodes, edges, v);
      assert v in order <==> v in Elems(order);
    }
  }

  /**
   On every graph, closed or not: the sort fails if there are more or fewer vertices to emit than
   nodes, and otherwise returns the least of their topological orders.
   */
  lemma SortOfAnyGraph(nodes: map<Id, Node>, edges: Adjacency)
    ensures var emitted := Candidates(nodes, edges) - Blocked(nodes, edges);
            match SortOutcome(nodes, edges)
            case Sorted(order) =>
              && |emitted| == |nodes| && TopologicalOrder(ArcsOf(edges), emitted, order)
              && forall other | TopologicalOrder(ArcsOf(edges), emitted, other) :: SeqLe(order, other)
            case CycleDetected => |emitted| != |nodes|
  {
    var arcs, V := ArcsOf(edges), Candidates(nodes, edges);
    var order, emitted := LeastFirst(arcs, V), V - Blocked(nodes, edges);
    EmittedAllButBlocked(nodes, edges);
    LeastFirstGreedy(arcs, V);
    GreedyOrdered(arcs, V, order);
    DistinctSize(order);
    forall other | TopologicalOrder(arcs, emitted, other) ensures SeqLe(order, other) {
      EmittedInLeastOrder(arcs, V, other);
    }
  }

  lemma EmittedCount(nodes: map<Id, Node>, edges: Adjacency)
    ensures |LeastFirst(ArcsOf(edges), Candidates(nodes, edges))| + |Blocked(nodes, edges)|
         == |nodes| + |Undeclared(nodes, edges)|
  {
    EmittedAllButBlocked(nodes, edges);
    EmittedWithin(ArcsOf(edges), Candidates(nodes, edges));
    DistinctSize(LeastFirst(ArcsOf(edges), Candidates(nodes, edges)));
    CountParts(nodes.Keys, Targets(edges), Blocked(nodes, edges));
    assert |nodes| == |nodes.Keys|;
  }

  lemma CountParts(nodes: set<Id>, targets: set<Id>, blocked: set<Id>)
    requires blocked <= nodes + targets
    ensures |nodes + targets - blocked| + |blocked| == |nodes| + |targets - nodes|
    ensures nodes + targets - blocked == nodes <==> blocked == targets - nodes
  {
    assert nodes + targets - blocked + blocked == nodes + targets;
    assert nodes + targets == nodes + (targets - nodes);
  }

  /**
   On any graph, the answer is right exactly if the blocked vertices are the undeclared targets
   (none of either, on a closed acyclic graph), or there is a cycle and their numbers differ.
   */
  lemma SortIsRightIff(nodes: map<Id, Node>, edges: Adjacency)
    ensures SortIsRight(nodes, edges) <==>
            || Blocked(nodes, edges) == Undeclared(nodes, edges)
            || (HasCycle(edges) && |Blocked(nodes, edges)| != |Undeclared(nodes, edges)|)
  {
    var arcs, V := ArcsOf(edges), Candidates(nodes, edges);
    var order := LeastFirst(arcs, V);
    EmittedAllButBlocked(nodes, edges);
    EmittedCount(nodes, edges);
    CountParts(nodes.Keys, Targets(edges), Blocked(nodes, edges));
    LeastFirstGreedy(arcs, V);
    GreedyOrdered(arcs, V, order);
  }

  /**
   When all edge sources are nodes, it is right exactly if all targets are nodes too, or there is
   a cycle and there are not just as many blocked vertices as undeclared targets.
   */
  lemma SourcesDeclaredSortIsRightIff(nodes: map<Id, Node>, edges: Adjacency)
    requires SourcesDeclared(nodes, edges)
    ensures SortIsRight(nodes, edges) <==>
            || TargetsDeclared(nodes, edges)
            || (HasCycle(edges) && |Blocked(nodes, edges)| != |Undeclared(nodes, edges)|)
  {
    SortIsRightIff(nodes, edges);
    if TargetsDeclared(nodes, edges) {
      SortDetectsCycles(nodes, edges);
      if !HasCycle(edges) { SortIsLeastOrder(nodes, edges); }
    } else if HasCycle(edges) {
      var v :| OnCycle(ArcsOf(edges), v);
      CycleInside(ArcsOf(edges), v);
      ReachesSelf(ArcsOf(edges), v);
      assert BlockedAt(nodes, edges, v);
      assert v in Blocked(nodes, edges) - Undeclared(nodes, edges);
    } else {
      AcyclicUndeclaredFails(nodes, edges);
    }
  }

  /** An acyclic graph with an undeclared target is always reported as cyclic. */
  lemma AcyclicUndeclaredFails(nodes: map<Id, Node>, edges: Adjacency)
    requires SourcesDeclared(nodes, edges) && !HasCycle(edges) && !TargetsDeclared(nodes, edges)
    ensures SortOutcome(nodes, edges) == CycleDetected
  {
    var arcs, V := ArcsOf(edges), Candidates(nodes, edges);
    TargetsAreArcTargets(edges);
    AllEmittedIff(arcs, V);
    EmittedWithin(arcs, V);
    var a :| a in arcs && a.1 !in nodes;
    assert a.1 in V && a.1 !in nodes.Keys;
    SubsetSize(nodes.Keys, V);
    assert |nodes| == |nodes.Keys|;
  }

  /**
   The failing direction: with nodes a and b and edges b -> b and a -> x, the sort returns
   [a, x] without an error, although b depends on itself and x is no node.
   */
  lemma UndeclaredTargetHidesCycle(nodes: map<Id, Node>, edges: Adjacency)
    requires nodes.Keys == {"a", "b"}
    requires edges == map["b" := [Edge("b", "b", "static-import", false)],
                          "a" := [Edge("a", "x", "static-import", false)]]
    ensures SortOutcome(nodes, edges) == SortResult.Sorted(["a", "x"])
    ensures HasCycle(edges)
  {
    var arcs, V := ArcsOf(edges), Candidates(nodes, edges);
    assert edges["b"][0] in edges["b"] && edges["a"][0] in edges["a"];
    assert arcs == {("b", "b"), ("a", "x")};
    TargetsAreArcTargets(edges);
    assert V == {"a", "b", "x"};
    SmallRun(arcs, V);
    assert |nodes| == |nodes.Keys| == 2;
    assert OnCycle(arcs, "b") by { ReachesSelf(arcs, "b"); ArcToAncestorIsCycle(arcs, "b", "b"); }
  }

  lemma SmallRun(arcs: Arcs, V: set<Id>)
    requires arcs == {("b", "b"), ("a", "x")} && V == {"a", "b", "x"}
    ensures LeastFirst(arcs, V) == ["a", "x"]
  {
    assert ("b", "b") in arcs && ("a", "x") in arcs;
    OnlyReady(arcs, V, [], "a");
    OnlyReady(arcs, V, ["a"], "x");
    GreedyExtend(arcs, V, [], "a");
    assert [] + ["a"] == ["a"];
    GreedyExtend(arcs, V, ["a"], "x");
    assert ["a"] + ["x"] == ["a", "x"];
    assert Ready(arcs, V, ["a", "x"]) == {} by { assert ("b", "b") in arcs; }
    GreedyComplete(arcs, V, ["a", "x"]);
  }

  lemma OnlyReady(arcs: Arcs, V: set<Id>, done: seq<Id>, v: Id)
    requires Ready(arcs, V, done) == {v}
    ensures IsLeast(Ready(arcs, V, done), v)
  {
    LeReflexive(v);
  }

  // --- patches ----------------------------------------------------------------------------

  ghost function KeysIn(list: seq<Edge>): set<EdgeKey> {
    set e | e in list :: KeyOf(e)
  }

  ghost function IdsIn(list: seq<Node>): set<Id> {
    set n | n in list :: n.id
  }

  lemma KeyedMeansKey(edges: Adjacency, e: Edge)
    requires SourcesMatch(edges)
    ensures Keyed(edges, e) <==> KeyOf(e) in EdgeKeys(edges)
  {
    if Keyed(edges, e) {
      var k :| 0 <= k < |Bucket(edges, e.source)| && SameKey(Bucket(edges, e.source)[k], e);
      var x := edges[e.source][k];
      assert x in edges[e.source] && KeyOf(x) == KeyOf(e);
    }
    if KeyOf(e) in EdgeKeys(edges) {
      var u, x :| u in edges && x in edges[u] && KeyOf(x) == KeyOf(e);
      var k :| 0 <= k < |edges[u]| && edges[u][k] == x;
      assert SameKey(Bucket(edges, e.source)[k], e);
    }
  }

  lemma MissingKeys(from: Adjacency, against: Adjacency, list: seq<Edge>)
    requires SourcesMatch(from) && SourcesMatch(against) && MissingEdgeList(from, against, list)
    ensures KeysIn(list) == EdgeKeys(from) - EdgeKeys(against)
  {
    forall key | key in KeysIn(list) ensures key in EdgeKeys(from) - EdgeKeys(against) {
      var e :| e in list && KeyOf(e) == key;
      assert multiset(list)[e] > 0;
      KeyedMeansKey(against, e);
      assert e in multiset(Bucket(from, e.source));
    }
    forall key | key in EdgeKeys(from) - EdgeKeys(against) ensures key in KeysIn(list) {
      var u, e :| u in from && e in from[u] && KeyOf(e) == key;
      KeyedMeansKey(against, e);
      assert multiset(list)[e] > 0;
    }
  }

  lemma MissingIds(from: map<Id, Node>, against: map<Id, Node>, list: seq<Node>)
    requires MissingNodeList(from, against, list) && forall id | id in from :: from[id].id == id
    ensures IdsIn(list) == from.Keys - against.Keys
  {
    forall id | id in from.Keys - against.Keys ensures id in IdsIn(list) {
      assert from[id] in list;
    }
  }

  /** Taking away what was removed and adding what was added turns the one graph into the other. */
  lemma DiffIsPatch(
    nodes: map<Id, Node>, edges: Adjacency, nodes': map<Id, Node>, edges': Adjacency, d: DiffResult)
    requires SourcesMatch(edges) && SourcesMatch(edges')
    requires forall id | id in nodes :: nodes[id].id == id
    requires forall id | id in nodes' :: nodes'[id].id == id
    requires IsDiff(nodes, edges, nodes', edges', d)
    ensures nodes.Keys - IdsIn(d.removedNodes) + IdsIn(d.addedNodes) == nodes'.Keys
    ensures EdgeKeys(edges) - KeysIn(d.removedEdges) + KeysIn(d.addedEdges) == EdgeKeys(edges')
    ensures IdsIn(d.removedNodes) <= nodes.Keys && IdsIn(d.addedNodes) !! nodes.Keys
    ensures KeysIn(d.removedEdges) <= EdgeKeys(edges) && KeysIn(d.addedEdges) !! EdgeKeys(edges)
  {
    MissingIds(nodes, nodes', d.removedNodes);
    MissingIds(nodes', nodes, d.addedNodes);
    MissingKeys(edges, edges', d.removedEdges);
    MissingKeys(edges', edges, d.addedEdges);
  }

  /** Comparing the other way round swaps what was added and what was removed. */
  lemma DiffSwaps(
    nodes: map<Id, Node>, edges: Adjacency, nodes': map<Id, Node>, edges': Adjacency,
    d: DiffResult, d': DiffResult)
    requires IsDiff(nodes, edges, nodes', edges', d) && IsDiff(nodes', edges', nodes, edges, d')
    ensures multiset(d.addedEdges) == multiset(d'.removedEdges)
    ensures multiset(d.removedEdges) == multiset(d'.addedEdges)
    ensures multiset(d.addedNodes) == multiset(d'.removedNodes)
    ensures multiset(d.removedNodes) == multiset(d'.addedNodes)
  {
    SameListing(d.addedNodes, d'.removedNodes);
    SameListing(d.removedNodes, d'.addedNodes);
  }

  lemma SameListing(a: seq<Node>, b: seq<Node>)
    requires Distinct(a) && Distinct(b) && forall n :: n in a <==> n in b
    ensures multiset(a) == multiset(b)
  {
    DistinctCounts(a);
    DistinctCounts(b);
    forall n ensures multiset(a)[n] == multiset(b)[n] {
      assert n in multiset(a) <==> n in a;
      assert n in multiset(b) <==> n in b;
    }
  }

  // --- persistence ------------------------------------------------------------------------

  /**
   A graph that was saved and loaded again has the same nodes and arcs, so every answer the
   graph gives is unchanged, on closed graphs and on others.
   */
  lemma PersistenceKeepsMeaning(
    nodes: map<Id, Node>, edges: Adjacency, nodeRows: map<Id, NodeRow>, edgeRows: map<EdgeKey, int>,
    nodes': map<Id, Node>, edges': Adjacency)
    requires SourcesMatch(edges) && forall id | id in nodes :: nodes[id].id == id
    requires NodesSaved(nodes, nodeRows) && EdgesSaved(edges, edgeRows)
    requires NodesLoaded(nodeRows, nodes') && EdgesLoaded(edgeRows, edges')
    ensures nodes' == nodes && EdgeKeys(edges') == EdgeKeys(edges)
    ensures SortOutcome(nodes', edges') == SortOutcome(nodes, edges)
    ensures forall x, id :: Reaches(ArcsOf(edges'), x, id) <==> Reaches(ArcsOf(edges), x, id)
    ensures forall cycles ::
              CycleReport(ArcsOf(edges'), nodes'.Keys, cycles) <==> CycleReport(ArcsOf(edges), nodes.Keys, cycles)
  {
    NodesRoundTrip(nodes, nodeRows, nodes');
    EdgesRoundTrip(edges, edgeRows, edges');
    SortDependsOnArcsOnly(nodes, edges, nodes', edges');
  }

  /** Saving what was loaded leaves the edge table as it was. */
  lemma SecondSaveSame(edges: Adjacency, edgeRows: map<EdgeKey, int>, edges': Adjacency, edgeRows': map<EdgeKey, int>)
    requires EdgesSaved(edges, edgeRows) && EdgesLoaded(edgeRows, edges') && EdgesSaved(edges', edgeRows')
    ensures edgeRows' == edgeRows
  {
    LoadedKeys(edgeRows, edges');
    assert edgeRows'.Keys == edgeRows.Keys;
    forall key | key in edgeRows ensures edgeRows'[key] == edgeRows[key] {
      SecondFlagSame(edges, edgeRows, edges', edgeRows', key);
    }
  }
}
