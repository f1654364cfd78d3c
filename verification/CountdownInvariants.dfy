/**
 What the loops of `TopologicalSort` keep true: the in-degree map counts the edges from sources
 not emitted yet, and the sorted queue holds the vertices whose count is zero.
 */
module CountdownInvariants {
  import opened Order
  import opened LeastOrder
  import opened Edges

  function Degree(inDegree: map<Id, int>, v: Id): int {
    if v in inDegree then inDegree[v] else 0
  }

  /** The invariant of the emitting loop. */
  ghost predicate Progress(
    edges: Adjacency, V: set<Id>, inDegree: map<Id, int>, emitted: seq<Id>, queue: seq<Id>)
  {
    && inDegree.Keys == V && Elems(emitted) <= V
    && Remaining(edges, V, inDegree, emitted)
    && QueueHoldsZeros(V, inDegree, emitted, queue)
    && Greedy(ArcsOf(edges), V, emitted)
  }

  lemma ProgressAtStart(edges: Adjacency, V: set<Id>, inDegree: map<Id, int>, queue: seq<Id>)
    requires inDegree.Keys == V && QueueHoldsZeros(V, inDegree, [], queue)
    requires forall v | v in V :: inDegree[v] == InFrom(edges, edges.Keys, v)
    ensures Progress(edges, V, inDegree, [], queue)
  {
    assert edges.Keys - Elems([]) == edges.Keys;
  }

  lemma ProgressAtEnd(edges: Adjacency, V: set<Id>, inDegree: map<Id, int>, emitted: seq<Id>)
    requires Progress(edges, V, inDegree, emitted, [])
    ensures emitted == LeastFirst(ArcsOf(edges), V)
  {
    ZerosAreReady(edges, V, inDegree, emitted);
    GreedyComplete(ArcsOf(edges), V, emitted);
  }

  lemma EmitGrows(edges: Adjacency, V: set<Id>, inDegree: map<Id, int>, emitted: seq<Id>, queue: seq<Id>)
    requires Progress(edges, V, inDegree, emitted, queue) && queue != []
    ensures [queue[0]] + queue[1..] == queue
    ensures V - Elems(emitted + [queue[0]]) < V - Elems(emitted)
  {
    assert queue[0] in queue;
    assert queue[0] in V - Elems(emitted);
    assert Elems(emitted + [queue[0]]) == Elems(emitted) + {queue[0]};
  }

  /** The invariant of the loop over the edges of the last emitted node. */
  ghost predicate Counting(
    edges: Adjacency, V: set<Id>, inDegree: map<Id, int>, emitted: seq<Id>, node: Id, i: nat, queue: seq<Id>)
  {
    && inDegree.Keys == V && Elems(emitted) <= V && i <= |Bucket(edges, node)|
    && Releasing(edges, V, inDegree, emitted, node, i)
    && QueueHoldsZeros(V, inDegree, emitted, queue)
    && Greedy(ArcsOf(edges), V, emitted)
  }

  lemma CountingStart(
    edges: Adjacency, V: set<Id>, inDegree: map<Id, int>, emitted: seq<Id>, node: Id, waiting: seq<Id>)
    requires Progress(edges, V, inDegree, emitted, [node] + waiting)
    ensures Counting(edges, V, inDegree, emitted + [node], node, 0, waiting)
  {
    NextIsLeast(edges, V, inDegree, emitted, [node] + waiting);
    GreedyExtend(ArcsOf(edges), V, emitted, node);
    PopNode(edges, V, inDegree, emitted, node, waiting);
  }

  lemma CountingStep(
    edges: Adjacency, V: set<Id>, inDegree: map<Id, int>, emitted: seq<Id>, node: Id, i: nat, queue: seq<Id>)
    requires Counting(edges, V, inDegree, emitted, node, i, queue) && i < |Bucket(edges, node)|
    requires Targets(edges) <= V
    ensures var t := Bucket(edges, node)[i].target;
            && t in inDegree
            && Counting(edges, V, inDegree[t := inDegree[t] - 1], emitted, node, i + 1,
                        if inDegree[t] - 1 == 0 then Sort(queue + [t]) else queue)
  {
    assert Bucket(edges, node)[i] in edges[node];
    DecrementStep(edges, V, inDegree, emitted, node, i, queue);
  }

  lemma CountingEnd(
    edges: Adjacency, V: set<Id>, inDegree: map<Id, int>, emitted: seq<Id>, node: Id, queue: seq<Id>)
    requires Counting(edges, V, inDegree, emitted, node, |Bucket(edges, node)|, queue)
    ensures Progress(edges, V, inDegree, emitted, queue)
  {
    var es := Bucket(edges, node);
    assert es[..|es|] == es;
  }

  /** Each in-degree counts the edges from sources not emitted yet. */
  ghost predicate Remaining(edges: Adjacency, V: set<Id>, inDegree: map<Id, int>, emitted: seq<Id>)
    requires inDegree.Keys == V
  {
    && (forall v | v in V :: inDegree[v] == InFrom(edges, edges.Keys - Elems(emitted), v))
    && (forall v | v in emitted :: v in V && inDegree[v] == 0)
  }

  /** As `Remaining`, when only the first `i` edges of the last emitted node have been counted off. */
  ghost predicate Releasing(
    edges: Adjacency, V: set<Id>, inDegree: map<Id, int>, emitted: seq<Id>, node: Id, i: nat)
    requires inDegree.Keys == V && i <= |Bucket(edges, node)|
  {
    var es := Bucket(edges, node);
    && (forall v | v in V :: inDegree[v] ==
          InFrom(edges, edges.Keys - Elems(emitted), v) + CountTo(es, v) - CountTo(es[..i], v))
    && (forall v | v in emitted :: v in V && inDegree[v] == 0)
  }

  ghost predicate QueueHoldsZeros(V: set<Id>, inDegree: map<Id, int>, emitted: seq<Id>, queue: seq<Id>)
    requires inDegree.Keys == V
  {
    && Sorted(queue) && Distinct(queue)
    && forall v :: v in queue <==> v in V && v !in emitted && inDegree[v] == 0
  }

  lemma ZerosAreReady(edges: Adjacency, V: set<Id>, inDegree: map<Id, int>, emitted: seq<Id>)
    requires inDegree.Keys == V && Remaining(edges, V, inDegree, emitted)
    ensures forall v :: v in Ready(ArcsOf(edges), V, emitted) <==> v in V && v !in emitted && inDegree[v] == 0
  {
    forall v | v in V
      ensures inDegree[v] == 0 <==> forall u | (u, v) in ArcsOf(edges) :: u in emitted
    {
      InFromZero(edges, edges.Keys - Elems(emitted), v);
    }
  }

  lemma NextIsLeast(edges: Adjacency, V: set<Id>, inDegree: map<Id, int>, emitted: seq<Id>, queue: seq<Id>)
    requires inDegree.Keys == V && Remaining(edges, V, inDegree, emitted)
    requires QueueHoldsZeros(V, inDegree, emitted, queue) && queue != []
    ensures queue[0] in V && queue[0] !in emitted
    ensures IsLeast(Ready(ArcsOf(edges), V, emitted), queue[0])
  {
    var ready := Ready(ArcsOf(edges), V, emitted);
    var node := queue[0];
    ZerosAreReady(edges, V, inDegree, emitted);
    assert node in queue;
    forall v | v in ready ensures Le(node, v) {
      assert v in queue;
      LeReflexive(v);
    }
  }

  lemma PopNode(edges: Adjacency, V: set<Id>, inDegree: map<Id, int>, emitted: seq<Id>, node: Id, waiting: seq<Id>)
    requires inDegree.Keys == V && Remaining(edges, V, inDegree, emitted)
    requires node in V && node !in emitted
    requires QueueHoldsZeros(V, inDegree, emitted, [node] + waiting)
    ensures Releasing(edges, V, inDegree, emitted + [node], node, 0)
    ensures QueueHoldsZeros(V, inDegree, emitted + [node], waiting)
  {
    var queue := [node] + waiting;
    assert queue[0] == node && waiting == queue[1..];
    assert node in queue;
    var K := edges.Keys - Elems(emitted);
    assert edges.Keys - Elems(emitted + [node]) == K - {node};
    forall v | v in V
      ensures inDegree[v] == InFrom(edges, K - {node}, v) + CountTo(Bucket(edges, node), v)
    {
      if node in K {
        InFromRemove(edges, K, node, v);
      } else {
        assert K - {node} == K;
      }
    }
    forall v ensures v in waiting <==> v in V && v !in emitted + [node] && inDegree[v] == 0 {
      assert v in queue <==> v == node || v in waiting;
      if v in waiting {
        var i :| 0 <= i < |waiting| && waiting[i] == v;
        assert queue[i + 1] == v;
      }
    }
  }

  lemma DecrementStep(
    edges: Adjacency, V: set<Id>, inDegree: map<Id, int>, emitted: seq<Id>, node: Id, i: nat, queue: seq<Id>)
    requires inDegree.Keys == V && i < |Bucket(edges, node)|
    requires Releasing(edges, V, inDegree, emitted, node, i)
    requires QueueHoldsZeros(V, inDegree, emitted, queue)
    requires Bucket(edges, node)[i].target in V
    ensures
      var t := Bucket(edges, node)[i].target;
      var after := inDegree[t := inDegree[t] - 1];
      && after.Keys == V
      && Releasing(edges, V, after, emitted, node, i + 1)
      && QueueHoldsZeros(V, after, emitted, if after[t] == 0 then Sort(queue + [t]) else queue)
  {
    var es := Bucket(edges, node);
    var t := es[i].target;
    var after := inDegree[t := inDegree[t] - 1];
    forall v | v in V ensures CountTo(es[..i + 1], v) == CountTo(es[..i], v) + if t == v then 1 else 0 {
      CountToStep(es, i, v);
    }
    CountToPrefix(es, i + 1, t);
    assert inDegree[t] >= 1;
    SortFacts(queue + [t]);
    forall v ensures v in Sort(queue + [t]) <==> v == t || v in queue {
      assert v in Sort(queue + [t]) <==> v in Elems(Sort(queue + [t]));
      assert v in queue + [t] <==> v in Elems(queue + [t]);
    }
  }
}
