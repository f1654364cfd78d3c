/**
 The order Kahn's algorithm with a sorted ready queue produces: repeatedly emit the least
 vertex whose predecessors have all been emitted. `LeastFirst` says nothing about queues or
 in-degrees; it is what the graph's topological sort is proved against.
 `V` is the set of candidate vertices, `arcs` may mention others.
 */
module LeastOrder {
  import opened Order
  import opened Digraph

  ghost predicate IsReady(arcs: Arcs, V: set<Id>, done: seq<Id>, v: Id) {
    v in V && v !in done && forall u | (u, v) in arcs :: u in done
  }

  ghost function Ready(arcs: Arcs, V: set<Id>, done: seq<Id>): set<Id> {
    set v | v in V && IsReady(arcs, V, done, v)
  }

  ghost predicate IsLeast(s: set<Id>, v: Id) {
    v in s && forall x | x in s :: Le(v, x)
  }

  lemma {:induction false} SomeLeast(s: set<Id>)
    requires |s| > 0
    ensures exists v :: IsLeast(s, v)
    decreases |s|
  {
    var x :| x in s;
    var rest := s - {x};
    LeReflexive(x);
    if |rest| == 0 {
      assert s == {x};
      assert IsLeast(s, x);
    } else {
      SomeLeast(rest);
      var y :| IsLeast(rest, y);
      LeTotal(x, y);
      if Le(x, y) {
        forall z | z in rest ensures Le(x, z) { LeTransitive(x, y, z); }
        assert IsLeast(s, x);
      } else {
        assert IsLeast(s, y);
      }
    }
  }

  lemma LeastUnique(s: set<Id>, v: Id, w: Id)
    requires IsLeast(s, v) && IsLeast(s, w)
    ensures v == w
  {
    LeAntisymmetric(v, w);
  }

  ghost function Least(s: set<Id>): (v: Id)
    requires |s| > 0
    ensures IsLeast(s, v)
  {
    SomeLeast(s);
    var v :| IsLeast(s, v); v
  }

  /** `done` continued, always with the least ready vertex, until none is ready. */
  ghost function Continue(arcs: Arcs, V: set<Id>, done: seq<Id>): seq<Id>
    decreases V - Elems(done)
  {
    var ready := Ready(arcs, V, done);
    if ready == {} then done
    else
      var v := Least(ready);
      assert v in V - Elems(done) && v in Elems(done + [v]);
      assert Elems(done) <= Elems(done + [v]);
      Continue(arcs, V, done + [v])
  }

  ghost function LeastFirst(arcs: Arcs, V: set<Id>): seq<Id> {
    Continue(arcs, V, [])
  }

  /** Each entry is the least vertex that was ready when it was emitted. */
  ghost predicate Greedy(arcs: Arcs, V: set<Id>, order: seq<Id>) {
    forall k | 0 <= k < |order| :: IsLeast(Ready(arcs, V, order[..k]), order[k])
  }

  ghost predicate Exhausted(arcs: Arcs, V: set<Id>, order: seq<Id>) {
    Ready(arcs, V, order) == {}
  }

  lemma {:induction false} ContinueGreedy(arcs: Arcs, V: set<Id>, done: seq<Id>)
    requires Greedy(arcs, V, done)
    ensures Greedy(arcs, V, Continue(arcs, V, done))
    ensures Exhausted(arcs, V, Continue(arcs, V, done))
    decreases V - Elems(done)
  {
    var ready := Ready(arcs, V, done);
    if ready != {} {
      var v := Least(ready);
      var more := done + [v];
      assert v in V - Elems(done) && v in Elems(more) && Elems(done) <= Elems(more);
      GreedyExtend(arcs, V, done, v);
      ContinueGreedy(arcs, V, more);
    }
  }

  lemma GreedyExtend(arcs: Arcs, V: set<Id>, order: seq<Id>, v: Id)
    requires Greedy(arcs, V, order) && IsLeast(Ready(arcs, V, order), v)
    ensures Greedy(arcs, V, order + [v])
  {
    var more := order + [v];
    forall k | 0 <= k < |more| ensures IsLeast(Ready(arcs, V, more[..k]), more[k]) {
      assert more[..k] == order[..k];
      if k == |order| { assert order[..k] == order; }
    }
  }

  lemma {:induction false} GreedyPrefix(arcs: Arcs, V: set<Id>, order: seq<Id>, k: nat)
    requires Greedy(arcs, V, order) && k <= |order|
    ensures Continue(arcs, V, order[..k]) == LeastFirst(arcs, V)
    decreases k
  {
    if k > 0 {
      GreedyPrefix(arcs, V, order, k - 1);
      var ready := Ready(arcs, V, order[..k - 1]);
      LeastUnique(ready, order[k - 1], Least(ready));
      assert order[..k] == order[..k - 1] + [order[k - 1]];
    }
  }

  /** A greedy order that leaves nothing ready is the least-first order. */
  lemma GreedyComplete(arcs: Arcs, V: set<Id>, order: seq<Id>)
    requires Greedy(arcs, V, order) && Exhausted(arcs, V, order)
    ensures order == LeastFirst(arcs, V)
  {
    GreedyPrefix(arcs, V, order, |order|);
    assert order[..|order|] == order;
  }

  lemma LeastFirstGreedy(arcs: Arcs, V: set<Id>)
    ensures Greedy(arcs, V, LeastFirst(arcs, V))
    ensures Exhausted(arcs, V, LeastFirst(arcs, V))
  {
    ContinueGreedy(arcs, V, []);
  }

  lemma GreedyOrdered(arcs: Arcs, V: set<Id>, order: seq<Id>)
    requires Greedy(arcs, V, order)
    ensures Distinct(order) && PredsBefore(arcs, order) && Elems(order) <= V
  {
    forall i | 0 <= i < |order|
      ensures order[i] in V && order[i] !in order[..i]
      ensures forall u | (u, order[i]) in arcs :: u in order[..i]
    {
      assert IsReady(arcs, V, order[..i], order[i]);
    }
    forall i, j | 0 <= i < j < |order| ensures order[i] != order[j] {
      assert order[..j][i] == order[i];
    }
  }
}
