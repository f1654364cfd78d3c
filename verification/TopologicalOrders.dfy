/** What the least-first order emits, when it is a topological order, and that none is smaller. */
module TopologicalOrders {
  import opened Order
  import opened Digraph
  import opened LeastOrder

  /** Everything that reaches `v` is a candidate and lies on no cycle. */
  ghost predicate Grounded(arcs: Arcs, V: set<Id>, v: Id) {
    forall u | Reaches(arcs, u, v) :: u in V && !OnCycle(arcs, u)
  }

  lemma GroundedPred(arcs: Arcs, V: set<Id>, u: Id, v: Id)
    requires Grounded(arcs, V, v) && (u, v) in arcs
    ensures Grounded(arcs, V, u)
  {
    ReachesArc(arcs, u, v);
    forall w | Reaches(arcs, w, u) ensures w in V && !OnCycle(arcs, w) {
      ReachesTransitive(arcs, w, u, v);
    }
  }

  lemma GroundedCandidate(arcs: Arcs, V: set<Id>, v: Id)
    requires Grounded(arcs, V, v)
    ensures v in V && !OnCycle(arcs, v)
  {
    ReachesSelf(arcs, v);
  }

  lemma SomeMissingIsReady(arcs: Arcs, V: set<Id>, order: seq<Id>, missing: set<Id>) returns (v: Id)
    requires missing != {}
    requires missing == set v | v in V && v !in order && Grounded(arcs, V, v)
    ensures v in Ready(arcs, V, order)
  {
    forall x | x in missing ensures !OnCycle(arcs, x) { GroundedCandidate(arcs, V, x); }
    v := SourceExists(arcs, missing);
    forall u | (u, v) in arcs ensures u in order {
      GroundedPred(arcs, V, u, v);
      GroundedCandidate(arcs, V, u);
    }
  }

  /** Exactly the grounded vertices are emitted, on every graph, closed or not. */
  lemma EmittedExactly(arcs: Arcs, V: set<Id>)
    ensures forall v :: v in LeastFirst(arcs, V) <==> Grounded(arcs, V, v)
  {
    var order := LeastFirst(arcs, V);
    LeastFirstGreedy(arcs, V);
    GreedyOrdered(arcs, V, order);
    forall v | v in order ensures Grounded(arcs, V, v) {
      EmittedIsGrounded(arcs, V, order, v);
    }
    var missing := set v | v in V && v !in order && Grounded(arcs, V, v);
    if missing != {} {
      var v := SomeMissingIsReady(arcs, V, order, missing);
      assert false;
    }
    forall v | Grounded(arcs, V, v) ensures v in order {
      GroundedCandidate(arcs, V, v);
      assert v !in missing;
    }
  }

  lemma EmittedIsGrounded(arcs: Arcs, V: set<Id>, order: seq<Id>, v: Id)
    requires Distinct(order) && PredsBefore(arcs, order) && Elems(order) <= V
    requires v in order
    ensures Grounded(arcs, V, v)
  {
    var i :| 0 <= i < |order| && order[i] == v;
    forall u | Reaches(arcs, u, v) ensures u in V && !OnCycle(arcs, u) {
      var p :| Walk(arcs, p) && p[0] == u && p[|p| - 1] == v;
      WalkEndsAt(arcs, order, p, i);
      assert u in Elems(order);
      PredsBeforeNoCycle(arcs, order, u);
    }
  }

  /** `order` lists `V` without repeats, every arc's source before its target. */
  ghost predicate TopologicalOrder(arcs: Arcs, V: set<Id>, order: seq<Id>) {
    Distinct(order) && Elems(order) == V && PredsBefore(arcs, order)
  }

  /** `V` is emitted completely iff no cycle passes through it and no arc enters it from outside. */
  lemma AllEmittedIff(arcs: Arcs, V: set<Id>)
    ensures TopologicalOrder(arcs, V, LeastFirst(arcs, V)) <==> Elems(LeastFirst(arcs, V)) == V
    ensures Elems(LeastFirst(arcs, V)) == V
      <==> (forall v | v in V :: !OnCycle(arcs, v)) && (forall u, v | (u, v) in arcs && v in V :: u in V)
  {
    var order := LeastFirst(arcs, V);
    LeastFirstGreedy(arcs, V);
    GreedyOrdered(arcs, V, order);
    EmittedExactly(arcs, V);
    if Elems(order) == V {
      forall v | v in V ensures !OnCycle(arcs, v) { PredsBeforeNoCycle(arcs, order, v); }
      forall u, v | (u, v) in arcs && v in V ensures u in V {
        assert v in order;
        var i :| 0 <= i < |order| && order[i] == v;
        assert u in order[..i];
      }
    }
    if (forall v | v in V :: !OnCycle(arcs, v)) && (forall u, v | (u, v) in arcs && v in V :: u in V) {
      forall v | v in V ensures v in order {
        forall u | Reaches(arcs, u, v) ensures u in V && !OnCycle(arcs, u) {
          var p :| Walk(arcs, p) && p[0] == u && p[|p| - 1] == v;
          AncestorsInside(arcs, V, p);
        }
        assert Grounded(arcs, V, v);
      }
    }
  }

  /** Lexicographic order on sequences of identifiers. */
  predicate SeqLe(s: seq<Id>, t: seq<Id>) {
    s == [] || (t != [] && (if s[0] == t[0] then SeqLe(s[1..], t[1..]) else Le(s[0], t[0])))
  }

  lemma {:induction false} SeqLeAtFirstDifference(s: seq<Id>, t: seq<Id>, k: nat)
    requires k <= |s| && k <= |t| && s[..k] == t[..k]
    requires k == |s| || (k < |t| && s[k] != t[k] && Le(s[k], t[k]))
    ensures SeqLe(s, t)
    decreases k
  {
    if k > 0 {
      assert s[0] == s[..k][0] == t[..k][0] == t[0];
      assert s[1..][..k - 1] == s[..k][1..] == t[..k][1..] == t[1..][..k - 1];
      SeqLeAtFirstDifference(s[1..], t[1..], k - 1);
    }
  }

  lemma {:induction false} FirstDifference(s: seq<Id>, t: seq<Id>) returns (k: nat)
    requires |s| == |t|
    ensures k <= |s| && s[..k] == t[..k] && (k < |s| ==> s[k] != t[k])
  {
    if s == [] {
      k := 0;
    } else if s[0] != t[0] {
      k := 0;
    } else {
      var j := FirstDifference(s[1..], t[1..]);
      k := j + 1;
      assert s[..k] == [s[0]] + s[1..][..j] && t[..k] == [t[0]] + t[1..][..j];
    }
  }

  /** Whatever is emitted is emitted in the least of its topological orders, on every graph. */
  lemma EmittedInLeastOrder(arcs: Arcs, V: set<Id>, other: seq<Id>)
    requires TopologicalOrder(arcs, Elems(LeastFirst(arcs, V)), other)
    ensures TopologicalOrder(arcs, Elems(other), LeastFirst(arcs, V))
    ensures SeqLe(LeastFirst(arcs, V), other)
  {
    var order := LeastFirst(arcs, V);
    LeastFirstGreedy(arcs, V);
    GreedyOrdered(arcs, V, order);
    DistinctSize(order);
    DistinctSize(other);
    var k := FirstDifference(order, other);
    if k < |order| {
      var v := other[k];
      assert v !in other[..k];
      assert v in Elems(order) && v in V;
      assert IsReady(arcs, V, order[..k], v);
      assert v in Ready(arcs, V, order[..k]);
    }
    SeqLeAtFirstDifference(order, other, k);
  }

  /** No topological order of `V` is lexicographically smaller than `LeastFirst`. */
  lemma LeastFirstIsLeast(arcs: Arcs, V: set<Id>, other: seq<Id>)
    requires TopologicalOrder(arcs, V, other)
    ensures TopologicalOrder(arcs, V, LeastFirst(arcs, V))
    ensures SeqLe(LeastFirst(arcs, V), other)
  {
    OrderedMeansGrounded(arcs, V, other);
    AllEmittedIff(arcs, V);
    EmittedInLeastOrder(arcs, V, other);
  }

  lemma OrderedMeansGrounded(arcs: Arcs, V: set<Id>, other: seq<Id>)
    requires TopologicalOrder(arcs, V, other)
    ensures forall v | v in V :: !OnCycle(arcs, v)
    ensures forall u, v | (u, v) in arcs && v in V :: u in V
  {
    forall v | v in V ensures !OnCycle(arcs, v) { PredsBeforeNoCycle(arcs, other, v); }
    forall u, v | (u, v) in arcs && v in V ensures u in V {
      assert v in other;
      var i :| 0 <= i < |other| && other[i] == v;
      assert u in other[..i];
    }
  }
}
