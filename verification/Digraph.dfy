/**
 Directed graphs as finite sets of arcs: walks, reachability, cycles, and the two facts every
 algorithm in this project leans on (a finite acyclic set has a source; an order in which arcs
 only point one way has no cycles).
 */
module Digraph {
  import opened Order

  type Arcs = set<(Id, Id)>

  ghost predicate StepAt(arcs: Arcs, p: seq<Id>, i: int)
    requires 0 <= i < |p| - 1
  {
    (p[i], p[i + 1]) in arcs
  }

  ghost predicate Walk(arcs: Arcs, p: seq<Id>) {
    p != [] && forall i | 0 <= i < |p| - 1 :: StepAt(arcs, p, i)
  }

  /** `u` reaches `v` along zero or more arcs. */
  ghost predicate Reaches(arcs: Arcs, u: Id, v: Id) {
    exists p :: Walk(arcs, p) && p[0] == u && p[|p| - 1] == v
  }

  ghost predicate ClosedWalk(arcs: Arcs, p: seq<Id>) {
    Walk(arcs, p) && |p| >= 2 && p[0] == p[|p| - 1]
  }

  /** `v` reaches itself along one or more arcs. */
  ghost predicate OnCycle(arcs: Arcs, v: Id) {
    exists p :: ClosedWalk(arcs, p) && p[0] == v
  }

  ghost predicate Acyclic(arcs: Arcs) {
    forall v :: !OnCycle(arcs, v)
  }

  lemma ReachesSelf(arcs: Arcs, v: Id)
    ensures Reaches(arcs, v, v)
  {
    assert Walk(arcs, [v]);
  }

  lemma ReachesArc(arcs: Arcs, u: Id, v: Id)
    requires (u, v) in arcs
    ensures Reaches(arcs, u, v)
  {
    assert Walk(arcs, [u, v]);
  }

  lemma WalkConcat(arcs: Arcs, p: seq<Id>, q: seq<Id>)
    requires Walk(arcs, p) && Walk(arcs, q) && p[|p| - 1] == q[0]
    ensures Walk(arcs, p + q[1..])
    ensures (p + q[1..])[0] == p[0] && (p + q[1..])[|p + q[1..]| - 1] == q[|q| - 1]
  {
    var r := p + q[1..];
    forall i | 0 <= i < |r| - 1 ensures StepAt(arcs, r, i) {
      if i < |p| - 1 {
        assert StepAt(arcs, p, i);
      } else {
        var k := i - (|p| - 1);
        assert r[i] == q[k] && r[i + 1] == q[k + 1];
        assert StepAt(arcs, q, k);
      }
    }
  }

  lemma ReachesTransitive(arcs: Arcs, u: Id, v: Id, w: Id)
    requires Reaches(arcs, u, v) && Reaches(arcs, v, w)
    ensures Reaches(arcs, u, w)
  {
    var p :| Walk(arcs, p) && p[0] == u && p[|p| - 1] == v;
    var q :| Walk(arcs, q) && q[0] == v && q[|q| - 1] == w;
    WalkConcat(arcs, p, q);
  }

  lemma WalkSlice(arcs: Arcs, p: seq<Id>, i: nat, j: nat)
    requires Walk(arcs, p) && i < j <= |p|
    ensures Walk(arcs, p[i..j])
  {
    var q := p[i..j];
    forall k | 0 <= k < |q| - 1 ensures StepAt(arcs, q, k) {
      assert q[k] == p[i + k] && q[k + 1] == p[i + k + 1];
      assert StepAt(arcs, p, i + k);
    }
  }

  lemma WalkTail(arcs: Arcs, p: seq<Id>)
    requires Walk(arcs, p) && |p| > 1
    ensures Walk(arcs, p[1..])
  {
    WalkSlice(arcs, p, 1, |p|);
    assert p[1..|p|] == p[1..];
  }

  /** An arc from `u` back to one of its ancestors closes a cycle through `u`. */
  lemma ArcToAncestorIsCycle(arcs: Arcs, u: Id, v: Id)
    requires (u, v) in arcs && Reaches(arcs, v, u)
    ensures OnCycle(arcs, u)
  {
    var q :| Walk(arcs, q) && q[0] == v && q[|q| - 1] == u;
    var p := [u, v];
    assert Walk(arcs, p);
    WalkConcat(arcs, p, q);
    assert ClosedWalk(arcs, p + q[1..]);
  }

  /** A set that contains `v` and every predecessor of its members contains all that reach `v`. */
  lemma {:induction false} AncestorsInside(arcs: Arcs, S: set<Id>, p: seq<Id>)
    requires forall u, w | (u, w) in arcs && w in S :: u in S
    requires Walk(arcs, p) && p[|p| - 1] in S
    ensures forall i | 0 <= i < |p| :: p[i] in S
  {
    if |p| > 1 {
      assert StepAt(arcs, p, 0);
      WalkTail(arcs, p);
      AncestorsInside(arcs, S, p[1..]);
      assert p[1..][0] in S;
      forall i | 0 <= i < |p| ensures p[i] in S {
        if i > 0 { assert p[i] == p[1..][i - 1]; }
      }
    }
  }

  lemma AncestorsExactly(arcs: Arcs, S: set<Id>, v: Id)
    requires v in S
    requires forall x | x in S :: Reaches(arcs, x, v)
    requires forall u, w | (u, w) in arcs && w in S :: u in S
    ensures forall x :: x in S <==> Reaches(arcs, x, v)
  {
    forall x | Reaches(arcs, x, v) ensures x in S {
      var p :| Walk(arcs, p) && p[0] == x && p[|p| - 1] == v;
      AncestorsInside(arcs, S, p);
    }
  }

  /** A set closed under successors holds everything reachable from it. */
  lemma {:induction false} DescendantsInside(arcs: Arcs, S: set<Id>, p: seq<Id>)
    requires forall u, w | (u, w) in arcs && u in S :: w in S
    requires Walk(arcs, p) && p[0] in S
    ensures forall i | 0 <= i < |p| :: p[i] in S
  {
    if |p| > 1 {
      assert StepAt(arcs, p, 0);
      WalkTail(arcs, p);
      DescendantsInside(arcs, S, p[1..]);
      forall i | 0 <= i < |p| ensures p[i] in S {
        if i > 0 { assert p[i] == p[1..][i - 1]; }
      }
    }
  }

  /** Every entry's predecessors come strictly before it. */
  ghost predicate PredsBefore(arcs: Arcs, order: seq<Id>) {
    forall i, u | 0 <= i < |order| && (u, order[i]) in arcs :: u in order[..i]
  }

  /** Every entry's successors come strictly before it. */
  ghost predicate SuccsBefore(arcs: Arcs, order: seq<Id>) {
    forall i, v | 0 <= i < |order| && (order[i], v) in arcs :: v in order[..i]
  }

  lemma {:induction false} WalkEndsAt(arcs: Arcs, order: seq<Id>, p: seq<Id>, i: nat)
    requires PredsBefore(arcs, order)
    requires Walk(arcs, p) && i < |order| && p[|p| - 1] == order[i]
    ensures |p| > 1 ==> p[0] in order[..i]
    ensures p[0] in order[..i + 1]
    decreases |p|
  {
    if |p| > 1 {
      assert StepAt(arcs, p, 0);
      WalkTail(arcs, p);
      WalkEndsAt(arcs, order, p[1..], i);
      var k :| 0 <= k <= i && order[k] == p[1];
      assert p[0] in order[..k];
    }
  }

  lemma {:induction false} WalkStartsAt(arcs: Arcs, order: seq<Id>, p: seq<Id>, i: nat)
    requires SuccsBefore(arcs, order)
    requires Walk(arcs, p) && i < |order| && p[0] == order[i]
    ensures |p| > 1 ==> p[|p| - 1] in order[..i]
    decreases |p|
  {
    if |p| > 1 {
      assert StepAt(arcs, p, 0);
      var k :| 0 <= k < i && order[k] == p[1];
      WalkTail(arcs, p);
      WalkStartsAt(arcs, order, p[1..], k);
    }
  }

  lemma PredsBeforeNoCycle(arcs: Arcs, order: seq<Id>, v: Id)
    requires PredsBefore(arcs, order) && Distinct(order) && v in order
    ensures !OnCycle(arcs, v)
  {
    if OnCycle(arcs, v) {
      var p :| ClosedWalk(arcs, p) && p[0] == v;
      var i :| 0 <= i < |order| && order[i] == v;
      WalkEndsAt(arcs, order, p, i);
      assert false;
    }
  }

  lemma SuccsBeforeNoCycle(arcs: Arcs, order: seq<Id>, p: seq<Id>)
    requires SuccsBefore(arcs, order) && Distinct(order)
    requires |p| >= 1 && p[0] in order
    ensures !ClosedWalk(arcs, p)
  {
    if ClosedWalk(arcs, p) {
      var i :| 0 <= i < |order| && order[i] == p[0];
      WalkStartsAt(arcs, order, p, i);
      assert false;
    }
  }

  ghost predicate HasPredIn(arcs: Arcs, S: set<Id>, v: Id) {
    exists u :: u in S && (u, v) in arcs
  }

  /** If every member of `S` has a predecessor in `S`, there are walks of any length inside `S`. */
  lemma {:induction false} BackwardWalk(arcs: Arcs, S: set<Id>, n: nat) returns (p: seq<Id>)
    requires S != {} && n >= 1
    requires forall v | v in S :: HasPredIn(arcs, S, v)
    ensures Walk(arcs, p) && |p| == n && forall x | x in p :: x in S
  {
    if n == 1 {
      var v :| v in S;
      p := [v];
    } else {
      var q := BackwardWalk(arcs, S, n - 1);
      assert HasPredIn(arcs, S, q[0]);
      var u :| u in S && (u, q[0]) in arcs;
      p := [u] + q;
      forall i | 0 <= i < |p| - 1 ensures StepAt(arcs, p, i) {
        if i > 0 { assert StepAt(arcs, q, i - 1); }
      }
    }
  }

  lemma RepeatIsCycle(arcs: Arcs, p: seq<Id>, i: nat, j: nat)
    requires Walk(arcs, p) && i < j < |p| && p[i] == p[j]
    ensures OnCycle(arcs, p[i])
  {
    var q := p[i..j + 1];
    WalkSlice(arcs, p, i, j + 1);
    assert ClosedWalk(arcs, q) && q[0] == p[i];
  }

  /** A nonempty finite set free of cycles has a member none of whose predecessors is inside. */
  lemma SourceExists(arcs: Arcs, S: set<Id>) returns (v: Id)
    requires S != {} && forall x | x in S :: !OnCycle(arcs, x)
    ensures v in S && forall u | (u, v) in arcs :: u !in S
  {
    if forall v | v in S :: HasPredIn(arcs, S, v) {
      var p := BackwardWalk(arcs, S, |S| + 1);
      if Distinct(p) {
        DistinctSize(p);
        SubsetSize(Elems(p), S);
        assert false;
      } else {
        var i, j :| 0 <= i < j < |p| && p[i] == p[j];
        assert p[i] in S;
        RepeatIsCycle(arcs, p, i, j);
      }
    } else {
      v :| v in S && !HasPredIn(arcs, S, v);
    }
  }

  // --- breadth-first search against the arcs ----------------------------------------------

  /** Who can reach `start` is being collected: `queue` holds the members not yet expanded. */
  ghost predicate Spreading(arcs: Arcs, start: Id, affected: set<Id>, queue: seq<Id>) {
    && start in affected && Distinct(queue)
    && (forall x | x in queue :: x in affected)
    && (forall x | x in affected :: Reaches(arcs, x, start))
    && (forall u, v | (u, v) in arcs && v in affected && v !in queue :: u in affected)
  }

  /** As `Spreading`, while the predecessors of `current` are being added. */
  ghost predicate Expanding(arcs: Arcs, start: Id, affected: set<Id>, queue: seq<Id>, current: Id) {
    && start in affected && Distinct(queue) && current in affected && current !in queue
    && (forall x | x in queue :: x in affected)
    && (forall x | x in affected :: Reaches(arcs, x, start))
    && (forall u, v | (u, v) in arcs && v in affected && v !in queue && v != current :: u in affected)
  }

  lemma SpreadStart(arcs: Arcs, start: Id)
    ensures Spreading(arcs, start, {start}, [start])
  {
    ReachesSelf(arcs, start);
  }

  lemma ExpandStart(arcs: Arcs, start: Id, affected: set<Id>, queue: seq<Id>)
    requires Spreading(arcs, start, affected, queue) && queue != []
    ensures Expanding(arcs, start, affected, queue[1..], queue[0])
    ensures affected - Elems(queue) < affected - Elems(queue[1..])
  {
    assert queue[0] in queue;
    assert forall x :: x in queue <==> x == queue[0] || x in queue[1..];
    assert queue[0] in Elems(queue) && queue[0] !in Elems(queue[1..]);
  }

  lemma ExpandAdd(arcs: Arcs, start: Id, affected: set<Id>, queue: seq<Id>, current: Id, u: Id)
    requires Expanding(arcs, start, affected, queue, current) && (u, current) in arcs && u !in affected
    ensures Expanding(arcs, start, affected + {u}, queue + [u], current)
    ensures affected + {u} - Elems(queue + [u]) == affected - Elems(queue)
  {
    ReachesArc(arcs, u, current);
    ReachesTransitive(arcs, u, current, start);
    assert forall x :: x in queue + [u] <==> x in queue || x == u;
  }

  lemma ExpandDone(arcs: Arcs, start: Id, affected: set<Id>, queue: seq<Id>, current: Id)
    requires Expanding(arcs, start, affected, queue, current)
    requires forall u | (u, current) in arcs :: u in affected
    ensures Spreading(arcs, start, affected, queue)
  {
  }

  lemma SpreadDone(arcs: Arcs, start: Id, affected: set<Id>)
    requires Spreading(arcs, start, affected, [])
    ensures forall x :: x in affected <==> Reaches(arcs, x, start)
  {
    AncestorsExactly(arcs, affected, start);
  }

  /** All vertices a search from `start` can meet. */
  ghost function Vertices(arcs: Arcs, start: Id): set<Id> {
    {start} + set a | a in arcs :: a.0
  }

  lemma SpreadInside(arcs: Arcs, start: Id, x: Id)
    requires Reaches(arcs, x, start)
    ensures x in Vertices(arcs, start)
  {
    var p :| Walk(arcs, p) && p[0] == x && p[|p| - 1] == start;
    if |p| > 1 { assert StepAt(arcs, p, 0); }
  }

  lemma SpreadShrinks(arcs: Arcs, start: Id, affected: set<Id>, queue: seq<Id>, affected': set<Id>, queue': seq<Id>)
    requires Spreading(arcs, start, affected', queue')
    requires affected - Elems(queue) < affected' - Elems(queue')
    ensures Vertices(arcs, start) - (affected' - Elems(queue')) < Vertices(arcs, start) - (affected - Elems(queue))
  {
    var x :| x in affected' - Elems(queue') && x !in affected - Elems(queue);
    SpreadInside(arcs, start, x);
  }
}
