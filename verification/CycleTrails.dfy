/**
 Trails through a graph, as the places of their edges in the buckets, and the least ones. What the
 depth-first cycle search reports is said in these terms, without reference to how it searches.
 */
module CycleTrails {
  import opened Order
  import opened Edges

  /** `a` is a prefix of `b`, or smaller where they first differ. */
  ghost predicate LexLe(a: seq<nat>, b: seq<nat>) {
    a == [] || (b != [] && (a[0] < b[0] || (a[0] == b[0] && LexLe(a[1..], b[1..]))))
  }

  ghost predicate LexLess(a: seq<nat>, b: seq<nat>) {
    LexLe(a, b) && a != b
  }

  /** The target of edge `i` of `u`. */
  function TargetAt(edges: Adjacency, u: Id, i: nat): Id
    requires i < |Bucket(edges, u)|
  {
    Bucket(edges, u)[i].target
  }

  /** Each entry is the place of an edge of the vertex that the trail has come to. */
  ghost predicate Trail(edges: Adjacency, r: Id, q: seq<nat>)
    decreases |q|
  {
    q == [] || (q[0] < |Bucket(edges, r)| && Trail(edges, TargetAt(edges, r, q[0]), q[1..]))
  }

  /** The vertices of a trail, without the first. */
  ghost function Stops(edges: Adjacency, r: Id, q: seq<nat>): (s: seq<Id>)
    requires Trail(edges, r, q)
    ensures |s| == |q|
    decreases |q|
  {
    if q == [] then [] else
      var y := TargetAt(edges, r, q[0]);
      [y] + Stops(edges, y, q[1..])
  }

  ghost function EndOf(edges: Adjacency, r: Id, q: seq<nat>): Id
    requires Trail(edges, r, q)
  {
    if q == [] then r else Stops(edges, r, q)[|q| - 1]
  }

  /** The stops are outside `V`, and none is made twice. */
  ghost predicate Outside(V: set<Id>, s: seq<Id>) {
    Distinct(s) && forall x | x in s :: x !in V
  }

  /** A trail that goes on from `id` by its edge `i` or a later one, to vertices outside `V` only. */
  ghost predicate OpenTrail(edges: Adjacency, V: set<Id>, id: Id, i: nat, q: seq<nat>) {
    q != [] && q[0] >= i && Trail(edges, id, q) && Outside(V, Stops(edges, id, q))
  }

  /** The least one to its end. */
  ghost predicate LeastTrail(edges: Adjacency, V: set<Id>, id: Id, i: nat, q: seq<nat>) {
    && OpenTrail(edges, V, id, i, q)
    && forall q' | OpenTrail(edges, V, id, i, q') && EndOf(edges, id, q') == EndOf(edges, id, q) :: LexLe(q, q')
  }

  /** A trail and the place of one more edge. */
  ghost predicate ClosingPlace(edges: Adjacency, id: Id, c: seq<nat>) {
    && c != [] && Trail(edges, id, c[..|c| - 1])
    && c[|c| - 1] < |Bucket(edges, EndOf(edges, id, c[..|c| - 1]))|
  }

  /** That edge leads back to the stack: to `stack`, which ends in `id`, or to a stop of the trail. */
  ghost predicate LeadsBack(edges: Adjacency, stack: seq<Id>, id: Id, c: seq<nat>) {
    && ClosingPlace(edges, id, c)
    && var q := c[..|c| - 1];
       TargetAt(edges, EndOf(edges, id, q), c[|c| - 1]) in stack + Stops(edges, id, q)
  }

  /** From edge `i` of `id` on: a least trail, or none, and then an edge that leads back. */
  ghost predicate Closes(edges: Adjacency, V: set<Id>, stack: seq<Id>, id: Id, i: nat, c: seq<nat>) {
    && LeadsBack(edges, stack, id, c) && c[0] >= i
    && (|c| == 1 || LeastTrail(edges, V, id, i, c[..|c| - 1]))
  }

  /** The cycle is what lies on the stack and the trail from the target on, and the target. */
  ghost predicate CycleOf(edges: Adjacency, stack: seq<Id>, id: Id, c: seq<nat>, cycle: seq<Id>) {
    && ClosingPlace(edges, id, c)
    && var q := c[..|c| - 1];
       var full, target := stack + Stops(edges, id, q), TargetAt(edges, EndOf(edges, id, q), c[|c| - 1]);
       exists k :: 0 <= k < |full| && full[k] == target && cycle == full[k..] + [target]
  }

  /** The cycles closed from edge `i` of `id` on, in the order of the places. */
  ghost predicate Spells(
    edges: Adjacency, V: set<Id>, stack: seq<Id>, id: Id, i: nat, codes: seq<seq<nat>>, cycles: seq<seq<Id>>)
  {
    && Ascending(codes) && (forall c :: c in codes <==> Closes(edges, V, stack, id, i, c))
    && |codes| == |cycles| && forall k | 0 <= k < |codes| :: CycleOf(edges, stack, id, codes[k], cycles[k])
  }

  ghost predicate Ascending(codes: seq<seq<nat>>) {
    forall a, b | 0 <= a < b < |codes| :: LexLess(codes[a], codes[b])
  }

  /** What is visited from edge `i` of `id` on. */
  ghost predicate Explored(edges: Adjacency, V: set<Id>, id: Id, i: nat, V': set<Id>) {
    forall x :: x in V' <==> x in V || EndsAt(edges, V, id, i, x)
  }

  ghost predicate EndsAt(edges: Adjacency, V: set<Id>, id: Id, i: nat, x: Id) {
    exists q :: OpenTrail(edges, V, id, i, q) && EndOf(edges, id, q) == x
  }

  // --- first edges ------------------------------------------------------------------------

  lemma FirstStop(edges: Adjacency, id: Id, q: seq<nat>)
    requires q != [] && Trail(edges, id, q)
    ensures q[0] < |Bucket(edges, id)| && Trail(edges, TargetAt(edges, id, q[0]), q[1..])
    ensures var y := TargetAt(edges, id, q[0]);
            Stops(edges, id, q) == [y] + Stops(edges, y, q[1..]) && EndOf(edges, id, q) == EndOf(edges, y, q[1..])
  {
  }

  lemma ConsTrail(edges: Adjacency, id: Id, i: nat, q: seq<nat>)
    requires i < |Bucket(edges, id)|
    ensures Trail(edges, id, [i] + q) <==> Trail(edges, TargetAt(edges, id, i), q)
    ensures Trail(edges, id, [i] + q) ==>
              var y := TargetAt(edges, id, i);
              && Stops(edges, id, [i] + q) == [y] + Stops(edges, y, q)
              && EndOf(edges, id, [i] + q) == EndOf(edges, y, q)
  {
    assert ([i] + q)[1..] == q;
    if Trail(edges, id, [i] + q) { FirstStop(edges, id, [i] + q); }
  }

  lemma OutsideCons(V: set<Id>, y: Id, s: seq<Id>)
    ensures Outside(V, [y] + s) <==> y !in V && Outside(V + {y}, s)
  {
    var t := [y] + s;
    if Outside(V, t) {
      forall x | x in s ensures x !in V + {y} {
        var k :| 0 <= k < |s| && s[k] == x;
        assert t[k + 1] == x && t[0] == y;
      }
      forall a, b | 0 <= a < b < |s| ensures s[a] != s[b] {
        assert t[a + 1] == s[a] && t[b + 1] == s[b];
      }
    }
    if y !in V && Outside(V + {y}, s) {
      forall x | x in t ensures x !in V {
        assert x == y || x in s;
      }
      forall a, b | 0 <= a < b < |t| ensures t[a] != t[b] {
        assert t[b] == s[b - 1] && s[b - 1] in s;
      }
    }
  }

  /** Going on by edge `i` to a new vertex. */
  lemma OpenCons(edges: Adjacency, V: set<Id>, id: Id, i: nat, q: seq<nat>)
    requires i < |Bucket(edges, id)|
    ensures var y := TargetAt(edges, id, i);
            OpenTrail(edges, V, id, i, [i] + q) <==> y !in V && (q == [] || OpenTrail(edges, V + {y}, y, 0, q))
  {
    var y := TargetAt(edges, id, i);
    ConsTrail(edges, id, i, q);
    if Trail(edges, y, q) {
      OutsideCons(V, y, Stops(edges, y, q));
    }
  }

  lemma LexCons(i: nat, a: seq<nat>, b: seq<nat>)
    ensures LexLe([i] + a, [i] + b) <==> LexLe(a, b)
  {
    assert ([i] + a)[1..] == a && ([i] + b)[1..] == b;
  }

  lemma SplitHead(q: seq<nat>)
    requires q != []
    ensures q == [q[0]] + q[1..]
  {
  }

  /** The end of a trail is one of its stops. */
  lemma EndIsStop(edges: Adjacency, id: Id, q: seq<nat>)
    requires q != [] && Trail(edges, id, q)
    ensures EndOf(edges, id, q) in Stops(edges, id, q)
  {
  }

  /** Of the trails that begin with edge `i`, the least are those that are least after it. */
  lemma LeastCons(edges: Adjacency, V: set<Id>, id: Id, i: nat, q: seq<nat>)
    requires i < |Bucket(edges, id)| && TargetAt(edges, id, i) !in V
    ensures var y := TargetAt(edges, id, i);
            LeastTrail(edges, V, id, i, [i] + q) <==> q == [] || LeastTrail(edges, V + {y}, y, 0, q)
  {
    var y := TargetAt(edges, id, i);
    OpenCons(edges, V, id, i, q);
    ConsTrail(edges, id, i, q);
    if q != [] && LeastTrail(edges, V, id, i, [i] + q) {
      forall q' | OpenTrail(edges, V + {y}, y, 0, q') && EndOf(edges, y, q') == EndOf(edges, y, q)
        ensures LexLe(q, q')
      {
        OpenCons(edges, V, id, i, q');
        ConsTrail(edges, id, i, q');
        LexCons(i, q, q');
      }
    }
    if q == [] || LeastTrail(edges, V + {y}, y, 0, q) {
      forall q' | OpenTrail(edges, V, id, i, q') && EndOf(edges, id, q') == EndOf(edges, id, [i] + q)
        ensures LexLe([i] + q, q')
      {
        LeastAfter(edges, V, id, i, q, q');
      }
    }
  }

  lemma LeastAfter(edges: Adjacency, V: set<Id>, id: Id, i: nat, q: seq<nat>, q': seq<nat>)
    requires i < |Bucket(edges, id)| && TargetAt(edges, id, i) !in V
    requires q == [] || LeastTrail(edges, V + {TargetAt(edges, id, i)}, TargetAt(edges, id, i), 0, q)
    requires OpenTrail(edges, V, id, i, q') && Trail(edges, id, [i] + q)
    requires EndOf(edges, id, q') == EndOf(edges, id, [i] + q)
    ensures LexLe([i] + q, q')
  {
    var y := TargetAt(edges, id, i);
    SplitHead(q');
    if q'[0] == i {
      OpenCons(edges, V, id, i, q'[1..]);
      ConsTrail(edges, id, i, q'[1..]);
      ConsTrail(edges, id, i, q);
      LexCons(i, q, q'[1..]);
      if q != [] && q'[1..] == [] {
        EndIsStop(edges, y, q);
      }
    }
  }

  // --- the later edges --------------------------------------------------------------------

  /** Edge `i` led from `V` to `V'`: to what can be reached by it, and nothing leads on from there but to `V'`. */
  ghost predicate SweptBy(edges: Adjacency, V: set<Id>, id: Id, i: nat, V': set<Id>) {
    && V <= V' && i < |Bucket(edges, id)|
    && (forall x | x in V' - V :: ReachedBy(edges, V, id, i, x))
    && (forall q | OpenTrail(edges, V, id, i, [i] + q) :: EndOf(edges, id, [i] + q) in V')
    && forall u, k: nat | u in V' - V && k < |Bucket(edges, u)| :: TargetAt(edges, u, k) in V'
  }

  ghost predicate ReachedBy(edges: Adjacency, V: set<Id>, id: Id, i: nat, x: Id) {
    exists q :: OpenTrail(edges, V, id, i, [i] + q) && EndOf(edges, id, [i] + q) == x
  }

  /** A trail outside `V` that comes into `V' - V` ends there. */
  lemma {:induction false} NoWayOut(edges: Adjacency, V: set<Id>, V': set<Id>, id: Id, q: seq<nat>)
    requires V <= V' && forall u, k: nat | u in V' - V && k < |Bucket(edges, u)| :: TargetAt(edges, u, k) in V'
    requires Trail(edges, id, q) && (forall x | x in Stops(edges, id, q) :: x !in V)
    requires id in V' - V || exists x :: x in Stops(edges, id, q) && x in V'
    ensures EndOf(edges, id, q) in V' - V
    decreases |q|
  {
    if q != [] {
      var y := TargetAt(edges, id, q[0]);
      FirstStop(edges, id, q);
      assert y in Stops(edges, id, q) && forall x | x in Stops(edges, y, q[1..]) :: x in Stops(edges, id, q);
      if !(id in V' - V) && y !in V' {
        var x :| x in Stops(edges, id, q) && x in V';
        assert x in Stops(edges, y, q[1..]);
      }
      NoWayOut(edges, V, V', y, q[1..]);
    }
  }

  /** A trail outside `V` that goes on by a later edge and does not end in `V'` is outside `V'`. */
  lemma StaysOutside(edges: Adjacency, V: set<Id>, id: Id, i: nat, V': set<Id>, q: seq<nat>)
    requires SweptBy(edges, V, id, i, V') && OpenTrail(edges, V, id, i + 1, q) && EndOf(edges, id, q) !in V'
    ensures OpenTrail(edges, V', id, i + 1, q)
  {
    if x :| x in Stops(edges, id, q) && x in V' {
      NoWayOut(edges, V, V', id, q);
    }
  }

  lemma OpenLess(edges: Adjacency, V: set<Id>, V': set<Id>, id: Id, i: nat, q: seq<nat>)
    requires V <= V' && OpenTrail(edges, V', id, i + 1, q)
    ensures OpenTrail(edges, V, id, i, q) && OpenTrail(edges, V, id, i + 1, q)
  {
  }

  /** Of the trails that begin with a later edge, the least are those that are so once edge `i` is followed. */
  lemma LeastLater(edges: Adjacency, V: set<Id>, id: Id, i: nat, V': set<Id>, q: seq<nat>)
    requires SweptBy(edges, V, id, i, V') && q != [] && q[0] > i
    ensures LeastTrail(edges, V, id, i, q) <==> LeastTrail(edges, V', id, i + 1, q)
  {
    if LeastTrail(edges, V, id, i, q) {
      LeastStays(edges, V, id, i, V', q);
    }
    if LeastTrail(edges, V', id, i + 1, q) {
      OpenLess(edges, V, V', id, i, q);
      forall q' | OpenTrail(edges, V, id, i, q') && EndOf(edges, id, q') == EndOf(edges, id, q) ensures LexLe(q, q') {
        LaterLeast(edges, V, id, i, V', q, q');
      }
    }
  }

  lemma LeastStays(edges: Adjacency, V: set<Id>, id: Id, i: nat, V': set<Id>, q: seq<nat>)
    requires SweptBy(edges, V, id, i, V') && q != [] && q[0] > i && LeastTrail(edges, V, id, i, q)
    ensures LeastTrail(edges, V', id, i + 1, q)
  {
    var x := EndOf(edges, id, q);
    EndIsStop(edges, id, q);
    assert x !in V' - V;
    StaysOutside(edges, V, id, i, V', q);
    forall q' | OpenTrail(edges, V', id, i + 1, q') && EndOf(edges, id, q') == x ensures LexLe(q, q') {
      OpenLess(edges, V, V', id, i, q');
    }
  }

  lemma LaterLeast(edges: Adjacency, V: set<Id>, id: Id, i: nat, V': set<Id>, q: seq<nat>, q': seq<nat>)
    requires SweptBy(edges, V, id, i, V') && LeastTrail(edges, V', id, i + 1, q)
    requires OpenTrail(edges, V, id, i, q') && EndOf(edges, id, q') == EndOf(edges, id, q)
    ensures LexLe(q, q')
  {
    EndIsStop(edges, id, q);
    SplitHead(q');
    assert q'[0] != i;
    StaysOutside(edges, V, id, i, V', q');
  }
}
