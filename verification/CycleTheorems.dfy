/** When the cycle search finds all cycles, as its comment promises, and when it misses one. */
module CycleTheorems {
  import opened Order
  import opened Digraph
  import opened Edges
  import opened CycleInvariants
  import opened CycleSweep
  import opened Graph
  import opened GraphTheorems

  function ArcAt(c: seq<Id>, k: nat): (Id, Id)
    requires k < |c| - 1
  {
    (c[k], c[k + 1])
  }

  /** The arcs of a closed walk: what it is, apart from where it starts. */
  ghost function CycleArcs(c: seq<Id>): Arcs {
    set k | 0 <= k < |c| - 1 :: ArcAt(c, k)
  }

  ghost predicate SameCycle(c: seq<Id>, d: seq<Id>) {
    CycleArcs(c) == CycleArcs(d)
  }

  ghost predicate Reported(cycles: seq<seq<Id>>, c: seq<Id>) {
    exists i :: 0 <= i < |cycles| && SameCycle(cycles[i], c)
  }

  /** Every simple cycle is reported, from whatever vertex. */
  ghost predicate AllReported(arcs: Arcs, cycles: seq<seq<Id>>) {
    forall c | SimpleCycle(arcs, c) :: Reported(cycles, c)
  }

  /** Two different simple cycles run through one arc. */
  ghost predicate Overlap(arcs: Arcs, c: seq<Id>, d: seq<Id>, a: (Id, Id)) {
    && SimpleCycle(arcs, c) && SimpleCycle(arcs, d) && !SameCycle(c, d)
    && a in CycleArcs(c) && a in CycleArcs(d)
  }

  ghost predicate NoOverlap(arcs: Arcs) {
    forall c, d, a :: !Overlap(arcs, c, d, a)
  }

  // --- the same cycle, started elsewhere --------------------------------------------------

  /** The simple cycle `c`, started from its vertex `k`. */
  function Rotated(c: seq<Id>, k: nat): seq<Id>
    requires k < |c|
  {
    c[k..|c| - 1] + c[..k] + [c[k]]
  }

  lemma RotatedAt(c: seq<Id>, k: nat, i: nat)
    requires |c| >= 2 && c[0] == c[|c| - 1] && k < |c| - 1 && i < |c|
    ensures |Rotated(c, k)| == |c|
    ensures Rotated(c, k)[i] == c[if k + i < |c| then k + i else k + i - (|c| - 1)]
  {
  }

  /** Where step `i` of the rotated cycle is in `c`. */
  function Source(c: seq<Id>, k: nat, i: nat): nat
    requires k < |c| - 1 && i < |c| - 1
  {
    if k + i < |c| - 1 then k + i else k + i - (|c| - 1)
  }

  lemma RotatedArc(c: seq<Id>, k: nat, i: nat)
    requires |c| >= 2 && c[0] == c[|c| - 1] && k < |c| - 1 && i < |c| - 1
    ensures |Rotated(c, k)| == |c| && ArcAt(Rotated(c, k), i) == ArcAt(c, Source(c, k, i))
    ensures Rotated(c, k)[i] == c[Source(c, k, i)]
  {
    RotatedAt(c, k, i);
    RotatedAt(c, k, i + 1);
  }

  lemma RotatedSame(arcs: Arcs, c: seq<Id>, k: nat)
    requires SimpleCycle(arcs, c) && k < |c| - 1
    ensures SameCycle(Rotated(c, k), c)
  {
    var d, n := Rotated(c, k), |c| - 1;
    forall a | a in CycleArcs(d) ensures a in CycleArcs(c) {
      var i :| 0 <= i < |d| - 1 && a == ArcAt(d, i);
      RotatedArc(c, k, i);
    }
    forall a | a in CycleArcs(c) ensures a in CycleArcs(d) {
      var j :| 0 <= j < n && a == ArcAt(c, j);
      var i := if j >= k then j - k else j - k + n;
      RotatedArc(c, k, i);
      assert Source(c, k, i) == j && a == ArcAt(d, i);
    }
  }

  /** An arc of a simple cycle is the only one of its source. */
  lemma OneSuccessor(arcs: Arcs, c: seq<Id>, k: nat, a: (Id, Id))
    requires SimpleCycle(arcs, c) && k < |c| - 1 && a in CycleArcs(c) && a.0 == c[k]
    ensures a.1 == c[k + 1]
  {
    var j :| 0 <= j < |c| - 1 && a == ArcAt(c, j);
    assert c[..|c| - 1][j] == c[..|c| - 1][k];
  }

  /** From a common vertex, two simple cycles with the same arcs go the same way. */
  lemma {:induction false} SameWay(arcs: Arcs, c: seq<Id>, d: seq<Id>, i: nat)
    requires SimpleCycle(arcs, c) && SimpleCycle(arcs, d) && SameCycle(c, d)
    requires c[0] == d[0] && i < |c| && i < |d|
    ensures c[..i + 1] == d[..i + 1]
  {
    if i > 0 {
      SameWay(arcs, c, d, i - 1);
      assert ArcAt(c, i - 1) in CycleArcs(d);
      assert c[..i][i - 1] == d[..i][i - 1];
      OneSuccessor(arcs, d, i - 1, ArcAt(c, i - 1));
      assert c[..i + 1] == c[..i] + [c[i]] && d[..i + 1] == d[..i] + [d[i]];
    }
  }

  /** A simple cycle returns to its first vertex only at its end. */
  lemma NoReturn(arcs: Arcs, c: seq<Id>, k: nat)
    requires SimpleCycle(arcs, c) && 0 < k < |c| - 1
    ensures c[k] != c[0]
  {
    assert c[..|c| - 1][k] != c[..|c| - 1][0];
  }

  lemma SameStart(arcs: Arcs, c: seq<Id>, d: seq<Id>)
    requires SimpleCycle(arcs, c) && SimpleCycle(arcs, d) && SameCycle(c, d) && c[0] == d[0]
    ensures c == d
  {
    var n := if |c| <= |d| then |c| - 1 else |d| - 1;
    SameWay(arcs, c, d, n);
    assert c[..n + 1][n] == d[..n + 1][n];
    if |c| < |d| {
      NoReturn(arcs, d, n);
    } else if |d| < |c| {
      NoReturn(arcs, c, n);
    }
  }

  lemma RotatedSimple(arcs: Arcs, c: seq<Id>, k: nat)
    requires SimpleCycle(arcs, c) && k < |c| - 1
    ensures SimpleCycle(arcs, Rotated(c, k)) && Rotated(c, k)[0] == c[k]
  {
    var d, n := Rotated(c, k), |c| - 1;
    assert |d| == n + 1 && d[0] == c[k] == d[n];
    forall i | 0 <= i < n ensures StepAt(arcs, d, i) {
      RotatedArc(c, k, i);
      assert StepAt(arcs, c, Source(c, k, i));
    }
    forall i, j | 0 <= i < j < n ensures d[..n][i] != d[..n][j] {
      RotatedArc(c, k, i);
      RotatedArc(c, k, j);
      assert c[..n][Source(c, k, i)] != c[..n][Source(c, k, j)];
    }
  }

  /** Having the same arcs is being the same up to the starting vertex. */
  lemma SameCycleIff(arcs: Arcs, c: seq<Id>, d: seq<Id>)
    requires SimpleCycle(arcs, c) && SimpleCycle(arcs, d)
    ensures SameCycle(c, d) <==> exists k :: 0 <= k < |c| - 1 && d == Rotated(c, k)
  {
    if SameCycle(c, d) {
      assert ArcAt(d, 0) in CycleArcs(c);
      var k :| 0 <= k < |c| - 1 && ArcAt(d, 0) == ArcAt(c, k);
      RotatedSame(arcs, c, k);
      RotatedSimple(arcs, c, k);
      SameStart(arcs, Rotated(c, k), d);
    }
    if k :| 0 <= k < |c| - 1 && d == Rotated(c, k) {
      RotatedSame(arcs, c, k);
    }
  }

  // --- finding all of them ----------------------------------------------------------------

  lemma OnCycleIsArc(arcs: Arcs, c: seq<Id>, k: nat)
    requires SimpleCycle(arcs, c) && k < |c| - 1
    ensures ArcAt(c, k) in arcs && ArcAt(c, k) in CycleArcs(c)
  {
    assert StepAt(arcs, c, k);
  }

  lemma SimpleCycleReached(nodes: map<Id, Node>, edges: Adjacency, c: seq<Id>)
    requires SourcesDeclared(nodes, edges) && SimpleCycle(ArcsOf(edges), c)
    ensures ReachedFrom(ArcsOf(edges), nodes.Keys, c[0])
  {
    OnCycleIsArc(ArcsOf(edges), c, 0);
    ReachesSelf(ArcsOf(edges), c[0]);
    assert c[0] in nodes.Keys;
  }

  /** If no two cycles share an arc, the cycle that the report breaks `c` by is `c`. */
  lemma NoOverlapFindsAll(nodes: map<Id, Node>, edges: Adjacency, cycles: seq<seq<Id>>, c: seq<Id>)
    requires SourcesDeclared(nodes, edges) && CycleReport(ArcsOf(edges), nodes.Keys, cycles)
    requires NoOverlap(ArcsOf(edges)) && SimpleCycle(ArcsOf(edges), c)
    ensures Reported(cycles, c)
  {
    var arcs := ArcsOf(edges);
    SimpleCycleReached(nodes, edges, c);
    assert SomeArcCloses(cycles, c);
    var k :| 0 <= k < |c| - 1 && Closing(cycles, c[k], c[k + 1]);
    var i :| 0 <= i < |cycles| && ClosedBy(cycles[i], c[k], c[k + 1]);
    ClosingIsSame(arcs, cycles[i], c, k);
  }

  lemma ClosingIsSame(arcs: Arcs, r: seq<Id>, c: seq<Id>, k: nat)
    requires NoOverlap(arcs) && SimpleCycle(arcs, r) && SimpleCycle(arcs, c)
    requires k < |c| - 1 && ClosedBy(r, c[k], c[k + 1])
    ensures SameCycle(r, c)
  {
    OnCycleIsArc(arcs, c, k);
    OnCycleIsArc(arcs, r, |r| - 2);
    assert ArcAt(r, |r| - 2) == ArcAt(c, k);
    assert !Overlap(arcs, r, c, ArcAt(c, k));
  }

  /** A reported cycle that ends in `y` and contains an arc into `y` is closed by that arc. */
  lemma ClosedInto(arcs: Arcs, r: seq<Id>, a: (Id, Id))
    requires SimpleCycle(arcs, r) && a in CycleArcs(r) && r[|r| - 1] == a.1
    ensures ClosedBy(r, a.0, a.1)
  {
    var k :| 0 <= k < |r| - 1 && ArcAt(r, k) == a;
    forall j | 0 < j < |r| - 1 ensures r[j] != r[0] {
      NoReturn(arcs, r, j);
    }
  }

  /** Started from the target of a shared arc, the search reports at most one of the two cycles. */
  lemma OverlapMissesOne(edges: Adjacency, order: seq<Id>, c: seq<Id>, d: seq<Id>, a: (Id, Id))
    requires Overlap(ArcsOf(edges), c, d, a) && order != [] && order[0] == a.1
    ensures !Reported(SearchCycles(edges, order), c) || !Reported(SearchCycles(edges, order), d)
  {
    var arcs, cycles := ArcsOf(edges), SearchCycles(edges, order);
    SearchReports(edges, order);
    if Reported(cycles, c) && Reported(cycles, d) {
      var i :| 0 <= i < |cycles| && SameCycle(cycles[i], c);
      var j :| 0 <= j < |cycles| && SameCycle(cycles[j], d);
      ClosedFirst(edges, order, cycles[i], a, i);
      ClosedFirst(edges, order, cycles[j], a, j);
    }
  }

  lemma ClosedFirst(edges: Adjacency, order: seq<Id>, r: seq<Id>, a: (Id, Id), i: nat)
    requires order != [] && order[0] == a.1 && a in CycleArcs(r)
    requires i < |SearchCycles(edges, order)| && SearchCycles(edges, order)[i] == r
    ensures ClosedBy(r, a.0, a.1)
  {
    SearchReports(edges, order);
    var k :| 0 <= k < |r| - 1 && ArcAt(r, k) == a;
    assert r[k + 1] in r;
    assert SimpleCycle(ArcsOf(edges), r);
    ClosedInto(ArcsOf(edges), r, a);
  }

  lemma {:induction false} SomeListing(ids: set<Id>) returns (order: seq<Id>)
    ensures Lists(order, ids)
    decreases |ids|
  {
    if ids == {} {
      order := [];
    } else {
      var id :| id in ids;
      var rest := SomeListing(ids - {id});
      order := ListedFirst(rest, id);
      assert Elems(order) == ids;
    }
  }

  lemma ListedFirst(rest: seq<Id>, id: Id) returns (order: seq<Id>)
    requires Distinct(rest) && id !in Elems(rest)
    ensures order != [] && order[0] == id && Distinct(order) && Elems(order) == Elems(rest) + {id}
  {
    order := [id] + rest;
    forall i, j | 0 <= i < j < |order| ensures order[i] != order[j] {
      if i == 0 { assert rest[j - 1] in Elems(rest); }
    }
  }

  /**
   On a graph whose edge sources are nodes, `DetectCycles` finds all simple cycles whatever the order
   in which it tries the nodes iff no arc lies on two of them.
   */
  lemma FindsAllIff(nodes: map<Id, Node>, edges: Adjacency)
    requires SourcesDeclared(nodes, edges)
    ensures (forall order | Lists(order, nodes.Keys) :: AllReported(ArcsOf(edges), SearchCycles(edges, order)))
      <==> NoOverlap(ArcsOf(edges))
  {
    var arcs := ArcsOf(edges);
    if NoOverlap(arcs) {
      forall order, c | Lists(order, nodes.Keys) && SimpleCycle(arcs, c)
        ensures Reported(SearchCycles(edges, order), c)
      {
        SearchReports(edges, order);
        NoOverlapFindsAll(nodes, edges, SearchCycles(edges, order), c);
      }
    } else {
      var c, d, a :| Overlap(arcs, c, d, a);
      var order := OrderThatMisses(nodes, edges, c, d, a);
      assert !AllReported(arcs, SearchCycles(edges, order));
    }
  }

  lemma OrderThatMisses(nodes: map<Id, Node>, edges: Adjacency, c: seq<Id>, d: seq<Id>, a: (Id, Id))
    returns (order: seq<Id>)
    requires SourcesDeclared(nodes, edges) && Overlap(ArcsOf(edges), c, d, a)
    ensures Lists(order, nodes.Keys) && !AllReported(ArcsOf(edges), SearchCycles(edges, order))
  {
    var k :| 0 <= k < |c| - 1 && ArcAt(c, k) == a;
    TargetIsNode(nodes, edges, c, k);
    var rest := SomeListing(nodes.Keys - {a.1});
    order := ListedFirst(rest, a.1);
    assert Elems(order) == nodes.Keys;
    OverlapMissesOne(edges, order, c, d, a);
  }

  lemma TargetIsNode(nodes: map<Id, Node>, edges: Adjacency, c: seq<Id>, k: nat)
    requires SourcesDeclared(nodes, edges) && SimpleCycle(ArcsOf(edges), c) && k < |c| - 1
    ensures c[k + 1] in nodes
  {
    if k + 1 < |c| - 1 {
      OnCycleIsArc(ArcsOf(edges), c, k + 1);
    } else {
      OnCycleIsArc(ArcsOf(edges), c, 0);
    }
  }

  /**
   The failing input: nodes a, b and c with edges from b to a and c and from both back. Tried from b,
   the search reports b, a, b and finds a done when it comes to it from c; it misses one of the two.
   */
  lemma MissesACycle(edges: Adjacency, order: seq<Id>)
    requires ArcsOf(edges) == {("b", "a"), ("b", "c"), ("a", "b"), ("c", "a")}
    requires order != [] && order[0] == "b"
    ensures SimpleCycle(ArcsOf(edges), ["b", "a", "b"]) && SimpleCycle(ArcsOf(edges), ["b", "c", "a", "b"])
    ensures !AllReported(ArcsOf(edges), SearchCycles(edges, order))
  {
    var arcs, c, d := ArcsOf(edges), ["b", "a", "b"], ["b", "c", "a", "b"];
    assert StepAt(arcs, c, 0) && StepAt(arcs, c, 1);
    assert StepAt(arcs, d, 0) && StepAt(arcs, d, 1) && StepAt(arcs, d, 2);
    assert c[..2] == ["b", "a"] && d[..3] == ["b", "c", "a"];
    assert ArcAt(c, 1) == ("a", "b") == ArcAt(d, 2);
    assert ArcAt(d, 0) == ("b", "c") && ArcAt(c, 0) == ("b", "a");
    assert ("b", "c") in CycleArcs(d) && ("b", "c") !in CycleArcs(c);
    OverlapMissesOne(edges, order, c, d, ("a", "b"));
  }
}
