/** Nothing but what the search reports can be read off the least trails, and an example. */
module CycleUnique {
  import opened Order
  import opened Digraph
  import opened Edges
  import opened CycleInvariants
  import opened CycleSweep
  import opened CycleTrails
  import opened CycleReading

  lemma {:induction false} LexAntisymmetric(a: seq<nat>, b: seq<nat>)
    requires LexLe(a, b) && LexLe(b, a)
    ensures a == b
    decreases |a|
  {
    if a != [] {
      SplitHead(a);
      SplitHead(b);
      LexAntisymmetric(a[1..], b[1..]);
    }
  }

  lemma CodesAsymmetric(a: (nat, seq<nat>), b: (nat, seq<nat>))
    ensures !(CodeLess(a, b) && CodeLess(b, a))
  {
    if LexLe(a.1, b.1) && LexLe(b.1, a.1) { LexAntisymmetric(a.1, b.1); }
  }

  ghost predicate SameCodes(codes: seq<(nat, seq<nat>)>, others: seq<(nat, seq<nat>)>) {
    forall x :: x in codes <==> x in others
  }

  /** Nothing before the first. */
  lemma SameFirst(codes: seq<(nat, seq<nat>)>, others: seq<(nat, seq<nat>)>)
    requires RootsAscending(codes) && RootsAscending(others) && SameCodes(codes, others)
    requires codes != [] || others != []
    ensures codes != [] && others != [] && others[0] == codes[0]
  {
    if codes != [] { assert codes[0] in others; }
    if others != [] { assert others[0] in codes; }
    var k :| 0 <= k < |others| && others[k] == codes[0];
    var j :| 0 <= j < |codes| && codes[j] == others[0];
    CodesAsymmetric(codes[0], others[0]);
  }

  lemma NotAgain(codes: seq<(nat, seq<nat>)>)
    requires RootsAscending(codes) && codes != []
    ensures codes[0] !in codes[1..] && RootsAscending(codes[1..])
  {
    forall k | 0 <= k < |codes| - 1 ensures codes[1..][k] != codes[0] {
      CodesAsymmetric(codes[0], codes[k + 1]);
    }
  }

  lemma {:induction false} SameSequence(codes: seq<(nat, seq<nat>)>, others: seq<(nat, seq<nat>)>)
    requires RootsAscending(codes) && RootsAscending(others) && SameCodes(codes, others)
    ensures codes == others
    decreases |codes|
  {
    if codes != [] || others != [] {
      SameFirst(codes, others);
      NotAgain(codes);
      NotAgain(others);
      assert forall x :: x in codes <==> x == codes[0] || x in codes[1..];
      assert forall x :: x in others <==> x == others[0] || x in others[1..];
      SameSequence(codes[1..], others[1..]);
      assert codes == [codes[0]] + codes[1..] && others == [others[0]] + others[1..];
    }
  }

  /** A code has one cycle. */
  lemma OneCyclePerCode(edges: Adjacency, order: seq<Id>, code: (nat, seq<nat>), c: seq<Id>, d: seq<Id>)
    requires RootCode(edges, order, code.0, code.1)
    requires RootCycle(edges, order, code, c) && RootCycle(edges, order, code, d)
    ensures c == d
  {
    var root, q := order[code.0], code.1[..|code.1| - 1];
    var V := ReachedBefore(edges, order, code.0);
    var full := [root] + Stops(edges, root, q);
    if q != [] { OutsideCons(V, root, Stops(edges, root, q)); }
    assert Distinct(full);
  }

  /** What is read off the least trails is one sequence of cycles, so it is what the search reports. */
  lemma ReadingIsSearch(edges: Adjacency, order: seq<Id>, cycles: seq<seq<Id>>)
    ensures LeastTrailCycles(edges, order, cycles) <==> cycles == SearchCycles(edges, order)
  {
    var found := SearchCycles(edges, order);
    SearchReadsLeastTrails(edges, order);
    if LeastTrailCycles(edges, order, cycles) {
      var codes: seq<(nat, seq<nat>)> :| ReadsAs(edges, order, codes, cycles);
      var others: seq<(nat, seq<nat>)> :| ReadsAs(edges, order, others, found);
      assert forall n: nat, c :: (n, c) in codes <==> (n, c) in others;
      assert forall x: (nat, seq<nat>) :: x == (x.0, x.1);
      SameSequence(codes, others);
      forall k | 0 <= k < |codes| ensures cycles[k] == found[k] {
        assert (codes[k].0, codes[k].1) in codes;
        OneCyclePerCode(edges, order, codes[k], cycles[k], found[k]);
      }
    }
  }

  // --- an example -------------------------------------------------------------------------

  /** Edges from a to b and to c, in this order, and on from b to c and from c back to a. */
  ghost predicate Detour(edges: Adjacency) {
    && |Bucket(edges, "a")| == 2 && TargetAt(edges, "a", 0) == "b" && TargetAt(edges, "a", 1) == "c"
    && |Bucket(edges, "b")| == 1 && TargetAt(edges, "b", 0) == "c"
    && |Bucket(edges, "c")| == 1 && TargetAt(edges, "c", 0) == "a"
  }

  lemma TrailsOfDetour(edges: Adjacency)
    requires Detour(edges)
    ensures OpenTrail(edges, {"a"}, "a", 0, [0]) && EndOf(edges, "a", [0]) == "b"
    ensures OpenTrail(edges, {"a"}, "a", 0, [0, 0]) && EndOf(edges, "a", [0, 0]) == "c"
    ensures OpenTrail(edges, {"a"}, "a", 0, [1]) && EndOf(edges, "a", [1]) == "c"
    ensures Stops(edges, "a", [0]) == ["b"] && Stops(edges, "a", [0, 0]) == ["b", "c"]
  {
    assert [0][1..] == [] && [1][1..] == [] && [0, 0][1..] == [0];
    assert Stops(edges, "b", [0]) == ["c"];
  }

  lemma OnlyTheseTrails(edges: Adjacency, q: seq<nat>)
    requires Detour(edges) && OpenTrail(edges, {"a"}, "a", 0, q)
    ensures q == [0] || q == [0, 0] || q == [1]
  {
    SplitHead(q);
    var rest := q[1..];
    OpenCons(edges, {"a"}, "a", q[0], rest);
    if q[0] == 0 && rest != [] {
      SplitHead(rest);
      OpenCons(edges, {"a", "b"}, "b", 0, rest[1..]);
      assert {"a"} + {"b"} == {"a", "b"};
      if rest[1..] != [] { NotOnFromC(edges, {"a", "b"} + {"c"}, rest[1..]); }
    } else if rest != [] {
      NotOnFromC(edges, {"a"} + {"c"}, rest);
    }
  }

  lemma NotOnFromC(edges: Adjacency, V: set<Id>, q: seq<nat>)
    requires Detour(edges) && "a" in V && q != []
    ensures !OpenTrail(edges, V, "c", 0, q)
  {
    SplitHead(q);
    if q[0] == 0 { OpenCons(edges, V, "c", 0, q[1..]); }
  }

  lemma LeastOfDetour(edges: Adjacency, q: seq<nat>)
    requires Detour(edges)
    ensures LeastTrail(edges, {"a"}, "a", 0, q) <==> q == [0] || q == [0, 0]
  {
    TrailsOfDetour(edges);
    assert [0][1..] == [] && [0, 0][1..] == [0];
    if LeastTrail(edges, {"a"}, "a", 0, q) {
      OnlyTheseTrails(edges, q);
    }
    if q == [0] || q == [0, 0] {
      forall q' | OpenTrail(edges, {"a"}, "a", 0, q') && EndOf(edges, "a", q') == EndOf(edges, "a", q)
        ensures LexLe(q, q')
      {
        OnlyTheseTrails(edges, q');
      }
    }
  }

  /** Only the edge from c leads back. */
  lemma LastOfDetour(edges: Adjacency, q: seq<nat>, k: nat)
    requires Detour(edges) && (q == [] || q == [0] || q == [0, 0]) && LeadsBack(edges, ["a"], "a", q + [k])
    ensures q == [0, 0] && k == 0
  {
    TrailsOfDetour(edges);
    assert (q + [k])[..|q|] == q;
    assert ["a"] + [] == ["a"];
  }

  lemma BackFromC(edges: Adjacency)
    requires Detour(edges)
    ensures Closes(edges, {"a"}, ["a"], "a", 0, [0, 0, 0])
  {
    TrailsOfDetour(edges);
    LeastOfDetour(edges, [0, 0]);
    assert [0, 0, 0][..2] == [0, 0];
  }

  lemma OneCodeOfDetour(edges: Adjacency, c: seq<nat>)
    requires Detour(edges)
    ensures Closes(edges, {"a"}, ["a"], "a", 0, c) <==> c == [0, 0, 0]
  {
    BackFromC(edges);
    if Closes(edges, {"a"}, ["a"], "a", 0, c) {
      var q := c[..|c| - 1];
      if q != [] { LeastOfDetour(edges, q); }
      assert c == q + [c[|c| - 1]];
      LastOfDetour(edges, q, c[|c| - 1]);
    }
  }

  lemma NothingBefore(edges: Adjacency, order: seq<Id>, c: seq<nat>)
    requires order != []
    ensures RootCode(edges, order, 0, c) <==> Closes(edges, {order[0]}, [order[0]], order[0], 0, c)
  {
    ReachableSetClosed(ArcsOf(edges), {});
    assert Elems(order[..0]) == {};
    assert ReachedBefore(edges, order, 0) + {order[0]} == {order[0]};
  }

  /** The way back by the second edge of a is not reported: c was visited by way of b. */
  lemma FirstEdgeFirst(edges: Adjacency)
    requires Detour(edges)
    ensures SearchCycles(edges, ["a"]) == [["a", "b", "c", "a"]]
  {
    var order, codes, cycles := ["a"], [(0, [0, 0, 0])], [["a", "b", "c", "a"]];
    forall n: nat, c ensures (n, c) in codes <==> RootCode(edges, order, n, c) {
      OneRootCode(edges, n, c);
    }
    CycleOfDetour(edges);
    assert RootCycle(edges, order, codes[0], cycles[0]) && ReadsAs(edges, order, codes, cycles);
    ReadingIsSearch(edges, order, cycles);
  }

  lemma OneRootCode(edges: Adjacency, n: nat, c: seq<nat>)
    requires Detour(edges)
    ensures RootCode(edges, ["a"], n, c) <==> n == 0 && c == [0, 0, 0]
  {
    OneCodeOfDetour(edges, c);
    NothingBefore(edges, ["a"], c);
  }

  lemma CycleOfDetour(edges: Adjacency)
    requires Detour(edges)
    ensures CycleOf(edges, ["a"], "a", [0, 0, 0], ["a", "b", "c", "a"])
  {
    TrailsOfDetour(edges);
    assert [0, 0, 0][..2] == [0, 0];
    var full := ["a"] + Stops(edges, "a", [0, 0]);
    assert full == ["a", "b", "c"] && full[0] == "a" && full[0..] + ["a"] == ["a", "b", "c", "a"];
  }
}
