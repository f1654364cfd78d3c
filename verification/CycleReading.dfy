/** The cycles that the search reports, and in which order, from the graph and the order of the nodes alone. */
module CycleReading {
  import opened Order
  import opened Digraph
  import opened Edges
  import opened CycleInvariants
  import opened CycleTally
  import opened CycleSweep
  import opened CycleTrails
  import opened CycleSpelling

  /** What the nodes before the `n`th reach. */
  ghost function ReachedBefore(edges: Adjacency, order: seq<Id>, n: nat): set<Id>
    requires n <= |order|
  {
    ReachableSet(ArcsOf(edges), Elems(order[..n]))
  }

  /**
   Node `n` is not reached from earlier ones; the code is the least trail from it to some vertex, on
   which no vertex repeats and none is reached from earlier nodes, and an edge from there back to it.
   */
  ghost predicate RootCode(edges: Adjacency, order: seq<Id>, n: nat, c: seq<nat>) {
    && n < |order| && order[n] !in ReachedBefore(edges, order, n)
    && Closes(edges, ReachedBefore(edges, order, n) + {order[n]}, [order[n]], order[n], 0, c)
  }

  ghost predicate RootCycle(edges: Adjacency, order: seq<Id>, code: (nat, seq<nat>), cycle: seq<Id>) {
    code.0 < |order| && CycleOf(edges, [order[code.0]], order[code.0], code.1, cycle)
  }

  ghost predicate CodeLess(a: (nat, seq<nat>), b: (nat, seq<nat>)) {
    a.0 < b.0 || (a.0 == b.0 && LexLess(a.1, b.1))
  }

  ghost predicate RootsAscending(codes: seq<(nat, seq<nat>)>) {
    forall a, b | 0 <= a < b < |codes| :: CodeLess(codes[a], codes[b])
  }

  /** One cycle for each such code, in the order of the nodes and then of the places of the edges. */
  ghost predicate ReadsAs(
    edges: Adjacency, order: seq<Id>, codes: seq<(nat, seq<nat>)>, cycles: seq<seq<Id>>)
  {
    && RootsAscending(codes) && (forall n: nat, c :: (n, c) in codes <==> RootCode(edges, order, n, c))
    && |codes| == |cycles| && forall k | 0 <= k < |codes| :: RootCycle(edges, order, codes[k], cycles[k])
  }

  /** Exactly the cycles closed from least trails, in order. */
  ghost predicate LeastTrailCycles(edges: Adjacency, order: seq<Id>, cycles: seq<seq<Id>>) {
    exists codes :: ReadsAs(edges, order, codes, cycles)
  }

  // --- one root ---------------------------------------------------------------------------

  /** What is done has only done or visited successors. */
  lemma DoneLeadsToVisited(edges: Adjacency, s: Sweep, u: Id, k: nat)
    requires Good(edges, s) && u in s.finished && k < |Bucket(edges, u)|
    ensures TargetAt(edges, u, k) in s.visited
  {
    var v := TargetAt(edges, u, k);
    TargetIsArc(edges, u, k);
    if Closing(s.cycles, u, v) {
      var i :| 0 <= i < |s.cycles| && ClosedBy(s.cycles[i], u, v);
      assert v in Elems(s.cycles[i]);
    } else {
      var i :| 0 <= i < |s.finished| && s.finished[i] == u;
      assert v in s.finished[..i];
    }
  }

  lemma NewAreDone(edges: Adjacency, s: Sweep, s': Sweep)
    requires Good(edges, s) && Kept(edges, {}, s, s')
    ensures forall u, k: nat | u in s'.visited.Keys - s.visited.Keys && k < |Bucket(edges, u)| ::
              TargetAt(edges, u, k) in s'.visited.Keys
  {
    forall u, k: nat | u in s'.visited.Keys - s.visited.Keys && k < |Bucket(edges, u)|
      ensures TargetAt(edges, u, k) in s'.visited.Keys
    {
      assert u in s'.visited && u !in s.stack;
      DoneLeadsToVisited(edges, s', u, k);
    }
  }

  /** The last step leaves what is visited and reported as it is. */
  lemma LeaveSpells(edges: Adjacency, s: Sweep, s2: Sweep, id: Id, codes: seq<seq<nat>>)
    requires Kept(edges, {id}, Enter(s, id), s2) && id in s2.visited
    requires Explored(edges, s.visited.Keys + {id}, id, 0, s2.visited.Keys)
    requires Spells(edges, s.visited.Keys + {id}, s.stack + [id], id, 0, codes, s2.cycles[|s.cycles|..])
    ensures VisitSpelt(edges, s, Leave(s2, id), id, codes)
  {
    assert Leave(s2, id).visited.Keys == s2.visited.Keys;
  }

  ghost predicate VisitSpelt(edges: Adjacency, s: Sweep, s': Sweep, id: Id, codes: seq<seq<nat>>) {
    && s.cycles <= s'.cycles && Explored(edges, s.visited.Keys + {id}, id, 0, s'.visited.Keys)
    && Spells(edges, s.visited.Keys + {id}, s.stack + [id], id, 0, codes, s'.cycles[|s.cycles|..])
  }

  ghost predicate FollowSpelt(edges: Adjacency, s: Sweep, s': Sweep, id: Id, i: nat, codes: seq<seq<nat>>) {
    && s.cycles <= s'.cycles && Explored(edges, s.visited.Keys, id, i, s'.visited.Keys)
    && Spells(edges, s.visited.Keys, s.stack, id, i, codes, s'.cycles[|s.cycles|..])
  }

  lemma FollowedSpelt(edges: Adjacency, s: Sweep, s2: Sweep, id: Id, codes: seq<seq<nat>>)
    requires FollowSpelt(edges, Enter(s, id), s2, id, 0, codes) && Kept(edges, {id}, Enter(s, id), s2)
    requires id in s2.visited
    ensures VisitSpelt(edges, s, Leave(s2, id), id, codes)
  {
    assert Enter(s, id).visited.Keys == s.visited.Keys + {id};
    LeaveSpells(edges, s, s2, id, codes);
  }

  lemma {:induction false} VisitSpells(edges: Adjacency, U: set<Id>, s: Sweep, id: Id) returns (codes: seq<seq<nat>>)
    requires SuccClosed(ArcsOf(edges), U) && id in U && id !in s.visited && s.visited.Keys <= U
    requires Good(edges, s) && (s.stack != [] ==> (s.stack[|s.stack| - 1], id) in ArcsOf(edges))
    ensures VisitSpelt(edges, s, Visit(edges, U, s, id), id, codes)
    decreases U - s.visited.Keys, 0, 0
  {
    var s1 := Enter(s, id);
    assert id in U - s.visited.Keys && id !in U - s1.visited.Keys;
    EnterGood(edges, s, id);
    codes := FollowSpells(edges, U, s1, id, 0);
    FollowKeeps(edges, U, s1, id, 0, id);
    FollowedSpelt(edges, s, Follow(edges, U, s1, id, 0), id, codes);
  }

  lemma {:induction false} FollowSpells(edges: Adjacency, U: set<Id>, s: Sweep, id: Id, i: nat)
    returns (codes: seq<seq<nat>>)
    requires SuccClosed(ArcsOf(edges), U) && id in U && s.visited.Keys <= U && i <= |Bucket(edges, id)|
    requires Good(edges, s) && AtTop(s, id) && SettledUpTo(edges, s, id, i)
    requires PartTally(edges, s.stack, s.cycles, id, i)
    ensures FollowSpelt(edges, s, Follow(edges, U, s, id, i), id, i, codes)
    decreases U - s.visited.Keys, 2, |Bucket(edges, id)| - i
  {
    if i == |Bucket(edges, id)| {
      codes := [];
      NothingLeft(edges, s.visited.Keys, s.stack, id);
    } else {
      var s1 := FollowOne(edges, U, s, id, i);
      var first := FollowOneSpells(edges, U, s, id, i);
      FollowOneKeeps(edges, U, s, id, i, id);
      assert U - s1.visited.Keys <= U - s.visited.Keys;
      var rest := FollowSpells(edges, U, s1, id, i + 1);
      var s' := Follow(edges, U, s1, id, i + 1);
      codes := first + rest;
      Joined(edges, s, s1, s', id, i, first, rest);
    }
  }

  lemma Joined(
    edges: Adjacency, s: Sweep, s1: Sweep, s': Sweep, id: Id, i: nat, first: seq<seq<nat>>, rest: seq<seq<nat>>)
    requires s.cycles <= s1.cycles && s1.stack == s.stack
    requires SweptBy(edges, s.visited.Keys, id, i, s1.visited.Keys)
    requires SpellsFirst(edges, s.visited.Keys, s.stack, id, i, first, s1.cycles[|s.cycles|..])
    requires FollowSpelt(edges, s1, s', id, i + 1, rest)
    ensures FollowSpelt(edges, s, s', id, i, first + rest)
  {
    var V, V1, n := s.visited.Keys, s1.visited.Keys, |s.cycles|;
    SpellsOn(edges, V, V1, s.stack, id, i, first, s1.cycles[n..], rest, s'.cycles[|s1.cycles|..]);
    assert s1.cycles[n..] + s'.cycles[|s1.cycles|..] == s'.cycles[n..];
    ExploredOn(edges, V, V1, s'.visited.Keys, id, i);
  }

  lemma {:induction false} FollowOneSpells(edges: Adjacency, U: set<Id>, s: Sweep, id: Id, i: nat)
    returns (codes: seq<seq<nat>>)
    requires SuccClosed(ArcsOf(edges), U) && id in U && s.visited.Keys <= U && i < |Bucket(edges, id)|
    requires Good(edges, s) && AtTop(s, id)
    ensures var s' := FollowOne(edges, U, s, id, i);
            && s.cycles <= s'.cycles && SweptBy(edges, s.visited.Keys, id, i, s'.visited.Keys)
            && SpellsFirst(edges, s.visited.Keys, s.stack, id, i, codes, s'.cycles[|s.cycles|..])
    decreases U - s.visited.Keys, 1, 0
  {
    var target := TargetAt(edges, id, i);
    TargetIsArc(edges, id, i);
    if target !in s.visited {
      var child := VisitSpells(edges, U, s, target);
      VisitKeeps(edges, U, s, target, id);
      var s' := Visit(edges, U, s, target);
      NewAreDone(edges, s, s');
      assert Elems(s.stack) <= s.visited.Keys;
      NewVertexSpells(edges, s.visited.Keys, s.stack, id, i, child, s'.cycles[|s.cycles|..]);
      NewVertexSweeps(edges, s.visited.Keys, s'.visited.Keys, id, i);
      codes := Prepend(i, child);
    } else {
      codes := if target in s.stack then [[i]] else [];
      OldVertexSweeps(edges, s.visited.Keys, id, i);
      BackReported(edges, s, id, i);
    }
  }

  lemma BackCycle(edges: Adjacency, stack: seq<Id>, id: Id, i: nat, k: nat)
    requires i < |Bucket(edges, id)| && k < |stack| && stack[k] == TargetAt(edges, id, i)
    ensures CycleOf(edges, stack, id, [i], stack[k..] + [stack[k]])
  {
    var c := [i];
    assert c[..|c| - 1] == [] && ClosingPlace(edges, id, c);
    var full := stack + Stops(edges, id, c[..|c| - 1]);
    assert full == stack;
    assert full[k] == stack[k] && stack[k..] + [stack[k]] == full[k..] + [stack[k]];
  }

  lemma BackReported(edges: Adjacency, s: Sweep, id: Id, i: nat)
    requires Good(edges, s) && AtTop(s, id) && i < |Bucket(edges, id)| && TargetAt(edges, id, i) in s.visited
    ensures var target := TargetAt(edges, id, i);
            var s' := if s.visited[target] == IN_PROGRESS then Report(s, target) else s;
            && s.cycles <= s'.cycles
            && SpellsFirst(edges, s.visited.Keys, s.stack, id, i, if target in s.stack then [[i]] else [],
                           s'.cycles[|s.cycles|..])
  {
    var target := TargetAt(edges, id, i);
    TargetIsArc(edges, id, i);
    if s.visited[target] == IN_PROGRESS {
      ReportGood(edges, s, id, target);
      var cycle := CycleTo(s, target);
      BackCycle(edges, s.stack, id, i, s.path[target]);
      assert (s.cycles + [cycle])[|s.cycles|..] == [cycle];
      OldVertexSpells(edges, s.visited.Keys, s.stack, id, i, [cycle]);
    } else {
      assert target !in s.stack;
      assert s.cycles[|s.cycles|..] == [];
      OldVertexSpells(edges, s.visited.Keys, s.stack, id, i, []);
    }
  }

  // --- all roots --------------------------------------------------------------------------

  lemma {:induction false} TrailReaches(edges: Adjacency, r: Id, q: seq<nat>)
    requires Trail(edges, r, q)
    ensures Reaches(ArcsOf(edges), r, EndOf(edges, r, q))
    ensures q != [] ==> exists u :: (u, EndOf(edges, r, q)) in ArcsOf(edges)
    decreases |q|
  {
    var arcs := ArcsOf(edges);
    if q == [] {
      ReachesSelf(arcs, r);
    } else {
      var y := TargetAt(edges, r, q[0]);
      FirstStop(edges, r, q);
      TargetIsArc(edges, r, q[0]);
      TrailReaches(edges, y, q[1..]);
      ReachesArc(arcs, r, y);
      ReachesTransitive(arcs, r, y, EndOf(edges, r, q));
      assert q[1..] == [] ==> EndOf(edges, r, q) == y;
    }
  }

  /** With nothing in progress, the visited vertices are closed under successors. */
  lemma VisitedClosed(edges: Adjacency, s: Sweep)
    requires Good(edges, s) && s.stack == []
    ensures SuccClosed(ArcsOf(edges), s.visited.Keys)
  {
    forall a | a in ArcsOf(edges) && a.0 in s.visited.Keys ensures a.1 in s.visited.Keys {
      ArcsOfBucket(edges, a.0, a.1);
      var e :| e in Bucket(edges, a.0) && e.target == a.1;
      var k :| 0 <= k < |Bucket(edges, a.0)| && Bucket(edges, a.0)[k] == e;
      DoneLeadsToVisited(edges, s, a.0, k);
    }
  }

  /** A closed set with the roots in it has all that they reach. */
  lemma ReachableInside(arcs: Arcs, roots: set<Id>, S: set<Id>)
    requires roots <= S && SuccClosed(arcs, S)
    ensures ReachableSet(arcs, roots) <= S
  {
    ReachableSetClosed(arcs, roots);
    forall v | v in ReachableSet(arcs, roots) ensures v in S {
      var r :| r in roots && Reaches(arcs, r, v);
      var p :| Walk(arcs, p) && p[0] == r && p[|p| - 1] == v;
      DescendantsInside(arcs, S, p);
    }
  }

  lemma ReachableGrows(arcs: Arcs, roots: set<Id>, more: set<Id>)
    requires roots <= more
    ensures ReachableSet(arcs, roots) <= ReachableSet(arcs, more)
  {
    ReachableSetClosed(arcs, more);
    ReachableInside(arcs, roots, ReachableSet(arcs, more));
  }

  /** What a root's search visits is reached from it. */
  lemma ExploredIsReached(edges: Adjacency, V: set<Id>, r: Id, V': set<Id>, roots: set<Id>)
    requires Explored(edges, V + {r}, r, 0, V') && V <= ReachableSet(ArcsOf(edges), roots) && r in roots
    ensures V' <= ReachableSet(ArcsOf(edges), roots)
  {
    forall x | x in V' ensures x in ReachableSet(ArcsOf(edges), roots) {
      if x !in V && x != r {
        var q :| OpenTrail(edges, V + {r}, r, 0, q) && EndOf(edges, r, q) == x;
        TrailReaches(edges, r, q);
        var u :| (u, x) in ArcsOf(edges);
        assert ReachedFrom(ArcsOf(edges), roots, (u, x).1);
      }
    }
  }

  lemma OneMoreTried(edges: Adjacency, U: set<Id>, before: seq<Id>, s: Sweep, id: Id)
    requires SuccClosed(ArcsOf(edges), U) && id in U && s.visited.Keys <= U && Tried(edges, before, s)
    requires s.visited.Keys == ReachableSet(ArcsOf(edges), Elems(before))
    ensures var s' := if id in s.visited then s else Visit(edges, U, s, id);
            s'.visited.Keys <= ReachableSet(ArcsOf(edges), Elems(before + [id]))
  {
    var roots := Elems(before + [id]);
    assert roots == Elems(before) + {id};
    ReachableGrows(ArcsOf(edges), Elems(before), roots);
    if id !in s.visited {
      var codes := VisitSpells(edges, U, s, id);
      ExploredIsReached(edges, s.visited.Keys, id, Visit(edges, U, s, id).visited.Keys, roots);
    }
  }

  /** With the roots tried, exactly what they reach is visited. */
  lemma {:induction false} TriedIsReached(edges: Adjacency, U: set<Id>, order: seq<Id>)
    requires SuccClosed(ArcsOf(edges), U) && Elems(order) <= U
    ensures TryAll(edges, U, order).visited.Keys == ReachableSet(ArcsOf(edges), Elems(order))
  {
    var s := TryAll(edges, U, order);
    TryAllKeeps(edges, U, order);
    VisitedClosed(edges, s);
    ReachableInside(ArcsOf(edges), Elems(order), s.visited.Keys);
    if order != [] {
      var id, before := order[|order| - 1], order[..|order| - 1];
      assert order == before + [id];
      assert id in Elems(order) && Elems(before) <= Elems(order);
      TriedIsReached(edges, U, before);
      TryAllKeeps(edges, U, before);
      OneMoreTried(edges, U, before, TryAll(edges, U, before), id);
    }
  }

  ghost function WithRoot(n: nat, codes: seq<seq<nat>>): (r: seq<(nat, seq<nat>)>)
    ensures |r| == |codes|
  {
    seq(|codes|, k requires 0 <= k < |codes| => (n, codes[k]))
  }

  /** The codes of earlier nodes do not depend on later ones. */
  lemma EarlierRoot(edges: Adjacency, before: seq<Id>, id: Id, n: nat, c: seq<nat>)
    requires n < |before|
    ensures RootCode(edges, before + [id], n, c) <==> RootCode(edges, before, n, c)
  {
    assert (before + [id])[..n] == before[..n];
  }

  /** The codes of the node after `before`, and their cycles. */
  ghost predicate LastRoot(edges: Adjacency, before: seq<Id>, id: Id, more: seq<seq<nat>>, new': seq<seq<Id>>) {
    && (forall c :: c in more <==> RootCode(edges, before + [id], |before|, c)) && Ascending(more)
    && |more| == |new'| && forall k | 0 <= k < |more| :: CycleOf(edges, [id], id, more[k], new'[k])
  }

  /** One more root. */
  lemma OneMoreRoot(
    edges: Adjacency, before: seq<Id>, id: Id, codes: seq<(nat, seq<nat>)>, cycles: seq<seq<Id>>,
    more: seq<seq<nat>>, new': seq<seq<Id>>)
    requires ReadsAs(edges, before, codes, cycles) && LastRoot(edges, before, id, more, new')
    ensures ReadsAs(edges, before + [id], codes + WithRoot(|before|, more), cycles + new')
  {
    var order, n, last := before + [id], |before|, WithRoot(|before|, more);
    forall m: nat, c ensures (m, c) in codes + last <==> RootCode(edges, order, m, c) {
      CodesOfOneMore(edges, before, id, codes, more, m, c);
    }
    forall m: nat, c | (m, c) in codes ensures m < n {
      assert RootCode(edges, before, m, c);
    }
    OneMoreAscends(codes, n, more);
    forall k | 0 <= k < |codes + last| ensures RootCycle(edges, order, (codes + last)[k], (cycles + new')[k]) {
      CyclesOfOneMore(edges, before, id, codes, cycles, more, new', k);
    }
  }

  lemma CyclesOfOneMore(
    edges: Adjacency, before: seq<Id>, id: Id, codes: seq<(nat, seq<nat>)>, cycles: seq<seq<Id>>,
    more: seq<seq<nat>>, new': seq<seq<Id>>, k: nat)
    requires |codes| == |cycles| && |more| == |new'| && k < |codes| + |more|
    requires k < |codes| ==> RootCycle(edges, before, codes[k], cycles[k])
    requires k >= |codes| ==> CycleOf(edges, [id], id, more[k - |codes|], new'[k - |codes|])
    ensures RootCycle(edges, before + [id], (codes + WithRoot(|before|, more))[k], (cycles + new')[k])
  {
    if k < |codes| { assert (before + [id])[codes[k].0] == before[codes[k].0]; }
  }

  lemma CodesOfOneMore(
    edges: Adjacency, before: seq<Id>, id: Id, codes: seq<(nat, seq<nat>)>, more: seq<seq<nat>>, m: nat, c: seq<nat>)
    requires (m, c) in codes <==> RootCode(edges, before, m, c)
    requires c in more <==> RootCode(edges, before + [id], |before|, c)
    ensures (m, c) in codes + WithRoot(|before|, more) <==> RootCode(edges, before + [id], m, c)
  {
    InWithRoot(|before|, more, m, c);
    if m < |before| { EarlierRoot(edges, before, id, m, c); }
  }

  lemma OneMoreAscends(codes: seq<(nat, seq<nat>)>, n: nat, more: seq<seq<nat>>)
    requires RootsAscending(codes) && (forall m: nat, c | (m, c) in codes :: m < n) && Ascending(more)
    ensures RootsAscending(codes + WithRoot(n, more))
  {
    var all := codes + WithRoot(n, more);
    forall a, b | 0 <= a < b < |all| ensures CodeLess(all[a], all[b]) {
      if a < |codes| <= b {
        assert (codes[a].0, codes[a].1) in codes;
      }
    }
  }

  lemma InWithRoot(n: nat, more: seq<seq<nat>>, m: nat, c: seq<nat>)
    ensures (m, c) in WithRoot(n, more) <==> m == n && c in more
  {
    if m == n && c in more {
      var k :| 0 <= k < |more| && more[k] == c;
      assert WithRoot(n, more)[k] == (m, c);
    }
  }

  /** What the search of the last root finds. */
  lemma LastRootSpelt(edges: Adjacency, before: seq<Id>, s: Sweep, s': Sweep, id: Id, more: seq<seq<nat>>)
    requires s.visited.Keys == ReachableSet(ArcsOf(edges), Elems(before)) && s.stack == [] && id !in s.visited
    requires VisitSpelt(edges, s, s', id, more)
    ensures LastRoot(edges, before, id, more, s'.cycles[|s.cycles|..])
  {
    var order := before + [id];
    assert order[..|before|] == before && s.stack + [id] == [id];
    forall c ensures c in more <==> RootCode(edges, order, |before|, c) {
      assert c in more <==> Closes(edges, s.visited.Keys + {id}, [id], id, 0, c);
    }
  }

  lemma SkippedRoot(edges: Adjacency, before: seq<Id>, s: Sweep, id: Id)
    requires s.visited.Keys == ReachableSet(ArcsOf(edges), Elems(before)) && id in s.visited
    ensures LastRoot(edges, before, id, [], [])
  {
    assert (before + [id])[..|before|] == before;
  }

  lemma {:induction false} TryAllReads(edges: Adjacency, U: set<Id>, order: seq<Id>)
    returns (codes: seq<(nat, seq<nat>)>)
    requires SuccClosed(ArcsOf(edges), U) && Elems(order) <= U
    ensures ReadsAs(edges, order, codes, TryAll(edges, U, order).cycles)
  {
    if order == [] {
      codes := [];
    } else {
      var id, before := order[|order| - 1], order[..|order| - 1];
      assert order == before + [id];
      assert id in Elems(order) && Elems(before) <= Elems(order);
      var earlier := TryAllReads(edges, U, before);
      TriedIsReached(edges, U, before);
      TryAllKeeps(edges, U, before);
      codes := RootReads(edges, U, before, TryAll(edges, U, before), id, earlier);
    }
  }

  lemma RootReads(
    edges: Adjacency, U: set<Id>, before: seq<Id>, s: Sweep, id: Id, earlier: seq<(nat, seq<nat>)>)
    returns (codes: seq<(nat, seq<nat>)>)
    requires SuccClosed(ArcsOf(edges), U) && id in U && s.visited.Keys <= U && Tried(edges, before, s)
    requires s.visited.Keys == ReachableSet(ArcsOf(edges), Elems(before))
    requires ReadsAs(edges, before, earlier, s.cycles)
    ensures ReadsAs(edges, before + [id], codes, (if id in s.visited then s else Visit(edges, U, s, id)).cycles)
  {
    var more, new' := [], [];
    if id in s.visited {
      SkippedRoot(edges, before, s, id);
      assert s.cycles + new' == s.cycles;
    } else {
      more := VisitSpells(edges, U, s, id);
      var s' := Visit(edges, U, s, id);
      LastRootSpelt(edges, before, s, s', id, more);
      new' := s'.cycles[|s.cycles|..];
      assert s.cycles + new' == s'.cycles;
    }
    OneMoreRoot(edges, before, id, earlier, s.cycles, more, new');
    codes := earlier + WithRoot(|before|, more);
  }

  /**
   The search reports exactly the cycles closed from least trails. So a cycle closed by an arc from `u`
   to `v` is the part from `v` on of the least simple trail from the root to `u`, and `v`.
   */
  lemma SearchReadsLeastTrails(edges: Adjacency, order: seq<Id>)
    ensures LeastTrailCycles(edges, order, SearchCycles(edges, order))
  {
    ReachableSetClosed(ArcsOf(edges), Elems(order));
    var codes := TryAllReads(edges, ReachableSet(ArcsOf(edges), Elems(order)), order);
  }
}
