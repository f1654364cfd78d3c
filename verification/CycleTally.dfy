/** How often the cycle search reports: once for each edge that leads back to the stack. */
module CycleTally {
  import opened Order
  import opened Digraph
  import opened Edges
  import opened CycleInvariants

  /** The number of reported cycles that an edge from `u` to `v` closes. */
  ghost function Reports(cycles: seq<seq<Id>>, u: Id, v: Id): nat {
    if cycles == [] then 0
    else Reports(cycles[..|cycles| - 1], u, v) + if ClosedBy(cycles[|cycles| - 1], u, v) then 1 else 0
  }

  /** Of the parallel edges from `u` to `v` either none has closed a cycle or each has closed one. */
  ghost predicate AllOrNone(edges: Adjacency, cycles: seq<seq<Id>>, u: Id, v: Id) {
    Reports(cycles, u, v) == 0 || Reports(cycles, u, v) == CountTo(Bucket(edges, u), v)
  }

  ghost predicate OncePerEdge(edges: Adjacency, cycles: seq<seq<Id>>) {
    forall u, v :: AllOrNone(edges, cycles, u, v)
  }

  ghost predicate SameReports(cycles0: seq<seq<Id>>, cycles: seq<seq<Id>>, u: Id) {
    forall v :: Reports(cycles, u, v) == Reports(cycles0, u, v)
  }

  /**
   Since the state with `seen0` and `cycles0`, what was visited then has closed nothing more, and
   what was visited since is complete. `but` is exempt.
   */
  ghost predicate TalliedBut(
    edges: Adjacency, but: set<Id>, seen0: set<Id>, cycles0: seq<seq<Id>>, seen: set<Id>, cycles: seq<seq<Id>>)
  {
    && seen0 <= seen
    && (forall u | u in seen0 && u !in but :: SameReports(cycles0, cycles, u))
    && (forall u, v | u in seen && u !in seen0 && u !in but :: AllOrNone(edges, cycles, u, v))
  }

  /** The search is at edge `i` of `id`: so far the edges back to the stack have been reported. */
  ghost predicate PartTally(edges: Adjacency, stack: seq<Id>, cycles: seq<seq<Id>>, id: Id, i: nat)
    requires i <= |Bucket(edges, id)|
  {
    forall v :: Reports(cycles, id, v) == if v in stack then CountTo(Bucket(edges, id)[..i], v) else 0
  }

  lemma {:induction false} UnvisitedUnreported(arcs: Arcs, cycles: seq<seq<Id>>, visited: map<Id, int>, u: Id, v: Id)
    requires CyclesGenuine(arcs, cycles, visited) && u !in visited
    ensures Reports(cycles, u, v) == 0
  {
    if cycles != [] {
      var n := |cycles| - 1;
      UnvisitedUnreported(arcs, cycles[..n], visited, u, v);
      assert |cycles[n]| >= 2 ==> cycles[n][|cycles[n]| - 2] in Elems(cycles[n]);
    }
  }

  lemma TallyStart(edges: Adjacency, stack: seq<Id>, cycles: seq<seq<Id>>, visited: map<Id, int>, id: Id)
    requires CyclesGenuine(ArcsOf(edges), cycles, visited) && id !in visited
    ensures PartTally(edges, stack, cycles, id, 0)
  {
    forall v ensures Reports(cycles, id, v) == 0 {
      UnvisitedUnreported(ArcsOf(edges), cycles, visited, id, v);
    }
    assert Bucket(edges, id)[..0] == [];
  }

  lemma TallyNothing(edges: Adjacency, but: set<Id>, seen: set<Id>, cycles: seq<seq<Id>>)
    ensures TalliedBut(edges, but, seen, cycles, seen, cycles)
  {
  }

  /** Two stretches of the search, the second one in full. */
  lemma TallyThen(
    edges: Adjacency, but: set<Id>, seen0: set<Id>, cycles0: seq<seq<Id>>,
    seen1: set<Id>, cycles1: seq<seq<Id>>, seen: set<Id>, cycles: seq<seq<Id>>)
    requires TalliedBut(edges, but, seen0, cycles0, seen1, cycles1)
    requires TalliedBut(edges, but, seen1, cycles1, seen, cycles)
    ensures TalliedBut(edges, but, seen0, cycles0, seen, cycles)
  {
    forall u, v | u in seen && u !in seen0 && u !in but ensures AllOrNone(edges, cycles, u, v) {
      if u in seen1 {
        assert SameReports(cycles1, cycles, u);
        assert AllOrNone(edges, cycles1, u, v);
      }
    }
    forall u | u in seen0 && u !in but ensures SameReports(cycles0, cycles, u) {
      assert SameReports(cycles0, cycles1, u) && SameReports(cycles1, cycles, u);
    }
  }

  /** A cycle closed by an edge of `id` was reported. */
  lemma TallyReport(
    edges: Adjacency, stack: seq<Id>, seen: set<Id>, cycles: seq<seq<Id>>, cycle: seq<Id>, id: Id, i: nat)
    requires i < |Bucket(edges, id)| && ClosedBy(cycle, id, Bucket(edges, id)[i].target)
    requires Bucket(edges, id)[i].target in stack && PartTally(edges, stack, cycles, id, i)
    ensures TalliedBut(edges, {id}, seen, cycles, seen, cycles + [cycle])
    ensures PartTally(edges, stack, cycles + [cycle], id, i + 1)
  {
    assert (cycles + [cycle])[..|cycles|] == cycles;
    forall v {
      CountToStep(Bucket(edges, id), i, v);
    }
  }

  /** The edge led to a vertex off the stack, and nothing was reported for `id`. */
  lemma TallySkip(edges: Adjacency, stack: seq<Id>, cycles0: seq<seq<Id>>, cycles: seq<seq<Id>>, id: Id, i: nat)
    requires i < |Bucket(edges, id)| && Bucket(edges, id)[i].target !in stack
    requires PartTally(edges, stack, cycles0, id, i) && SameReports(cycles0, cycles, id)
    ensures PartTally(edges, stack, cycles, id, i + 1)
  {
    forall v {
      CountToStep(Bucket(edges, id), i, v);
    }
  }

  /** All edges of `id` are done, so `id` need not be exempt any more. */
  lemma TallyLeave(
    edges: Adjacency, stack: seq<Id>, seen0: set<Id>, cycles0: seq<seq<Id>>,
    seen: set<Id>, cycles: seq<seq<Id>>, id: Id)
    requires id !in seen0 && TalliedBut(edges, {id}, seen0 + {id}, cycles0, seen, cycles)
    requires PartTally(edges, stack, cycles, id, |Bucket(edges, id)|)
    ensures TalliedBut(edges, {}, seen0, cycles0, seen, cycles)
  {
    assert Bucket(edges, id)[..|Bucket(edges, id)|] == Bucket(edges, id);
    forall u, v | u in seen && u !in seen0 ensures AllOrNone(edges, cycles, u, v) {
      if u != id { assert u !in seen0 + {id}; }
    }
    forall u | u in seen0 ensures SameReports(cycles0, cycles, u) {
      assert u in seen0 + {id};
    }
  }

  lemma TallyDone(edges: Adjacency, visited: map<Id, int>, cycles: seq<seq<Id>>)
    requires CyclesGenuine(ArcsOf(edges), cycles, visited)
    requires TalliedBut(edges, {}, {}, [], visited.Keys, cycles)
    ensures OncePerEdge(edges, cycles)
  {
    forall u, v ensures AllOrNone(edges, cycles, u, v) {
      if u !in visited {
        UnvisitedUnreported(ArcsOf(edges), cycles, visited, u, v);
      }
    }
  }
}
