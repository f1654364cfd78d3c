/**
 The depth-first cycle search, whatever it keeps on its stack, reports what can be said of trails:
 the cycles closed from least trails, in the order of the places of their edges.
 */
module CycleSpelling {
  import opened Order
  import opened Digraph
  import opened Edges
  import opened CycleInvariants
  import opened CycleTally
  import opened CycleSweep
  import opened CycleTrails

  // --- one edge and the rest --------------------------------------------------------------

  /** What edge `i` of `id` alone leads to. */
  ghost predicate SpellsFirst(
    edges: Adjacency, V: set<Id>, stack: seq<Id>, id: Id, i: nat, codes: seq<seq<nat>>, cycles: seq<seq<Id>>)
  {
    && Ascending(codes) && (forall c :: c in codes <==> c != [] && c[0] == i && Closes(edges, V, stack, id, i, c))
    && |codes| == |cycles| && forall k | 0 <= k < |codes| :: CycleOf(edges, stack, id, codes[k], cycles[k])
  }

  /** A code that begins with a later edge is as good once edge `i` is followed. */
  lemma ClosesLater(edges: Adjacency, V: set<Id>, V': set<Id>, stack: seq<Id>, id: Id, i: nat, c: seq<nat>)
    requires SweptBy(edges, V, id, i, V') && c != [] && c[0] > i
    ensures Closes(edges, V, stack, id, i, c) <==> Closes(edges, V', stack, id, i + 1, c)
  {
    var q := c[..|c| - 1];
    if q != [] {
      assert q[0] == c[0];
      LeastLater(edges, V, id, i, V', q);
    }
  }

  lemma SpellsOn(
    edges: Adjacency, V: set<Id>, V': set<Id>, stack: seq<Id>, id: Id, i: nat,
    codes: seq<seq<nat>>, cycles: seq<seq<Id>>, codes': seq<seq<nat>>, cycles': seq<seq<Id>>)
    requires SweptBy(edges, V, id, i, V') && SpellsFirst(edges, V, stack, id, i, codes, cycles)
    requires Spells(edges, V', stack, id, i + 1, codes', cycles')
    ensures Spells(edges, V, stack, id, i, codes + codes', cycles + cycles')
  {
    var all := codes + codes';
    forall c ensures c in all <==> Closes(edges, V, stack, id, i, c) {
      assert c in all <==> c in codes || c in codes';
      if c != [] && c[0] > i { ClosesLater(edges, V, V', stack, id, i, c); }
    }
    FirstThenLater(codes, codes', i);
    forall k | 0 <= k < |all| ensures CycleOf(edges, stack, id, all[k], (cycles + cycles')[k]) {
      if k >= |codes| { assert CycleOf(edges, stack, id, codes'[k - |codes|], cycles'[k - |codes|]); }
    }
  }

  lemma FirstThenLater(codes: seq<seq<nat>>, codes': seq<seq<nat>>, i: nat)
    requires Ascending(codes) && Ascending(codes')
    requires (forall c | c in codes :: c != [] && c[0] == i) && forall c | c in codes' :: c != [] && c[0] > i
    ensures Ascending(codes + codes')
  {
    var all := codes + codes';
    forall a, b | 0 <= a < b < |all| ensures LexLess(all[a], all[b]) {
      if a < |codes| <= b {
        assert codes[a] in codes && codes'[b - |codes|] in codes';
      }
    }
  }

  lemma ExploredOn(edges: Adjacency, V: set<Id>, V': set<Id>, V'': set<Id>, id: Id, i: nat)
    requires SweptBy(edges, V, id, i, V') && Explored(edges, V', id, i + 1, V'')
    ensures Explored(edges, V, id, i, V'')
  {
    forall x ensures x in V'' <==> x in V || EndsAt(edges, V, id, i, x) {
      if x in V'' {
        ExploredSound(edges, V, V', id, i, x);
      }
      if q :| OpenTrail(edges, V, id, i, q) && EndOf(edges, id, q) == x && x !in V' {
        SplitHead(q);
        assert q[0] != i;
        StaysOutside(edges, V, id, i, V', q);
        assert EndsAt(edges, V', id, i + 1, x);
      }
    }
  }

  lemma ExploredSound(edges: Adjacency, V: set<Id>, V': set<Id>, id: Id, i: nat, x: Id)
    requires SweptBy(edges, V, id, i, V') && (x in V' || EndsAt(edges, V', id, i + 1, x))
    ensures x in V || EndsAt(edges, V, id, i, x)
  {
    if x in V' - V {
      assert ReachedBy(edges, V, id, i, x);
      var p :| OpenTrail(edges, V, id, i, [i] + p) && EndOf(edges, id, [i] + p) == x;
    } else if q :| OpenTrail(edges, V', id, i + 1, q) && EndOf(edges, id, q) == x {
      OpenLess(edges, V, V', id, i, q);
    }
  }

  /** Past the last edge there is nothing. */
  lemma NothingLeft(edges: Adjacency, V: set<Id>, stack: seq<Id>, id: Id)
    ensures var n := |Bucket(edges, id)|;
            Explored(edges, V, id, n, V) && Spells(edges, V, stack, id, n, [], [])
  {
  }

  // --- an edge to a vertex not visited before ---------------------------------------------

  ghost function Prepend(i: nat, codes: seq<seq<nat>>): (r: seq<seq<nat>>)
    ensures |r| == |codes|
  {
    seq(|codes|, k requires 0 <= k < |codes| => [i] + codes[k])
  }

  lemma InPrepend(i: nat, codes: seq<seq<nat>>, c: seq<nat>)
    ensures c in Prepend(i, codes) <==> c != [] && c[0] == i && c[1..] in codes
  {
    if c in Prepend(i, codes) {
      var k :| 0 <= k < |codes| && Prepend(i, codes)[k] == c;
      assert c == [i] + codes[k] && c[1..] == codes[k];
    }
    if c != [] && c[0] == i && c[1..] in codes {
      var k :| 0 <= k < |codes| && codes[k] == c[1..];
      assert Prepend(i, codes)[k] == [c[0]] + c[1..] == c;
    }
  }

  lemma PrependAscends(i: nat, codes: seq<seq<nat>>)
    requires Ascending(codes)
    ensures Ascending(Prepend(i, codes))
  {
    forall a, b | 0 <= a < b < |codes| ensures LexLess(Prepend(i, codes)[a], Prepend(i, codes)[b]) {
      LexCons(i, codes[a], codes[b]);
      assert ([i] + codes[a])[1..] == codes[a] && ([i] + codes[b])[1..] == codes[b];
    }
  }

  /** The closing place seen from the next vertex. */
  lemma PlaceCons(edges: Adjacency, stack: seq<Id>, id: Id, i: nat, c: seq<nat>)
    requires i < |Bucket(edges, id)| && c != []
    ensures var y, d := TargetAt(edges, id, i), [i] + c;
            && d[..|d| - 1] == [i] + c[..|c| - 1]
            && (ClosingPlace(edges, id, d) <==> ClosingPlace(edges, y, c))
            && (LeadsBack(edges, stack, id, d) <==> LeadsBack(edges, stack + [y], y, c))
            && forall cycle :: CycleOf(edges, stack, id, d, cycle) <==> CycleOf(edges, stack + [y], y, c, cycle)
  {
    var y, d, q := TargetAt(edges, id, i), [i] + c, c[..|c| - 1];
    assert d[..|d| - 1] == [i] + q && d[|d| - 1] == c[|c| - 1];
    ConsTrail(edges, id, i, q);
    if Trail(edges, y, q) {
      assert stack + ([y] + Stops(edges, y, q)) == (stack + [y]) + Stops(edges, y, q);
    }
  }

  lemma ClosesCons(edges: Adjacency, V: set<Id>, stack: seq<Id>, id: Id, i: nat, c: seq<nat>)
    requires i < |Bucket(edges, id)| && TargetAt(edges, id, i) !in V && c != []
    ensures var y := TargetAt(edges, id, i);
            Closes(edges, V, stack, id, i, [i] + c) <==> Closes(edges, V + {y}, stack + [y], y, 0, c)
  {
    PlaceCons(edges, stack, id, i, c);
    LeastCons(edges, V, id, i, c[..|c| - 1]);
  }

  /** An edge to a new vertex is not itself one that leads back. */
  lemma NotBack(edges: Adjacency, V: set<Id>, stack: seq<Id>, id: Id, i: nat)
    requires i < |Bucket(edges, id)| && TargetAt(edges, id, i) !in V && Elems(stack) <= V
    ensures !Closes(edges, V, stack, id, i, [i])
  {
    assert [i][..0] == [];
    assert stack + [] == stack;
  }

  lemma NewVertexSpells(
    edges: Adjacency, V: set<Id>, stack: seq<Id>, id: Id, i: nat, codes: seq<seq<nat>>, cycles: seq<seq<Id>>)
    requires i < |Bucket(edges, id)| && TargetAt(edges, id, i) !in V && Elems(stack) <= V
    requires var y := TargetAt(edges, id, i); Spells(edges, V + {y}, stack + [y], y, 0, codes, cycles)
    ensures SpellsFirst(edges, V, stack, id, i, Prepend(i, codes), cycles)
  {
    PrependAscends(i, codes);
    forall c ensures c in Prepend(i, codes) <==> c != [] && c[0] == i && Closes(edges, V, stack, id, i, c) {
      InPrepend(i, codes, c);
      if c != [] && c[0] == i {
        SplitHead(c);
        if c[1..] == [] {
          NotBack(edges, V, stack, id, i);
          assert c == [i];
        } else {
          ClosesCons(edges, V, stack, id, i, c[1..]);
        }
      }
    }
    forall k | 0 <= k < |codes| ensures CycleOf(edges, stack, id, Prepend(i, codes)[k], cycles[k]) {
      assert codes[k] in codes;
      PlaceCons(edges, stack, id, i, codes[k]);
    }
  }

  /** All that was visited on the way is what the edge leads to. */
  lemma NewVertexSweeps(edges: Adjacency, V: set<Id>, V': set<Id>, id: Id, i: nat)
    requires i < |Bucket(edges, id)| && TargetAt(edges, id, i) !in V
    requires var y := TargetAt(edges, id, i); Explored(edges, V + {y}, y, 0, V')
    requires forall u, k: nat | u in V' - V && k < |Bucket(edges, u)| :: TargetAt(edges, u, k) in V'
    ensures SweptBy(edges, V, id, i, V')
  {
    var y := TargetAt(edges, id, i);
    forall x | x in V' - V ensures ReachedBy(edges, V, id, i, x) {
      SweptReached(edges, V, V', id, i, x);
    }
    forall q | OpenTrail(edges, V, id, i, [i] + q) ensures EndOf(edges, id, [i] + q) in V' {
      OpenCons(edges, V, id, i, q);
      ConsTrail(edges, id, i, q);
      if q != [] { assert EndsAt(edges, V + {y}, y, 0, EndOf(edges, y, q)); }
    }
  }

  lemma SweptReached(edges: Adjacency, V: set<Id>, V': set<Id>, id: Id, i: nat, x: Id)
    requires i < |Bucket(edges, id)| && TargetAt(edges, id, i) !in V && x in V' - V
    requires var y := TargetAt(edges, id, i); Explored(edges, V + {y}, y, 0, V')
    ensures ReachedBy(edges, V, id, i, x)
  {
    var y := TargetAt(edges, id, i);
    if x == y {
      OpenCons(edges, V, id, i, []);
      ConsTrail(edges, id, i, []);
    } else {
      var q :| OpenTrail(edges, V + {y}, y, 0, q) && EndOf(edges, y, q) == x;
      OpenCons(edges, V, id, i, q);
      ConsTrail(edges, id, i, q);
    }
  }

  // --- an edge to a visited vertex --------------------------------------------------------

  lemma OldVertexSweeps(edges: Adjacency, V: set<Id>, id: Id, i: nat)
    requires i < |Bucket(edges, id)| && TargetAt(edges, id, i) in V
    ensures SweptBy(edges, V, id, i, V)
  {
    forall q ensures !OpenTrail(edges, V, id, i, [i] + q) {
      OpenCons(edges, V, id, i, q);
    }
  }

  /** It closes a cycle iff it leads back to the stack. */
  lemma OldVertexCloses(edges: Adjacency, V: set<Id>, stack: seq<Id>, id: Id, i: nat, c: seq<nat>)
    requires i < |Bucket(edges, id)| && TargetAt(edges, id, i) in V && c != [] && c[0] == i
    ensures Closes(edges, V, stack, id, i, c) <==> c == [i] && TargetAt(edges, id, i) in stack
  {
    SplitHead(c);
    var q := c[..|c| - 1];
    if |c| == 1 {
      assert q == [] && stack + [] == stack;
    } else {
      SplitHead(q);
      OpenCons(edges, V, id, i, q[1..]);
    }
  }

  lemma OldVertexSpells(edges: Adjacency, V: set<Id>, stack: seq<Id>, id: Id, i: nat, cycles: seq<seq<Id>>)
    requires i < |Bucket(edges, id)| && TargetAt(edges, id, i) in V
    requires if TargetAt(edges, id, i) in stack then |cycles| == 1 && CycleOf(edges, stack, id, [i], cycles[0])
             else cycles == []
    ensures SpellsFirst(edges, V, stack, id, i, if TargetAt(edges, id, i) in stack then [[i]] else [], cycles)
  {
    var codes := if TargetAt(edges, id, i) in stack then [[i]] else [];
    forall c ensures c in codes <==> c != [] && c[0] == i && Closes(edges, V, stack, id, i, c) {
      if c != [] && c[0] == i { OldVertexCloses(edges, V, stack, id, i, c); }
    }
  }
}
