/**
 The depth-first cycle search as a function of the order in which it tries the nodes, and what it
 keeps true. The search object is proved to compute this function.
 */
module CycleSweep {
  import opened Order
  import opened Digraph
  import opened Edges
  import opened CycleInvariants
  import opened CycleTally

  /** The variables of the search, and the ids it is done with. */
  datatype Sweep = Sweep(
    visited: map<Id, int>, path: map<Id, nat>, stack: seq<Id>, cycles: seq<seq<Id>>, finished: seq<Id>)

  const NOTHING_VISITED := Sweep(map[], map[], [], [], [])

  ghost function Enter(s: Sweep, id: Id): Sweep {
    s.(visited := s.visited[id := IN_PROGRESS], path := s.path[id := |s.stack|], stack := s.stack + [id])
  }

  ghost function Leave(s: Sweep, id: Id): Sweep {
    s.(visited := s.visited[id := DONE], path := s.path - {id},
       stack := if s.stack == [] then [] else s.stack[..|s.stack| - 1], finished := s.finished + [id])
  }

  /** The cycle from the in-progress `target` to the top of the stack and back. */
  ghost function Report(s: Sweep, target: Id): Sweep {
    if target in s.path && s.path[target] <= |s.stack| then s.(cycles := s.cycles + [CycleTo(s, target)]) else s
  }

  ghost function CycleTo(s: Sweep, target: Id): seq<Id>
    requires target in s.path && s.path[target] <= |s.stack|
  {
    s.stack[s.path[target]..] + [target]
  }

  ghost function Visit(edges: Adjacency, U: set<Id>, s: Sweep, id: Id): (s': Sweep)
    requires SuccClosed(ArcsOf(edges), U) && id in U && id !in s.visited && s.visited.Keys <= U
    ensures s.visited.Keys <= s'.visited.Keys <= U && id in s'.visited
    decreases U - s.visited.Keys, 0, 0
  {
    assert id in U - s.visited.Keys && id !in U - Enter(s, id).visited.Keys;
    Leave(Follow(edges, U, Enter(s, id), id, 0), id)
  }

  /** The edges of `id` from the `i`th on. */
  ghost function Follow(edges: Adjacency, U: set<Id>, s: Sweep, id: Id, i: nat): (s': Sweep)
    requires SuccClosed(ArcsOf(edges), U) && id in U && s.visited.Keys <= U && i <= |Bucket(edges, id)|
    ensures s.visited.Keys <= s'.visited.Keys <= U
    decreases U - s.visited.Keys, 2, |Bucket(edges, id)| - i
  {
    if i == |Bucket(edges, id)| then s
    else
      var s1 := FollowOne(edges, U, s, id, i);
      assert U - s1.visited.Keys <= U - s.visited.Keys;
      Follow(edges, U, s1, id, i + 1)
  }

  ghost function FollowOne(edges: Adjacency, U: set<Id>, s: Sweep, id: Id, i: nat): (s': Sweep)
    requires SuccClosed(ArcsOf(edges), U) && id in U && s.visited.Keys <= U && i < |Bucket(edges, id)|
    ensures s.visited.Keys <= s'.visited.Keys <= U
    decreases U - s.visited.Keys, 1, 0
  {
    TargetIsArc(edges, id, i);
    var target := Bucket(edges, id)[i].target;
    if target !in s.visited then Visit(edges, U, s, target)
    else if s.visited[target] == IN_PROGRESS then Report(s, target)
    else s
  }

  /** The roots are tried in order, those already visited being skipped. */
  ghost function TryAll(edges: Adjacency, U: set<Id>, order: seq<Id>): (s: Sweep)
    requires SuccClosed(ArcsOf(edges), U) && Elems(order) <= U
    ensures s.visited.Keys <= U
  {
    if order == [] then NOTHING_VISITED
    else
      var id, before := order[|order| - 1], order[..|order| - 1];
      assert id in Elems(order) && Elems(before) <= Elems(order);
      var s := TryAll(edges, U, before);
      if id in s.visited then s else Visit(edges, U, s, id)
  }

  /** What the search reports if it tries the nodes in this order. */
  ghost function SearchCycles(edges: Adjacency, order: seq<Id>): seq<seq<Id>> {
    ReachableSetClosed(ArcsOf(edges), Elems(order));
    TryAll(edges, ReachableSet(ArcsOf(edges), Elems(order)), order).cycles
  }

  // --- what the search keeps true ---------------------------------------------------------

  /** A reported cycle that was closed from a vertex still on the stack is a slice of the stack. */
  ghost predicate SliceOf(stack: seq<Id>, c: seq<Id>) {
    |c| >= 2 && forall k | 0 <= k < |stack| && stack[k] == c[|c| - 2] :: SliceUpTo(stack, k, c)
  }

  ghost predicate SliceUpTo(stack: seq<Id>, k: nat, c: seq<Id>)
    requires k < |stack|
  {
    exists start :: 0 <= start <= k && c == stack[start..k + 1] + [stack[start]]
  }

  lemma SliceOfPrefix(stack: seq<Id>, id: Id, k: nat, c: seq<Id>)
    requires k < |stack|
    ensures SliceUpTo(stack, k, c) <==> SliceUpTo(stack + [id], k, c)
  {
    var more := stack + [id];
    if SliceUpTo(stack, k, c) {
      var start :| 0 <= start <= k && c == stack[start..k + 1] + [stack[start]];
      assert more[start..k + 1] == stack[start..k + 1];
      assert c == more[start..k + 1] + [more[start]];
    }
    if SliceUpTo(more, k, c) {
      var start :| 0 <= start <= k && c == more[start..k + 1] + [more[start]];
      assert more[start..k + 1] == stack[start..k + 1];
      assert c == stack[start..k + 1] + [stack[start]];
    }
  }

  /** For each closing arc there is only one reported cycle, maybe reported several times. */
  ghost predicate OnePerArc(cycles: seq<seq<Id>>) {
    forall i, j, u, v |
      0 <= i < |cycles| && 0 <= j < |cycles| && ClosedBy(cycles[i], u, v) && ClosedBy(cycles[j], u, v) ::
      cycles[i] == cycles[j]
  }

  ghost predicate Witnessed(stack: seq<Id>, cycles: seq<seq<Id>>) {
    OnePerArc(cycles) && forall i | 0 <= i < |cycles| :: SliceOf(stack, cycles[i])
  }

  ghost predicate Good(edges: Adjacency, s: Sweep) {
    Consistent(ArcsOf(edges), s.visited, s.path, s.stack, s.cycles, s.finished) && Witnessed(s.stack, s.cycles)
  }

  /** Every cycle through `y` ends in `y`. */
  ghost predicate EndsIn(cycles: seq<seq<Id>>, y: Id) {
    forall i | 0 <= i < |cycles| && y in cycles[i] :: cycles[i][|cycles[i]| - 1] == y
  }

  /** `y` was the first vertex tried: it is at the bottom of the stack, and closes what it is on. */
  ghost predicate RootRule(y: Id, s: Sweep) {
    y in s.visited && (y in s.stack ==> s.stack[0] == y) && EndsIn(s.cycles, y)
  }

  lemma EnterWitnessed(arcs: Arcs, visited: map<Id, int>, stack: seq<Id>, cycles: seq<seq<Id>>, id: Id)
    requires CyclesGenuine(arcs, cycles, visited) && Witnessed(stack, cycles) && id !in visited
    ensures Witnessed(stack + [id], cycles)
  {
    forall i | 0 <= i < |cycles| ensures SliceOf(stack + [id], cycles[i]) {
      var c := cycles[i];
      assert SliceOf(stack, c) && c[|c| - 2] in Elems(c);
      forall k | 0 <= k < |stack| + 1 && (stack + [id])[k] == c[|c| - 2] ensures SliceUpTo(stack + [id], k, c) {
        SliceOfPrefix(stack, id, k, c);
      }
    }
  }

  lemma LeaveWitnessed(stack: seq<Id>, id: Id, cycles: seq<seq<Id>>)
    requires Witnessed(stack + [id], cycles)
    ensures Witnessed(stack, cycles)
  {
    forall i | 0 <= i < |cycles| ensures SliceOf(stack, cycles[i]) {
      var c := cycles[i];
      assert SliceOf(stack + [id], c);
      forall k | 0 <= k < |stack| && stack[k] == c[|c| - 2] ensures SliceUpTo(stack, k, c) {
        SliceOfPrefix(stack, id, k, c);
      }
    }
  }

  lemma ReportWitnessed(stack: seq<Id>, cycles: seq<seq<Id>>, start: nat)
    requires Witnessed(stack, cycles) && Distinct(stack) && start < |stack|
    ensures Witnessed(stack, cycles + [stack[start..] + [stack[start]]])
  {
    var cycle := stack[start..] + [stack[start]];
    TopSlice(stack, start);
    forall i, u, v | 0 <= i < |cycles| && ClosedBy(cycles[i], u, v) && ClosedBy(cycle, u, v)
      ensures cycles[i] == cycle
    {
      SameTopSlice(stack, cycles[i], start);
    }
    OneMorePerArc(cycles, cycle);
  }

  lemma OneMorePerArc(cycles: seq<seq<Id>>, cycle: seq<Id>)
    requires OnePerArc(cycles)
    requires forall i, u, v | 0 <= i < |cycles| && ClosedBy(cycles[i], u, v) && ClosedBy(cycle, u, v) ::
               cycles[i] == cycle
    ensures OnePerArc(cycles + [cycle])
  {
  }

  lemma TopSlice(stack: seq<Id>, start: nat)
    requires Distinct(stack) && start < |stack|
    ensures var cycle := stack[start..] + [stack[start]];
            SliceOf(stack, cycle) && ClosedBy(cycle, stack[|stack| - 1], stack[start])
  {
    var cycle := stack[start..] + [stack[start]];
    var top := |stack| - 1;
    assert cycle[|cycle| - 2] == stack[top];
    assert stack[start..top + 1] == stack[start..];
    assert SliceUpTo(stack, top, cycle);
  }

  lemma SameTopSlice(stack: seq<Id>, c: seq<Id>, start: nat)
    requires Distinct(stack) && start < |stack| && SliceOf(stack, c)
    requires ClosedBy(c, stack[|stack| - 1], stack[start])
    ensures c == stack[start..] + [stack[start]]
  {
    var top := |stack| - 1;
    assert SliceUpTo(stack, top, c);
    var at :| 0 <= at <= top && c == stack[at..top + 1] + [stack[at]];
    assert stack[at] == stack[start];
    assert stack[start..top + 1] == stack[start..];
  }

  // --- the steps --------------------------------------------------------------------------

  lemma EnterGood(edges: Adjacency, s: Sweep, id: Id)
    requires Good(edges, s) && id !in s.visited
    requires s.stack != [] ==> (s.stack[|s.stack| - 1], id) in ArcsOf(edges)
    ensures Good(edges, Enter(s, id))
    ensures PartTally(edges, Enter(s, id).stack, s.cycles, id, 0)
  {
    EnterKeeps(ArcsOf(edges), s.visited, s.path, s.stack, s.cycles, s.finished, id);
    EnterWitnessed(ArcsOf(edges), s.visited, s.stack, s.cycles, id);
    TallyStart(edges, s.stack + [id], s.cycles, s.visited, id);
  }

  lemma LeaveGood(edges: Adjacency, s: Sweep, id: Id, below: seq<Id>)
    requires Good(edges, s) && s.stack == below + [id]
    requires forall v | (id, v) in OpenArcs(ArcsOf(edges), s.cycles) :: v in s.finished
    ensures Good(edges, Leave(s, id)) && Leave(s, id).stack == below
    ensures Leave(s, id).visited.Keys == s.visited.Keys
  {
    assert s.stack[..|s.stack| - 1] == below;
    LeaveKeeps(ArcsOf(edges), s.visited, s.path, below, s.cycles, s.finished, id);
    LeaveWitnessed(below, id, s.cycles);
  }

  lemma ReportGood(edges: Adjacency, s: Sweep, id: Id, target: Id)
    requires Good(edges, s) && s.stack != [] && s.stack[|s.stack| - 1] == id
    requires (id, target) in ArcsOf(edges) && target in s.visited && s.visited[target] == IN_PROGRESS
    ensures target in s.path && s.path[target] < |s.stack| && s.stack[s.path[target]] == target
    ensures Good(edges, Report(s, target)) && target in s.stack
    ensures ClosedBy(CycleTo(s, target), id, target)
    ensures Report(s, target) == s.(cycles := s.cycles + [CycleTo(s, target)])
  {
    InProgressAt(s.visited, s.path, s.stack, s.finished, target);
    ReportKeeps(ArcsOf(edges), s.visited, s.path, s.stack, s.cycles, s.finished, s.path[target]);
    ReportWitnessed(s.stack, s.cycles, s.path[target]);
  }

  lemma EnterRoot(y: Id, s: Sweep, id: Id)
    requires RootRule(y, s) && id != y
    ensures RootRule(y, Enter(s, id))
  {
  }

  lemma LeaveRoot(y: Id, s: Sweep, id: Id)
    requires RootRule(y, s) && s.stack != [] && Distinct(s.stack)
    ensures RootRule(y, Leave(s, id))
  {
    assert forall x | x in s.stack[..|s.stack| - 1] :: x in s.stack;
  }

  lemma ReportRoot(y: Id, s: Sweep, target: Id)
    requires RootRule(y, s) && Distinct(s.stack)
    requires target in s.path ==> s.path[target] < |s.stack| && s.stack[s.path[target]] == target
    ensures RootRule(y, Report(s, target))
  {
    if target in s.path {
      var start := s.path[target];
      assert forall x | x in s.stack[start..] :: x in s.stack;
      assert forall k | start <= k < |s.stack| && s.stack[k] == y :: k == 0;
    }
  }

  // --- the search -------------------------------------------------------------------------

  /** What a stretch of the search, during which the stack comes back to what it was, preserves. */
  ghost predicate Kept(edges: Adjacency, but: set<Id>, s: Sweep, s': Sweep) {
    && Good(edges, s') && s'.stack == s.stack
    && s.finished <= s'.finished && s.cycles <= s'.cycles
    && TalliedBut(edges, but, s.visited.Keys, s.cycles, s'.visited.Keys, s'.cycles)
  }

  ghost predicate SettledUpTo(edges: Adjacency, s: Sweep, id: Id, i: nat)
    requires i <= |Bucket(edges, id)|
  {
    forall k | 0 <= k < i :: Settled(s.finished, s.cycles, id, Bucket(edges, id)[k].target)
  }

  ghost predicate AtTop(s: Sweep, id: Id) {
    s.stack != [] && s.stack[|s.stack| - 1] == id && id in s.visited
  }

  lemma {:induction false} VisitKeeps(edges: Adjacency, U: set<Id>, s: Sweep, id: Id, y: Id)
    requires SuccClosed(ArcsOf(edges), U) && id in U && id !in s.visited && s.visited.Keys <= U
    requires Good(edges, s) && (s.stack != [] ==> (s.stack[|s.stack| - 1], id) in ArcsOf(edges))
    ensures Kept(edges, {}, s, Visit(edges, U, s, id)) && id in Visit(edges, U, s, id).finished
    ensures RootRule(y, Enter(s, id)) ==> RootRule(y, Visit(edges, U, s, id))
    decreases U - s.visited.Keys, 0, 0
  {
    var s1 := Enter(s, id);
    assert id in U - s.visited.Keys && id !in U - s1.visited.Keys;
    EnterGood(edges, s, id);
    var s2 := Follow(edges, U, s1, id, 0);
    FollowKeeps(edges, U, s1, id, 0, y);
    AllSettled(edges, s2.finished, s2.cycles, id);
    TallyLeave(edges, s2.stack, s.visited.Keys, s.cycles, s2.visited.Keys, s2.cycles, id);
    LeaveGood(edges, s2, id, s.stack);
    if RootRule(y, s1) {
      LeaveRoot(y, s2, id);
    }
  }

  lemma {:induction false} FollowKeeps(edges: Adjacency, U: set<Id>, s: Sweep, id: Id, i: nat, y: Id)
    requires SuccClosed(ArcsOf(edges), U) && id in U && s.visited.Keys <= U && i <= |Bucket(edges, id)|
    requires Good(edges, s) && AtTop(s, id) && SettledUpTo(edges, s, id, i)
    requires PartTally(edges, s.stack, s.cycles, id, i)
    ensures var s' := Follow(edges, U, s, id, i);
            && Kept(edges, {id}, s, s') && AtTop(s', id)
            && SettledUpTo(edges, s', id, |Bucket(edges, id)|)
            && PartTally(edges, s'.stack, s'.cycles, id, |Bucket(edges, id)|)
            && (RootRule(y, s) ==> RootRule(y, s'))
    decreases U - s.visited.Keys, 2, |Bucket(edges, id)| - i
  {
    if i == |Bucket(edges, id)| {
      TallyNothing(edges, {id}, s.visited.Keys, s.cycles);
    } else {
      var s1 := FollowOne(edges, U, s, id, i);
      FollowOneKeeps(edges, U, s, id, i, y);
      assert U - s1.visited.Keys <= U - s.visited.Keys;
      FollowKeeps(edges, U, s1, id, i + 1, y);
      var s' := Follow(edges, U, s1, id, i + 1);
      TallyThen(edges, {id}, s.visited.Keys, s.cycles, s1.visited.Keys, s1.cycles, s'.visited.Keys, s'.cycles);
    }
  }

  /** What following edge `i` of `id` preserves, and what it settles. */
  ghost predicate Followed(edges: Adjacency, s: Sweep, s': Sweep, id: Id, i: nat, y: Id)
    requires i < |Bucket(edges, id)|
  {
    && Kept(edges, {id}, s, s') && AtTop(s', id)
    && SettledUpTo(edges, s', id, i + 1)
    && PartTally(edges, s'.stack, s'.cycles, id, i + 1)
    && (RootRule(y, s) ==> RootRule(y, s'))
  }

  lemma {:induction false} FollowOneKeeps(edges: Adjacency, U: set<Id>, s: Sweep, id: Id, i: nat, y: Id)
    requires SuccClosed(ArcsOf(edges), U) && id in U && s.visited.Keys <= U && i < |Bucket(edges, id)|
    requires Good(edges, s) && AtTop(s, id) && SettledUpTo(edges, s, id, i)
    requires PartTally(edges, s.stack, s.cycles, id, i)
    ensures Followed(edges, s, FollowOne(edges, U, s, id, i), id, i, y)
    decreases U - s.visited.Keys, 1, 0
  {
    var target := Bucket(edges, id)[i].target;
    if target !in s.visited {
      TargetIsArc(edges, id, i);
      VisitKeeps(edges, U, s, target, y);
      AfterVisit(edges, s, Visit(edges, U, s, target), id, i, y);
    } else if s.visited[target] == IN_PROGRESS {
      AfterReport(edges, s, id, i, y);
    } else {
      AlreadyDone(edges, s, id, i, y);
    }
  }

  /** The edge led to a vertex not visited before, which is finished now. */
  lemma AfterVisit(edges: Adjacency, s: Sweep, s': Sweep, id: Id, i: nat, y: Id)
    requires i < |Bucket(edges, id)| && Good(edges, s) && AtTop(s, id) && Kept(edges, {}, s, s')
    requires PartTally(edges, s.stack, s.cycles, id, i) && SettledUpTo(edges, s, id, i)
    requires s.visited.Keys <= s'.visited.Keys
    requires var target := Bucket(edges, id)[i].target;
             && target !in s.visited && target in s'.finished
             && (RootRule(y, Enter(s, target)) ==> RootRule(y, s'))
    ensures Followed(edges, s, s', id, i, y)
  {
    TallySkip(edges, s.stack, s.cycles, s'.cycles, id, i);
    if RootRule(y, s) { EnterRoot(y, s, Bucket(edges, id)[i].target); }
    SettledStays(edges, s, s', id, i);
  }

  /** The edge leads to a vertex that is done. */
  lemma AlreadyDone(edges: Adjacency, s: Sweep, id: Id, i: nat, y: Id)
    requires i < |Bucket(edges, id)| && Good(edges, s) && AtTop(s, id) && PartTally(edges, s.stack, s.cycles, id, i)
    requires var target := Bucket(edges, id)[i].target; target in s.visited && s.visited[target] != IN_PROGRESS
    requires SettledUpTo(edges, s, id, i)
    ensures Followed(edges, s, s, id, i, y)
  {
    TallySkip(edges, s.stack, s.cycles, s.cycles, id, i);
    TallyNothing(edges, {id}, s.visited.Keys, s.cycles);
    SettledStays(edges, s, s, id, i);
  }

  /** The edge leads back onto the stack. */
  lemma AfterReport(edges: Adjacency, s: Sweep, id: Id, i: nat, y: Id)
    requires i < |Bucket(edges, id)| && Good(edges, s) && AtTop(s, id) && PartTally(edges, s.stack, s.cycles, id, i)
    requires var target := Bucket(edges, id)[i].target; target in s.visited && s.visited[target] == IN_PROGRESS
    requires SettledUpTo(edges, s, id, i)
    ensures Followed(edges, s, Report(s, Bucket(edges, id)[i].target), id, i, y)
  {
    var target := Bucket(edges, id)[i].target;
    TargetIsArc(edges, id, i);
    ReportKeepsRoot(edges, s, id, target, y);
    ReportTallied(edges, s, id, i);
    ReportKept(edges, s, id, i);
    Onward(edges, s, Report(s, target), id, i, y);
  }

  lemma Onward(edges: Adjacency, s: Sweep, s': Sweep, id: Id, i: nat, y: Id)
    requires i < |Bucket(edges, id)| && AtTop(s, id) && SettledUpTo(edges, s, id, i)
    requires Kept(edges, {id}, s, s') && PartTally(edges, s'.stack, s'.cycles, id, i + 1)
    requires id in s'.visited && Closing(s'.cycles, id, Bucket(edges, id)[i].target)
    requires RootRule(y, s) ==> RootRule(y, s')
    ensures Followed(edges, s, s', id, i, y)
  {
    SettledStays(edges, s, s', id, i);
  }

  lemma ReportKeepsRoot(edges: Adjacency, s: Sweep, id: Id, target: Id, y: Id)
    requires Good(edges, s) && AtTop(s, id) && (id, target) in ArcsOf(edges)
    requires target in s.visited && s.visited[target] == IN_PROGRESS
    ensures RootRule(y, s) ==> RootRule(y, Report(s, target))
  {
    ReportGood(edges, s, id, target);
    if RootRule(y, s) { ReportRoot(y, s, target); }
  }

  lemma ReportTallied(edges: Adjacency, s: Sweep, id: Id, i: nat)
    requires i < |Bucket(edges, id)| && Good(edges, s) && AtTop(s, id)
    requires PartTally(edges, s.stack, s.cycles, id, i)
    requires var target := Bucket(edges, id)[i].target; target in s.visited && s.visited[target] == IN_PROGRESS
    ensures var s' := Report(s, Bucket(edges, id)[i].target);
            && TalliedBut(edges, {id}, s.visited.Keys, s.cycles, s'.visited.Keys, s'.cycles)
            && PartTally(edges, s'.stack, s'.cycles, id, i + 1)
  {
    var target := Bucket(edges, id)[i].target;
    TargetIsArc(edges, id, i);
    ReportGood(edges, s, id, target);
    TallyReport(edges, s.stack, s.visited.Keys, s.cycles, CycleTo(s, target), id, i);
  }

  lemma ReportKept(edges: Adjacency, s: Sweep, id: Id, i: nat)
    requires i < |Bucket(edges, id)| && Good(edges, s) && AtTop(s, id)
    requires PartTally(edges, s.stack, s.cycles, id, i)
    requires var target := Bucket(edges, id)[i].target; target in s.visited && s.visited[target] == IN_PROGRESS
    ensures var target := Bucket(edges, id)[i].target;
            Kept(edges, {id}, s, Report(s, target)) && Closing(Report(s, target).cycles, id, target)
  {
    var target := Bucket(edges, id)[i].target;
    TargetIsArc(edges, id, i);
    ReportGood(edges, s, id, target);
    ReportTallied(edges, s, id, i);
    ClosingLast(s.cycles, CycleTo(s, target), id, target);
  }

  lemma ClosingLast(cycles: seq<seq<Id>>, cycle: seq<Id>, u: Id, v: Id)
    requires ClosedBy(cycle, u, v)
    ensures Closing(cycles + [cycle], u, v)
  {
    assert (cycles + [cycle])[|cycles|] == cycle;
  }

  lemma SettledStays(edges: Adjacency, s: Sweep, s': Sweep, id: Id, i: nat)
    requires i < |Bucket(edges, id)| && SettledUpTo(edges, s, id, i)
    requires s.finished <= s'.finished && s.cycles <= s'.cycles
    requires Settled(s'.finished, s'.cycles, id, Bucket(edges, id)[i].target)
    ensures SettledUpTo(edges, s', id, i + 1)
  {
    forall k | 0 <= k < i ensures Settled(s'.finished, s'.cycles, id, Bucket(edges, id)[k].target) {
      SettledGrows(s.finished, s.cycles, s'.finished, s'.cycles, id, Bucket(edges, id)[k].target);
    }
  }

  /** From `s0`, with `id` newly on the stack, the search has come to edge `i` of `id`. */
  ghost predicate Following(edges: Adjacency, U: set<Id>, s0: Sweep, s: Sweep, id: Id, i: nat) {
    && SuccClosed(ArcsOf(edges), U) && id in U && s0.visited.Keys <= s.visited.Keys <= U && i <= |Bucket(edges, id)|
    && Good(edges, s) && AtTop(s, id) && SettledUpTo(edges, s, id, i) && PartTally(edges, s.stack, s.cycles, id, i)
    && Follow(edges, U, s, id, i) == Follow(edges, U, s0, id, 0)
  }

  lemma FollowingStep(edges: Adjacency, U: set<Id>, s0: Sweep, s: Sweep, id: Id, i: nat)
    requires Following(edges, U, s0, s, id, i) && i < |Bucket(edges, id)|
    ensures Following(edges, U, s0, FollowOne(edges, U, s, id, i), id, i + 1)
  {
    FollowOneKeeps(edges, U, s, id, i, id);
  }

  lemma NothingGood(edges: Adjacency)
    ensures Kept(edges, {}, NOTHING_VISITED, NOTHING_VISITED)
  {
  }

  lemma KeptThen(edges: Adjacency, s0: Sweep, s1: Sweep, s2: Sweep)
    requires Kept(edges, {}, s0, s1) && Kept(edges, {}, s1, s2)
    ensures Kept(edges, {}, s0, s2)
  {
    TallyThen(edges, {}, s0.visited.Keys, s0.cycles, s1.visited.Keys, s1.cycles, s2.visited.Keys, s2.cycles);
  }

  /** The roots in `order` have been tried. */
  ghost predicate Tried(edges: Adjacency, order: seq<Id>, s: Sweep) {
    && Kept(edges, {}, NOTHING_VISITED, s) && Elems(order) <= s.visited.Keys
    && (order == [] ==> s == NOTHING_VISITED) && (order != [] ==> RootRule(order[0], s))
  }

  lemma {:induction false} TryAllKeeps(edges: Adjacency, U: set<Id>, order: seq<Id>)
    requires SuccClosed(ArcsOf(edges), U) && Elems(order) <= U
    ensures Tried(edges, order, TryAll(edges, U, order))
  {
    if order == [] {
      NothingGood(edges);
    } else {
      var id, before := order[|order| - 1], order[..|order| - 1];
      assert id in Elems(order) && Elems(before) <= Elems(order);
      assert order == before + [id];
      TryAllKeeps(edges, U, before);
      TryOneMore(edges, U, before, TryAll(edges, U, before), id);
    }
  }

  lemma TryOneMore(edges: Adjacency, U: set<Id>, before: seq<Id>, s: Sweep, id: Id)
    requires SuccClosed(ArcsOf(edges), U) && id in U && s.visited.Keys <= U && Tried(edges, before, s)
    ensures Tried(edges, before + [id], if id in s.visited then s else Visit(edges, U, s, id))
  {
    var y := (before + [id])[0];
    assert Elems(before + [id]) == Elems(before) + {id};
    if id !in s.visited {
      VisitKeeps(edges, U, s, id, y);
      if before != [] { EnterRoot(y, s, id); }
      KeptThen(edges, NOTHING_VISITED, s, Visit(edges, U, s, id));
    }
  }

  /** The first `i` roots have been tried. */
  ghost predicate Trying(edges: Adjacency, U: set<Id>, order: seq<Id>, i: nat, s: Sweep) {
    && SuccClosed(ArcsOf(edges), U) && i <= |order| && Elems(order[..i]) <= U
    && s == TryAll(edges, U, order[..i])
  }

  lemma TryingStep(edges: Adjacency, U: set<Id>, order: seq<Id>, i: nat, s: Sweep)
    requires Trying(edges, U, order, i, s) && i < |order| && order[i] in U
    ensures s.visited.Keys <= U && Good(edges, s) && s.stack == []
    ensures Trying(edges, U, order, i + 1, if order[i] in s.visited then s else Visit(edges, U, s, order[i]))
  {
    assert order[..i + 1][..i] == order[..i];
    assert Elems(order[..i + 1]) == Elems(order[..i]) + {order[i]};
    TryAllKeeps(edges, U, order[..i]);
  }

  lemma TryingDone(edges: Adjacency, order: seq<Id>, s: Sweep)
    requires Trying(edges, ReachableSet(ArcsOf(edges), Elems(order)), order, |order|, s)
    ensures s.cycles == SearchCycles(edges, order)
    ensures CycleReport(ArcsOf(edges), Elems(order), s.cycles) && OncePerEdge(edges, s.cycles)
  {
    assert order[..|order|] == order;
    SearchReports(edges, order);
  }

  /** Nothing is left on the stack, and everything visited was reached from a root. */
  lemma TriedReports(edges: Adjacency, order: seq<Id>, s: Sweep)
    requires Tried(edges, order, s) && s.visited.Keys <= ReachableSet(ArcsOf(edges), Elems(order))
    ensures CycleReport(ArcsOf(edges), Elems(order), s.cycles) && OncePerEdge(edges, s.cycles) && OnePerArc(s.cycles)
    ensures order != [] ==> EndsIn(s.cycles, order[0])
  {
    var arcs, roots := ArcsOf(edges), Elems(order);
    assert s.stack == [];
    SearchDone(arcs, roots, ReachableSet(arcs, roots), s.visited, s.path, s.cycles, s.finished);
    TallyDone(edges, s.visited, s.cycles);
  }

  /** Tried in any order, the search gives a complete report, with one cycle for each closing arc. */
  lemma SearchReports(edges: Adjacency, order: seq<Id>)
    ensures var cycles := SearchCycles(edges, order);
            && CycleReport(ArcsOf(edges), Elems(order), cycles) && OncePerEdge(edges, cycles) && OnePerArc(cycles)
            && (order != [] ==> EndsIn(cycles, order[0]))
  {
    var U := ReachableSet(ArcsOf(edges), Elems(order));
    ReachableSetClosed(ArcsOf(edges), Elems(order));
    TryAllKeeps(edges, U, order);
    TriedReports(edges, order, TryAll(edges, U, order));
  }
}
