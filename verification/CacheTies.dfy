/**
 Which of several paths with the same count is evicted: the one at the root of the heap, and where an
 entry stands there depends on which child rises when both are equally light.
 */
module CacheTies {
  import opened Order
  import opened Edges
  import opened HeapShape
  import opened HeapPaths
  import opened HeapEntries
  import opened CacheModel
  import opened CacheInvariants
  import opened CacheActions
  import opened CacheStages
  import opened CacheRuns

  /** In a full cache a new path takes the place of the one at the root of the heap. */
  lemma RootIsEvicted(max: nat, c: Core, c': Core, p: Id, value: Parsed)
    requires CacheOk(c) && |c.view| == max && p !in c.items && PutDone(max, c, c', p, value)
    ensures exists mid :: Inserted(c, mid, p, value) && mid.slots != [] && mid.slots[0] in mid.owner
              && c'.view == mid.view - {mid.owner[mid.slots[0]]} && RemovedTo(false, mid.slots, mid.store, 0, c'.slots)
  {
    var mid :| PutVia(max, c, mid, c', p, value);
    assert |mid.slots| == |mid.view| == |c.view| + 1;
  }

  /** These paths have been stored in an empty cache with enough room, in this order, and none was read. */
  ghost predicate LinedUp(k: Core, ps: seq<Id>) {
    && k.next == |k.slots| == |k.view| == |ps| && k.items.Keys == k.view.Keys == Elems(ps)
    && forall i | 0 <= i < |ps| :: StandsAt(k, i, ps[i])
  }

  ghost predicate StandsAt(k: Core, i: nat, p: Id)
    requires i < |k.slots|
  {
    && k.slots[i] == i && i in k.store && k.store[i].key == 0 && k.store[i].index == i
    && p in k.items && k.items[p] == i && i in k.owner && k.owner[i] == p
  }

  /** A new entry goes to the end of the line. */
  lemma LineUp(max: nat, k: Core, k': Core, ps: seq<Id>, p: Id, value: Parsed)
    requires LinedUp(k, ps) && |ps| < max && p !in ps && PutThrough(max, k, k', p, value)
    requires Indexed(k'.slots, k'.store)
    ensures LinedUp(k', ps + [p])
  {
    HadRoom(max, k, k', p, value);
    NewGoesLast(k, k'.slots, ps);
    LineGrows(k, k', ps, p, value);
  }

  lemma HadRoom(max: nat, k: Core, k': Core, p: Id, value: Parsed)
    requires |k.view| < max && PutThrough(max, k, k', p, value)
    ensures Inserted(k, k', p, value)
  {
    var mid :| PutVia(max, k, mid, k', p, value);
    assert |mid.slots| == |mid.view| == |k.view| + 1;
  }

  lemma LineGrows(k: Core, k': Core, ps: seq<Id>, p: Id, value: Parsed)
    requires LinedUp(k, ps) && p !in ps && Inserted(k, k', p, value) && k'.slots == k.slots + [k.next]
    requires Indexed(k'.slots, k'.store)
    ensures LinedUp(k', ps + [p])
  {
    InsertedSizes(k, k', p, value);
    AllStand(k, k', ps, p, value);
    AllLinedUp(k, k', ps, p);
  }

  lemma AllLinedUp(k: Core, k': Core, ps: seq<Id>, p: Id)
    requires |k.view| == |ps| == k.next && k.items.Keys == k.view.Keys == Elems(ps)
    requires k'.view.Keys == k.view.Keys + {p} && k'.items.Keys == k.items.Keys + {p}
    requires |k'.slots| == |k'.view| == |k.view| + 1 && k'.next == k.next + 1
    requires forall i | 0 <= i < |ps + [p]| :: StandsAt(k', i, (ps + [p])[i])
    ensures LinedUp(k', ps + [p])
  {
    assert Elems(ps + [p]) == Elems(ps) + {p};
  }

  lemma AllStand(k: Core, k': Core, ps: seq<Id>, p: Id, value: Parsed)
    requires LinedUp(k, ps) && p !in ps && Inserted(k, k', p, value) && k'.slots == k.slots + [k.next]
    requires Indexed(k'.slots, k'.store)
    ensures forall i | 0 <= i < |ps + [p]| :: StandsAt(k', i, (ps + [p])[i])
  {
    forall i | 0 <= i < |ps + [p]| ensures StandsAt(k', i, (ps + [p])[i]) {
      StandsStill(k, k', i, ps, p, value);
    }
  }

  lemma InsertedSizes(k: Core, k': Core, p: Id, value: Parsed)
    requires Inserted(k, k', p, value)
    ensures k'.view.Keys == k.view.Keys + {p} && k'.items.Keys == k.items.Keys + {p}
    ensures |k'.slots| == |k'.view| == |k.view| + 1 && k'.next == k.next + 1
  {
  }

  lemma StandsStill(k: Core, k': Core, i: nat, ps: seq<Id>, p: Id, value: Parsed)
    requires LinedUp(k, ps) && p !in ps && Inserted(k, k', p, value) && k'.slots == k.slots + [k.next]
    requires Indexed(k'.slots, k'.store) && i <= |ps|
    ensures StandsAt(k', i, (ps + [p])[i])
  {
    if i < |ps| { assert StandsAt(k, i, ps[i]); }
    assert k'.slots[i] == i;
  }

  lemma NewGoesLast(k: Core, slots: seq<Ref>, ps: seq<Id>)
    requires LinedUp(k, ps) && PushedTo(false, k.slots, k.store, k.next, 0, slots)
    ensures slots == k.slots + [k.next]
  {
    var w, n := Weights(false, k.slots, k.store) + [0], |k.slots|;
    forall i | 0 <= i < n ensures w[i] == 0 { assert StandsAt(k, i, ps[i]); }
    if n > 0 { ChildIndices(n); }
    StaysPut(w, k.slots + [k.next], n);
    SiftedUpOnce(w, k.slots + [k.next], slots, k.slots + [k.next], n);
  }

  /** Of two equally light children the left one rises. */
  lemma LeftRises(s: seq<Ref>, s': seq<Ref>)
    requires |s| == 3 && SettledAt([1, 0, 0], s, s', 0)
    ensures s' == [s[1], s[0], s[2]]
  {
    var w, t := [1, 0, 0], [s[1], s[0], s[2]];
    assert LighterChild(w, 0, 1) && !StaysAbove(w, 0, w[0]);
    assert StepsDown(w, [0, 1], 0) && DownPath(w, 0, [0, 1]);
    assert StaysAbove(w, 1, 1);
    assert Follows(s, t, [0, 1], 0) && MovedAlong(s, t, [0, 1]);
    assert SiftedDown(w, s, t, 0);
    SiftedDownOnce(w, s, s', t, 0);
  }

  /** The entry pushed last rises above the one that was read, and no further. */
  lemma RisesOnce(s: seq<Ref>, s': seq<Ref>)
    requires |s| == 4 && SiftedUp([0, 1, 0, 0], s, s', 3)
    ensures s' == [s[0], s[3], s[2], s[1]]
  {
    var w, t := [0, 1, 0, 0], [s[0], s[3], s[2], s[1]];
    assert StepsUp(w, [3, 1], 0) && UpPath(w, 3, [3, 1]);
    assert StaysBelow(w, 1, 0);
    assert Follows(s, t, [3, 1], 0) && MovedAlong(s, t, [3, 1]);
    assert SiftedUp(w, s, t, 3);
    SiftedUpOnce(w, s, s', t, 3);
  }

  /** Of three paths the first has been read, and the second is at the root. */
  ghost predicate OneRead(k: Core, ps: seq<Id>) {
    && |ps| == 3 && k.slots == [1, 0, 2] && k.next == 3 && |k.view| == 3 && k.items.Keys == k.view.Keys == Elems(ps)
    && 1 in k.owner && k.owner[1] == ps[1] && Weights(false, k.slots, k.store) == [0, 1, 0]
  }

  lemma ReadFirst(k: Core, k': Core, ps: seq<Id>)
    requires LinedUp(k, ps) && |ps| == 3 && TouchDone(k, k', 0, true) && |k'.view| == |k'.view.Keys|
    ensures OneRead(k', ps)
  {
    ThreeStand(k, ps);
    LeftRises(k.slots, k'.slots);
    WeightsThen(k, k', ps);
    assert k'.view.Keys == k.view.Keys;
  }

  lemma ThreeStand(k: Core, ps: seq<Id>)
    requires LinedUp(k, ps) && |ps| == 3
    ensures k.slots == [0, 1, 2] && 0 in k.store && 1 in k.store && 2 in k.store && k.store[0].index == 0
    ensures Weights(false, k.slots, Counted(k.store, 0)) == [1, 0, 0] && 1 in k.owner && k.owner[1] == ps[1]
  {
    assert StandsAt(k, 0, ps[0]) && StandsAt(k, 1, ps[1]) && StandsAt(k, 2, ps[2]);
    var c := Counted(k.store, 0);
    assert c[0].key == 1 && c[1].key == 0 && c[2].key == 0;
  }

  lemma WeightsThen(k: Core, k': Core, ps: seq<Id>)
    requires LinedUp(k, ps) && |ps| == 3 && k'.slots == [1, 0, 2] && 0 in k.store
    requires SameEntries(Counted(k.store, 0), k'.store)
    ensures Weights(false, k'.slots, k'.store) == [0, 1, 0]
  {
    assert StandsAt(k, 0, ps[0]) && StandsAt(k, 1, ps[1]) && StandsAt(k, 2, ps[2]);
    var c := Counted(k.store, 0);
    assert c[0].key == 1 && c[1].key == 0 && c[2].key == 0;
  }

  /** Then a fourth path is stored: the second makes way. */
  lemma StoreFourth(k: Core, k': Core, ps: seq<Id>, d: Id, value: Parsed)
    requires OneRead(k, ps) && PutThrough(3, k, k', d, value)
    ensures k'.view.Keys == k.view.Keys + {d} - {ps[1]}
  {
    var mid := WasFull(3, k, k', d, value);
    FourthRises(k, mid.slots);
  }

  lemma FourthRises(k: Core, slots: seq<Ref>)
    requires k.slots == [1, 0, 2] && k.next == 3 && Weights(false, k.slots, k.store) == [0, 1, 0]
    requires PushedTo(false, k.slots, k.store, k.next, 0, slots)
    ensures slots != [] && slots[0] == 1
  {
    assert Weights(false, k.slots, k.store) + [0] == [0, 1, 0, 0];
    assert k.slots + [3] == [1, 0, 2, 3];
    RisesOnce(k.slots + [3], slots);
  }

  /** In a full cache the new entry is pushed and the root then evicted. */
  lemma WasFull(max: nat, k: Core, k': Core, p: Id, value: Parsed) returns (mid: Core)
    requires |k.view| == max && PutThrough(max, k, k', p, value)
    ensures PushedTo(false, k.slots, k.store, k.next, 0, mid.slots) && mid.owner == k.owner[k.next := p]
    ensures mid.view.Keys == k.view.Keys + {p} && mid.slots != [] && mid.slots[0] in mid.owner
    ensures k'.view == mid.view - {mid.owner[mid.slots[0]]}
  {
    mid :| PutVia(max, k, mid, k', p, value);
    InsertedSizes(k, mid, p, value);
  }

  /** The actions of this run. */
  function FourPuts(a: Id, b: Id, c: Id, d: Id, r: Result, h: uint64): seq<Action> {
    [PutFile(a, r, h), PutFile(b, r, h), PutFile(c, r, h), BeginGet(0, a), TouchGet(0), ReadGet(0), PutFile(d, r, h)]
  }

  /** With room for three, `a`, `b` and `c` are stored, `a` is read and `d` is stored: `b` is evicted. */
  lemma LeftOfTheTiedGoes(a: Id, b: Id, c: Id, d: Id, r: Result, h: uint64, trace: seq<World>)
    requires a != b && b != c && a != c && d !in {a, b, c} && StageRun(3, FourPuts(a, b, c, d, r, h), trace)
    ensures trace[7].core.view.Keys == {a, c, d}
  {
    TiedRun(FourPuts(a, b, c, d, r, h), trace, [a, b, c], d, r, h);
  }

  lemma TiedRun(actions: seq<Action>, trace: seq<World>, ps: seq<Id>, d: Id, r: Result, h: uint64)
    requires StageRun(3, actions, trace) && |actions| == 7 && |ps| == 3 && Distinct(ps) && d !in ps
    requires forall i | 0 <= i < 3 :: actions[i] == PutFile(ps[i], r, h)
    requires actions[3] == BeginGet(0, ps[0]) && actions[4] == TouchGet(0) && actions[5] == ReadGet(0)
    requires actions[6] == PutFile(d, r, h)
    ensures trace[7].core.view.Keys == Elems(ps) + {d} - {ps[1]}
  {
    FirstPuts(3, actions, trace, ps, r, h, 3);
    assert ps[..3] == ps && d !in Elems(ps);
    FirstRead(actions, trace, ps);
    PutFacts(3, actions, trace, 6, d, r, h);
    StoreFourth(trace[6].core, trace[7].core, ps, d, Parsed(r, h));
  }

  /** Whatever is stored first, as long as there is room, stands in the heap in the order it was stored. */
  lemma {:induction false} FirstPuts(
    max: nat, actions: seq<Action>, trace: seq<World>, ps: seq<Id>, r: Result, h: uint64, n: nat)
    requires StageRun(max, actions, trace) && n <= |ps| <= max && |ps| <= |actions| && Distinct(ps)
    requires forall i | 0 <= i < |ps| :: actions[i] == PutFile(ps[i], r, h)
    ensures LinedUp(trace[n].core, ps[..n]) && trace[n].pending == map[]
  {
    if n == 0 {
      EmptyLinedUp(trace[0]);
    } else {
      var i := n - 1;
      FirstPuts(max, actions, trace, ps, r, h, i);
      PutNext(max, actions, trace, ps, r, h, i);
      assert LinedUp(trace[n].core, ps[..n]);
    }
  }

  lemma PutNext(max: nat, actions: seq<Action>, trace: seq<World>, ps: seq<Id>, r: Result, h: uint64, i: nat)
    requires StageRun(max, actions, trace) && i < |ps| <= max && |ps| <= |actions| && Distinct(ps)
    requires actions[i] == PutFile(ps[i], r, h) && LinedUp(trace[i].core, ps[..i])
    ensures LinedUp(trace[i + 1].core, ps[..i + 1]) && trace[i + 1].pending == trace[i].pending
  {
    assert ps[i] !in ps[..i] && ps[..i + 1] == ps[..i] + [ps[i]];
    assert ps[i] !in Elems(ps[..i]);
    PutFacts(max, actions, trace, i, ps[i], r, h);
    LineUp(max, trace[i].core, trace[i + 1].core, ps[..i], ps[i], Parsed(r, h));
  }

  lemma EmptyLinedUp(w: World)
    requires w == FirstWorld
    ensures LinedUp(w.core, []) && w.pending == map[]
  {
  }

  lemma PutFacts(max: nat, actions: seq<Action>, trace: seq<World>, i: nat, p: Id, r: Result, h: uint64)
    requires StageRun(max, actions, trace) && i < |actions| && actions[i] == PutFile(p, r, h)
    requires p !in trace[i].core.items
    ensures PutThrough(max, trace[i].core, trace[i + 1].core, p, Parsed(r, h))
    ensures Indexed(trace[i + 1].core.slots, trace[i + 1].core.store) && trace[i + 1].pending == trace[i].pending
  {
    assert StageAt(max, actions, trace, i);
    PutStage(max, trace[i], trace[i + 1], p, r, h);
  }

  lemma PutStage(max: nat, w: World, w': World, p: Id, r: Result, h: uint64)
    requires Stage(max, PutFile(p, r, h), w, w') && p !in w.core.items
    ensures PutThrough(max, w.core, w'.core, p, Parsed(r, h))
    ensures Indexed(w'.core.slots, w'.core.store) && w'.pending == w.pending
  {
  }

  lemma FirstRead(actions: seq<Action>, trace: seq<World>, ps: seq<Id>)
    requires StageRun(3, actions, trace) && |actions| >= 6 && |ps| == 3
    requires actions[3] == BeginGet(0, ps[0]) && actions[4] == TouchGet(0) && actions[5] == ReadGet(0)
    requires LinedUp(trace[3].core, ps) && trace[3].pending == map[]
    ensures OneRead(trace[6].core, ps)
  {
    assert StageAt(3, actions, trace, 3) && StageAt(3, actions, trace, 4) && StageAt(3, actions, trace, 5);
    GetStages(3, trace[3], trace[4], trace[5], trace[6], ps[0], ps);
    ReadFirst(trace[3].core, trace[6].core, ps);
  }

  lemma GetStages(max: nat, w3: World, w4: World, w5: World, w6: World, a: Id, ps: seq<Id>)
    requires LinedUp(w3.core, ps) && ps != [] && ps[0] == a && w3.pending == map[]
    requires Stage(max, BeginGet(0, a), w3, w4) && Stage(max, TouchGet(0), w4, w5) && Stage(max, ReadGet(0), w5, w6)
    ensures TouchDone(w3.core, w6.core, 0, true)
  {
    assert StandsAt(w3.core, 0, ps[0]);
    assert w4.core == w3.core && w4.pending == map[0 := Lookup(a, 0, false)];
  }
}
