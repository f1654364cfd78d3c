/**
 When a touch indexes past the heap slice: its entry is from before a `Clear` that found two paths
 cached, and was not the root of the heap then.
 */
module CachePanics {
  import opened Order
  import opened Edges
  import opened HeapPaths
  import opened HeapEntries
  import opened CacheModel
  import opened CacheInvariants
  import opened CacheActions
  import opened CacheStages
  import opened CacheRuns
  import opened CacheLists

  /** No entry from before a `Clear` says a slot above the root's. */
  ghost predicate StaleLow(c: Core) {
    forall r | r in c.stale :: c.stale[r].index <= 0
  }

  lemma StageStale(max: nat, a: Action, w: World, w': World)
    requires CacheOk(w.core) && Stage(max, a, w, w') && a != ClearAll && StaleLow(w.core)
    ensures StaleLow(w'.core)
  {
  }

  lemma ClearStale(max: nat, w: World, w': World)
    requires CacheOk(w.core) && Stage(max, ClearAll, w, w') && |w.core.view| <= 1 && StaleLow(w.core)
    ensures StaleLow(w'.core)
  {
    OneSlotLow(w.core.slots, w.core.store);
  }

  lemma OneSlotLow(slots: seq<Ref>, store: Store<Parsed>)
    requires Indexed(slots, store) && |slots| <= 1
    ensures forall r | r in store :: store[r].index <= 0
  {
    forall r | r in store ensures store[r].index <= 0 {
      assert store[r].index == -1 || Placed(slots, store, r);
    }
  }

  ghost predicate Goes(max: nat, a: Action, w: World, w': World) {
    Stage(max, a, w, w')
  }

  /** Every `Clear` of the run finds at most one path cached. */
  ghost predicate SmallClears(actions: seq<Action>, trace: seq<World>)
    requires |actions| <= |trace|
  {
    forall i | 0 <= i < |actions| && actions[i] == ClearAll :: |trace[i].core.view| <= 1
  }

  lemma {:induction false} SmallClearsKeepLow(max: nat, actions: seq<Action>, trace: seq<World>, n: nat)
    requires StageRun(max, actions, trace) && n <= |actions| && SmallClears(actions, trace)
    ensures StaleLow(trace[n].core)
  {
    if n > 0 {
      SmallClearsKeepLow(max, actions, trace, n - 1);
      LowStays(max, actions, trace, n - 1);
    }
  }

  lemma LowStays(max: nat, actions: seq<Action>, trace: seq<World>, i: nat)
    requires StageRun(max, actions, trace) && i < |actions|
    requires StaleLow(trace[i].core) && (actions[i] == ClearAll ==> |trace[i].core.view| <= 1)
    ensures StaleLow(trace[i + 1].core)
  {
    RunKeepsOk(max, actions, trace, i);
    assert StageAt(max, actions, trace, i);
    LowAfter(max, actions[i], trace[i], trace[i + 1]);
  }

  lemma LowAfter(max: nat, a: Action, w: World, w': World)
    requires WorldOk(w) && Stage(max, a, w, w') && StaleLow(w.core) && (a == ClearAll ==> |w.core.view| <= 1)
    ensures StaleLow(w'.core)
  {
    if a == ClearAll {
      ClearStale(max, w, w');
    } else {
      StageStale(max, a, w, w');
    }
  }

  /** A run in which no `Clear` finds two paths cached never comes to a panic, whatever is done next. */
  lemma SmallClearsNeverPanic(max: nat, actions: seq<Action>, trace: seq<World>, a: Action)
    requires StageRun(max, actions, trace) && SmallClears(actions, trace)
    ensures !Panics(a, trace[|actions|])
  {
    SmallClearsKeepLow(max, actions, trace, |actions|);
  }

  /** So all of a list of actions is carried out if there is no `Clear` among them. */
  lemma WithoutClearAllIsDone(max: nat, actions: seq<Action>, trace: seq<World>, now: World)
    requires CarriedOut(max, actions, trace, now) && ClearAll !in actions
    ensures StageRun(max, actions, trace)
  {
    if |trace| <= |actions| {
      SmallClearsNeverPanic(max, actions[..|trace| - 1], trace, actions[|trace| - 1]);
    } else {
      assert actions[..|actions|] == actions;
    }
  }

  lemma {:induction false} NewClient(clients: set<nat>) returns (n: nat)
    ensures forall k | k in clients :: k < n
  {
    n := 0;
    if clients != {} {
      var k :| k in clients;
      var m := NewClient(clients - {k});
      n := if m > k then m else k + 1;
      assert forall x | x in clients :: x == k || x in clients - {k};
    }
  }

  /** A client looks up the path in slot 1, and the cache is cleared: its touch will panic. */
  lemma ClearUnderGet(max: nat, w: World, client: nat) returns (path: Id, w1: World, w2: World)
    requires WorldOk(w) && |w.core.view| >= 2 && client !in w.pending
    ensures Goes(max, BeginGet(client, path), w, w1) && Goes(max, ClearAll, w1, w2)
    ensures Panics(TouchGet(client), w2)
  {
    var item := w.core.slots[1];
    OwnedOnce(w.core.items, w.core.owner, w.core.store, w.core.view, item);
    path := w.core.owner[item];
    w1 := w.(pending := w.pending[client := Lookup(path, item, false)]);
    w2 := w1.(core := Cleared(w.core));
    LooksUp(max, w, client, path);
    IsCleared(max, w1);
  }

  lemma LooksUp(max: nat, w: World, client: nat, path: Id)
    requires path in w.core.items && client !in w.pending
    ensures Goes(max, BeginGet(client, path), w,
                 w.(pending := w.pending[client := Lookup(path, w.core.items[path], false)]))
  {
  }

  lemma IsCleared(max: nat, w: World)
    requires CacheOk(w.core)
    ensures Stage(max, ClearAll, w, w.(core := Cleared(w.core)))
  {
    AfterClear(w.core);
  }

  /** Wherever two paths are cached, the run can go on so that it comes to a panic. */
  lemma CanPanic(max: nat, actions: seq<Action>, trace: seq<World>) returns (client: nat, path: Id, more: seq<World>)
    requires StageRun(max, actions, trace) && |trace[|actions|].core.view| >= 2
    ensures StageRun(max, actions + [BeginGet(client, path), ClearAll], more) && trace <= more
    ensures Panics(TouchGet(client), more[|actions| + 2])
  {
    var w := trace[|actions|];
    RunKeepsOk(max, actions, trace, |actions|);
    client := NewClient(w.pending.Keys);
    var w1, w2;
    path, w1, w2 := ClearUnderGet(max, w, client);
    more := trace + [w1] + [w2];
    RunAppendTwo(max, actions, trace, BeginGet(client, path), w1, ClearAll, w2);
  }

  lemma RunAppendTwo(max: nat, actions: seq<Action>, trace: seq<World>, a: Action, w: World, b: Action, w': World)
    requires StageRun(max, actions, trace) && !a.TouchGet? && !b.TouchGet?
    requires Goes(max, a, trace[|actions|], w) && Goes(max, b, w, w')
    ensures StageRun(max, actions + [a, b], trace + [w] + [w'])
  {
    RunAppend(max, actions, trace, a, trace[|actions|], w);
    RunAppend(max, actions + [a], trace + [w], b, w, w');
    assert actions + [a] + [b] == actions + [a, b];
  }

  /** Some run of a cache of this size comes to a panic. */
  ghost predicate MayPanic(max: nat) {
    exists actions, trace, a :: StageRun(max, actions, trace) && Panics(a, trace[|actions|])
  }

  /** It can happen exactly in a cache that has room for two. */
  lemma MayPanicIff(max: nat)
    ensures MayPanic(max) <==> max >= 2
  {
    if actions, trace: seq<World>, a :| StageRun(max, actions, trace) && Panics(a, trace[|actions|]) {
      if max < 2 {
        InterleavingIsModelRun(max, actions, trace);
        forall i | 0 <= i < |actions| ensures |trace[i].core.view| <= 1 {
          SizeBounded(max, Ops(actions, trace), Views(trace), i);
        }
        SmallClearsNeverPanic(max, actions, trace, a);
      }
    }
    if max >= 2 {
      SomeRunPanics(max);
    }
  }

  lemma SomeRunPanics(max: nat)
    requires max >= 2
    ensures MayPanic(max)
  {
    var before, trace := TwoCached(max);
    var client, path, more := CanPanic(max, before, trace);
    var actions := before + [BeginGet(client, path), ClearAll];
    assert StageRun(max, actions, more) && Panics(TouchGet(client), more[|actions|]);
  }

  /** A cache after one and after two `Put`s. */
  const OneFilled := Core(
    map["p" := 0], map[0 := "p"], map[], map["p" := Cached(0, 0, 0)],
    [0], map[0 := Item(Parsed(0, 0), 0, 0)], 1)

  const TwoFilled := Core(
    map["p" := 0, "q" := 1], map[0 := "p", 1 := "q"], map[], map["p" := Cached(0, 0, 0), "q" := Cached(0, 0, 0)],
    [0, 1], map[0 := Item(Parsed(0, 0), 0, 0), 1 := Item(Parsed(0, 0), 0, 1)], 2)

  lemma OneFilledOk()
    ensures CacheOk(OneFilled) && |OneFilled.view| == 1
  {
    assert |OneFilled.view| == |OneFilled.view.Keys| && OneFilled.view.Keys == {"p"};
    assert HeapOk(false, OneFilled.slots, OneFilled.store);
  }

  lemma TwoFilledOk()
    ensures CacheOk(TwoFilled) && |TwoFilled.view| == 2
  {
    assert |TwoFilled.view| == |TwoFilled.view.Keys| && TwoFilled.view.Keys == {"p", "q"};
    TwoFilledHeap();
    TwoFilledTied();
  }

  lemma TwoFilledHeap()
    ensures HeapOk(false, TwoFilled.slots, TwoFilled.store)
  {
  }

  lemma TwoFilledTied()
    ensures Tied(TwoFilled.items, TwoFilled.owner, TwoFilled.store, TwoFilled.view)
  {
  }

  lemma FirstFilled(max: nat)
    requires max >= 1
    ensures PutDone(max, EmptyCore(0), OneFilled, "p", Parsed(0, 0))
  {
    OneFilledOk();
    assert !HasUntouched(EmptyCore(0).view);
    var w := Weights(false, EmptyCore(0).slots, EmptyCore(0).store) + [0];
    StaysPut(w, [0], 0);
    assert [] + [0] == [0];
    assert PutVia(max, EmptyCore(0), OneFilled, OneFilled, "p", Parsed(0, 0));
  }

  lemma SecondPushed()
    ensures PushedTo(false, OneFilled.slots, OneFilled.store, 1, 0, TwoFilled.slots)
  {
    var w := Weights(false, OneFilled.slots, OneFilled.store) + [0];
    StaysPut(w, [0, 1], 1);
    assert [0] + [1] == [0, 1];
  }

  lemma SecondFilled(max: nat)
    requires max >= 2
    ensures PutDone(max, OneFilled, TwoFilled, "q", Parsed(0, 0))
  {
    OneFilledOk();
    TwoFilledOk();
    assert OneFilled.view["p"].count == 0 && HasUntouched(OneFilled.view);
    SecondPushed();
    assert PutVia(max, OneFilled, TwoFilled, TwoFilled, "q", Parsed(0, 0));
  }

  lemma TwoCached(max: nat) returns (actions: seq<Action>, trace: seq<World>)
    requires max >= 2
    ensures StageRun(max, actions, trace) && |trace[|actions|].core.view| == 2
  {
    var w1, w2 := FirstWorld.(core := OneFilled), FirstWorld.(core := TwoFilled);
    var a, b := PutFile("p", 0, 0), PutFile("q", 0, 0);
    FilledStages(max, w1, w2);
    RunStart(max);
    RunAppendTwo(max, [], [FirstWorld], a, w1, b, w2);
    actions, trace := [] + [a, b], [FirstWorld] + [w1] + [w2];
  }

  lemma FilledStages(max: nat, w1: World, w2: World)
    requires max >= 2 && w1 == FirstWorld.(core := OneFilled) && w2 == FirstWorld.(core := TwoFilled)
    ensures Stage(max, PutFile("p", 0, 0), FirstWorld, w1) && Stage(max, PutFile("q", 0, 0), w1, w2)
    ensures |w2.core.view| == 2
  {
    FirstFilled(max);
    SecondFilled(max);
    OneFilledOk();
    TwoFilledOk();
  }

  // --- the failing input ------------------------------------------------------------------

  /**
   `p` and `q` are stored and looked up, and the cache is cleared. The `Get` of `p` goes on and
   leaves the empty cache as it is; the one of `q`, whose entry was in slot 1, panics.
   */
  function ClearBetween(p: Id, q: Id, r: Result, h: uint64): seq<Action> {
    [PutFile(p, r, h), PutFile(q, r, h), BeginGet(0, p), BeginGet(1, q), ClearAll, TouchGet(0), TouchGet(1)]
  }

  /** Whoever carries these actions out gets up to the last one, and it panics. */
  lemma ClearBetweenStages(max: nat, p: Id, q: Id, r: Result, h: uint64, trace: seq<World>, now: World)
    requires max >= 2 && p != q && CarriedOut(max, ClearBetween(p, q, r, h), trace, now)
    ensures |trace| == 7 && Panics(TouchGet(1), trace[6])
  {
    if |trace| == 8 {
      var actions := ClearBetween(p, q, r, h);
      assert StageAt(max, actions[..7], trace, 6);
      RunPrefix(max, actions, trace, 6);
      PanicsAtTheLast(max, p, q, r, h, 6, trace[..7]);
    } else {
      PanicsAtTheLast(max, p, q, r, h, |trace| - 1, trace);
    }
  }

  lemma RunPrefix(max: nat, actions: seq<Action>, trace: seq<World>, n: nat)
    requires n + 1 < |trace| == |actions| + 1 && StageRun(max, actions[..n + 1], trace)
    ensures StageRun(max, actions[..n], trace[..n + 1])
  {
    var all, some, there := actions[..n + 1], actions[..n], trace[..n + 1];
    forall i | 0 <= i < n ensures StageAt(max, some, there, i) {
      assert StageAt(max, all, trace, i);
      SameStage(max, all, trace, some, there, i);
    }
  }

  /** Every run of a prefix of these actions can go on up to the last one. */
  lemma PanicsAtTheLast(max: nat, p: Id, q: Id, r: Result, h: uint64, n: nat, trace: seq<World>)
    requires max >= 2 && p != q && n < 7 && StageRun(max, ClearBetween(p, q, r, h)[..n], trace)
    ensures Panics(ClearBetween(p, q, r, h)[n], trace[n]) <==> n == 6
  {
    var actions := ClearBetween(p, q, r, h);
    if n >= 5 {
      BothLookedUp(max, p, q, r, h, n, trace);
    }
    if n == 6 {
      RunStageOf(max, actions, n, trace, 5, TouchGet(0), trace[5], trace[6]);
      StillStale(max, trace[5], trace[6]);
    }
  }

  lemma BothLookedUp(max: nat, p: Id, q: Id, r: Result, h: uint64, n: nat, trace: seq<World>)
    requires max >= 2 && p != q && 5 <= n < 7 && StageRun(max, ClearBetween(p, q, r, h)[..n], trace)
    ensures HoldsStale(trace[5], 0, 0) && HoldsStale(trace[5], 1, 1) && trace[5].core.view == map[]
  {
    AfterPuts(max, p, q, r, h, n, trace);
    var actions := ClearBetween(p, q, r, h);
    RunStageOf(max, actions, n, trace, 2, BeginGet(0, p), trace[2], trace[3]);
    RunStageOf(max, actions, n, trace, 3, BeginGet(1, q), trace[3], trace[4]);
    RunStageOf(max, actions, n, trace, 4, ClearAll, trace[4], trace[5]);
    BothStale(max, p, q, trace[2], trace[3], trace[4], trace[5]);
  }

  lemma AfterPuts(max: nat, p: Id, q: Id, r: Result, h: uint64, n: nat, trace: seq<World>)
    requires max >= 2 && p != q && 5 <= n < 7 && StageRun(max, ClearBetween(p, q, r, h)[..n], trace)
    ensures StoredAt(trace[2].core, p, 0) && StoredAt(trace[2].core, q, 1) && trace[2].pending == map[]
  {
    var actions := ClearBetween(p, q, r, h);
    RunStageOf(max, actions, n, trace, 0, PutFile(p, r, h), trace[0], trace[1]);
    RunStageOf(max, actions, n, trace, 1, PutFile(q, r, h), trace[1], trace[2]);
    TwoPut(max, p, q, r, h, trace[0], trace[1], trace[2]);
  }

  lemma RunStageOf(max: nat, actions: seq<Action>, n: nat, trace: seq<World>, i: nat, a: Action, w: World, w': World)
    requires n <= |actions| && StageRun(max, actions[..n], trace) && i < n && a == actions[i]
    requires w == trace[i] && w' == trace[i + 1]
    ensures Goes(max, a, w, w')
  {
    assert StageAt(max, actions[..n], trace, i);
  }

  lemma TwoPut(max: nat, p: Id, q: Id, r: Result, h: uint64, w0: World, w1: World, w2: World)
    requires max >= 2 && p != q && w0.core.view == map[] && w0.pending == map[]
    requires Goes(max, PutFile(p, r, h), w0, w1) && Goes(max, PutFile(q, r, h), w1, w2)
    ensures StoredAt(w2.core, p, 0) && StoredAt(w2.core, q, 1) && w2.pending == map[]
  {
    TwoStored(max, w0.core, w1.core, w2.core, p, q, Parsed(r, h));
  }

  lemma BothStale(max: nat, p: Id, q: Id, w2: World, w3: World, w4: World, w5: World)
    requires StoredAt(w2.core, p, 0) && StoredAt(w2.core, q, 1) && w2.pending == map[]
    requires Goes(max, BeginGet(0, p), w2, w3) && Goes(max, BeginGet(1, q), w3, w4) && Goes(max, ClearAll, w4, w5)
    ensures HoldsStale(w5, 0, 0) && HoldsStale(w5, 1, 1) && w5.core.view == map[]
  {
  }

  lemma StillStale(max: nat, w: World, w': World)
    requires HoldsStale(w, 0, 0) && HoldsStale(w, 1, 1) && w.core.view == map[] && Goes(max, TouchGet(0), w, w')
    ensures HoldsStale(w', 1, 1) && w'.core.view == map[]
  {
  }

  /** The client is about to touch an entry from before a `Clear` that was in this slot. */
  ghost predicate HoldsStale(w: World, client: nat, slot: int) {
    && client in w.pending && !w.pending[client].touched && w.pending[client].item in w.core.stale
    && w.core.stale[w.pending[client].item].index == slot
  }

  ghost predicate StoredAt(c: Core, p: Id, slot: int) {
    p in c.items && p in c.view && c.items[p] in c.store && c.store[c.items[p]].index == slot
  }

  lemma TwoStored(max: nat, c0: Core, c1: Core, c2: Core, p: Id, q: Id, value: Parsed)
    requires CacheOk(c1) && CacheOk(c2) && p != q && max >= 2
    requires c0.view == map[] && PutDone(max, c0, c1, p, value) && PutDone(max, c1, c2, q, value)
    ensures StoredAt(c2, p, 0) && StoredAt(c2, q, 1)
  {
    FirstStored(max, c0.view, c1.view, p, value);
    SecondIsBelow(c1.view, c2, p, q, value);
    OtherIsBelow(c2, p, q);
  }

  lemma FirstStored(max: nat, v: View, v': View, p: Id, value: Parsed)
    requires v == map[] && max >= 2 && PutStep(max, v, p, value.result, value.hash, v')
    ensures v'.Keys == {p} && v'[p].count == 0 && |v'| == 1
  {
    assert v' == map[p := Cached(value.result, value.hash, 0)];
    assert |v'| == |v'.Keys|;
  }

  /** A second path goes below the first in the heap. */
  lemma SecondIsBelow(v: View, c: Core, p: Id, q: Id, value: Parsed)
    requires JustInserted(v, q, value, c.owner, c.slots, c.view)
    requires |v| == 1 && v.Keys == {p} && v[p].count == 0
    ensures |c.slots| == 2 && c.slots[0] in c.owner && c.owner[c.slots[0]] == p && q in c.view && p != q
  {
    assert p in v && HasUntouched(v);
  }

  /** With two entries in the heap, the path that is not the root's is in slot 1. */
  lemma OtherIsBelow(c: Core, p: Id, q: Id)
    requires CacheOk(c) && |c.slots| == 2 && q in c.items && p != q
    requires c.slots[0] in c.owner && c.owner[c.slots[0]] == p
    ensures p in c.items && p in c.view && q in c.view && c.items[p] in c.store && c.items[q] in c.store
    ensures c.store[c.items[p]].index == 0 && c.store[c.items[q]].index == 1
  {
    BeforeEvict(c);
    BeforeDrop(c, p);
    BeforeDrop(c, q);
  }
}
