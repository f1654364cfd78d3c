/** How the parse cache's map, its entries and its view fit together, and what each step keeps. */
module CacheInvariants {
  import opened Order
  import opened Edges
  import opened HeapEntries
  import opened CacheModel

  datatype Option<T> = None | Some(value: T)

  datatype Parsed = Parsed(result: Result, hash: uint64)

  /** For each entry the cache has created, the path it was created for. */
  type Owners = map<Ref, Id>

  /** The path under which the entry is cached now, if it still is. */
  function CachedAs(items: map<Id, Ref>, owner: Owners, r: Ref): Option<Id> {
    if r in owner && owner[r] in items && items[owner[r]] == r then Some(owner[r]) else None
  }

  /** What the view shows for an entry. */
  ghost predicate ShownAs(x: Item<Parsed>, c: Cached) {
    x.key >= 0 && c == Cached(x.value.result, x.value.hash, x.key)
  }

  /** The map holds exactly the entries that are in the heap, and the view is what they say. */
  ghost predicate Tied(items: map<Id, Ref>, owner: Owners, store: Store<Parsed>, view: View) {
    && owner.Keys == store.Keys && view.Keys == items.Keys
    && (forall p | p in items ::
          && items[p] in store && store[items[p]].index != -1 && owner[items[p]] == p
          && ShownAs(store[items[p]], view[p]))
    && (forall r | r in store && store[r].index != -1 :: owner[r] in items && items[owner[r]] == r)
  }

  /** The entries from before the last `Clear`: apart from the cached ones, and with the slots they had. */
  ghost predicate StaleOk(stale: Store<Parsed>, store: Store<Parsed>, next: Ref) {
    && stale.Keys !! store.Keys && FreshFrom(stale, next)
    && forall r | r in stale :: stale[r].index >= -1
  }

  /** What a client reads from an entry it has looked up. */
  function ResultOf(store: Store<Parsed>, stale: Store<Parsed>, r: Ref): Result
    requires r in store || r in stale
  {
    if r in store then store[r].value.result else stale[r].value.result
  }

  /** No entry is lost or changes its contents. */
  ghost predicate ValuesKept(store: Store<Parsed>, store': Store<Parsed>) {
    forall r | r in store :: r in store' && store'[r].value == store[r].value
  }

  /** The same, but that an entry that is cached now may have been updated. */
  ghost predicate EntriesKept(
    store: Store<Parsed>, owner: Owners, items': map<Id, Ref>, owner': Owners, store': Store<Parsed>)
  {
    && (forall r | r in owner :: r in owner' && owner'[r] == owner[r])
    && forall r | r in store ::
         r in store' && (CachedAs(items', owner', r) == None ==> store'[r].value == store[r].value)
  }

  /** `heap.Fix` at this slot does not index past a slice of `n` entries. */
  predicate SlotInRange(slot: int, n: nat) {
    slot <= 0 || slot < n
  }

  lemma MovesKeepTied(items: map<Id, Ref>, owner: Owners, store: Store<Parsed>, store': Store<Parsed>, view: View)
    requires Tied(items, owner, store, view) && SameEntries(store, store')
    ensures Tied(items, owner, store', view)
  {
  }

  /** `AccessCount++` on an entry, still cached or not. */
  function Counted(store: Store<Parsed>, r: Ref): Store<Parsed>
    requires r in store
  {
    store[r := store[r].(key := store[r].key + 1)]
  }

  ghost function ViewAfterTouch(items: map<Id, Ref>, owner: Owners, view: View, r: Ref): View {
    match CachedAs(items, owner, r)
    case None => view
    case Some(p) => Touched(view, p)
  }

  lemma TouchKeepsTied(items: map<Id, Ref>, owner: Owners, store: Store<Parsed>, view: View, r: Ref)
    requires Tied(items, owner, store, view) && r in store
    ensures Tied(items, owner, Counted(store, r), ViewAfterTouch(items, owner, view, r))
    ensures |ViewAfterTouch(items, owner, view, r)| == |view|
  {
    var view' := ViewAfterTouch(items, owner, view, r);
    assert view'.Keys == view.Keys;
    assert |view'| == |view'.Keys| && |view| == |view.Keys|;
  }

  /** The update of an entry that is already cached. */
  function Updated(store: Store<Parsed>, r: Ref, value: Parsed): Store<Parsed>
    requires r in store
  {
    store[r := store[r].(value := value, key := store[r].key + 1)]
  }

  function ViewAfterUpdate(view: View, p: Id, value: Parsed): View
    requires p in view
  {
    view[p := Cached(value.result, value.hash, view[p].count + 1)]
  }

  lemma UpdateKeepsTied(items: map<Id, Ref>, owner: Owners, store: Store<Parsed>, view: View, p: Id, value: Parsed)
    requires Tied(items, owner, store, view) && p in items
    ensures Tied(items, owner, Updated(store, items[p], value), ViewAfterUpdate(view, p, value))
    ensures |ViewAfterUpdate(view, p, value)| == |view|
  {
    var r, store', view' := items[p], Updated(store, items[p], value), ViewAfterUpdate(view, p, value);
    assert ShownAs(store[r], view[p]) && ShownAs(store'[r], view'[p]);
    forall q | q in items ensures ShownAs(store'[items[q]], view'[q]) {
      assert ShownAs(store[items[q]], view[q]) && owner[items[q]] == q;
    }
    assert view'.Keys == view.Keys;
    assert |view'| == |view'.Keys| && |view| == |view.Keys|;
  }

  lemma AddKeepsTied(
    items: map<Id, Ref>, owner: Owners, store: Store<Parsed>, view: View,
    p: Id, r: Ref, value: Parsed, store': Store<Parsed>)
    requires Tied(items, owner, store, view) && p !in items
    requires Added(store, r, value, 0, store')
    ensures Tied(items[p := r], owner[r := p], store', view[p := Cached(value.result, value.hash, 0)])
    ensures |view[p := Cached(value.result, value.hash, 0)]| == |view| + 1
  {
  }

  lemma DropKeepsTied(
    items: map<Id, Ref>, owner: Owners, store: Store<Parsed>, view: View, p: Id, store': Store<Parsed>)
    requires Tied(items, owner, store, view) && p in items
    requires SameEntries(SetIndex(store, items[p], -1), store')
    ensures Tied(items - {p}, owner, store', view - {p})
    ensures |view - {p}| == |view| - 1
  {
    assert (view - {p}).Keys == view.Keys - {p};
    assert |view - {p}| == |(view - {p}).Keys| && |view| == |view.Keys|;
  }

  /** Where the loop of `Invalidate` stands: every path outside `paths` has been decided. */
  ghost predicate Invalidated(before: View, hashes: map<Id, uint64>, paths: set<Id>, v: View, removed: nat) {
    && v.Keys <= before.Keys && paths <= v.Keys
    && (forall p | p in v :: v[p] == before[p])
    && (forall p | p in before && p !in paths :: p in v <==> p in hashes && hashes[p] == before[p].hash)
    && removed + |v| == |before|
  }

  lemma InvalidateDone(max: nat, before: View, hashes: map<Id, uint64>, v: View, removed: nat)
    requires Invalidated(before, hashes, {}, v, removed)
    ensures Step(max, before, Invalidate(hashes), v) && removed == |before| - |v|
  {
  }

  predicate UpToDate(v: View, hashes: map<Id, uint64>, p: Id)
    requires p in v
  {
    p in hashes && hashes[p] == v[p].hash
  }

  lemma InvalidateStep(before: View, hashes: map<Id, uint64>, paths: set<Id>, v: View, removed: nat, p: Id)
    requires Invalidated(before, hashes, paths, v, removed) && p in paths
    ensures UpToDate(v, hashes, p) ==> Invalidated(before, hashes, paths - {p}, v, removed)
    ensures !UpToDate(v, hashes, p) ==> Invalidated(before, hashes, paths - {p}, v - {p}, removed + 1)
  {
    assert (v - {p}).Keys == v.Keys - {p};
    assert |v - {p}| == |(v - {p}).Keys| && |v| == |v.Keys|;
  }

  lemma OwnedOnce(items: map<Id, Ref>, owner: Owners, store: Store<Parsed>, view: View, r: Ref)
    requires Tied(items, owner, store, view) && r in store && store[r].index != -1
    ensures owner[r] in items && items[owner[r]] == r
    ensures forall p | p in items && items[p] == r :: p == owner[r]
    ensures ShownAs(store[r], view[owner[r]])
  {
  }

  lemma UntouchedIsStored(items: map<Id, Ref>, owner: Owners, store: Store<Parsed>, view: View)
    requires Tied(items, owner, store, view) && HasUntouched(view)
    ensures exists r :: r in store && store[r].index != -1 && store[r].key == 0
  {
    var q :| q in view && view[q].count == 0;
    assert ShownAs(store[items[q]], view[q]);
  }

  /** Which entry is at the root once a new one, with count 0, has been pushed. */
  ghost predicate RootAfterPush(view0: View, path: Id, q: Id) {
    if HasUntouched(view0) then q in view0 && view0[q].count == 0 && q != path else q == path
  }

  lemma RootAfterPushIs(
    items0: map<Id, Ref>, owner0: Owners, store0: Store<Parsed>, view0: View, order0: seq<Ref>,
    path: Id, r: Ref, value: Parsed, store: Store<Parsed>, order: seq<Ref>)
    requires Tied(items0, owner0, store0, view0) && path !in items0 && HeapOk(false, order0, store0)
    requires Added(store0, r, value, 0, store) && HeapOk(false, order, store)
    requires order0 != [] && Weights(false, order0, store0)[0] <= 0 ==> order != [] && order[0] == order0[0]
    ensures order != [] && order[0] in store && store[order[0]].index != -1
    ensures order[0] in owner0[r := path] && RootAfterPush(view0, path, owner0[r := path][order[0]])
  {
    RootLightest(false, order, store, r);
    var root := order[0];
    assert store[root].key <= 0;
    if HasUntouched(view0) {
      UntouchedIsStored(items0, owner0, store0, view0);
      var u :| u in store0 && store0[u].index != -1 && store0[u].key == 0;
      RootLightest(false, order0, store0, u);
      assert root == order0[0];
      OwnedOnce(items0, owner0, store0, view0, root);
    } else if root != r {
      assert store0[root].key == store[root].key && store0[root].index != -1;
      OwnedOnce(items0, owner0, store0, view0, root);
    }
  }

  /** A new entry was pushed and nothing evicted yet. */
  ghost predicate JustInserted(view0: View, path: Id, value: Parsed, owner: Owners, order: seq<Ref>, view: View) {
    && path !in view0 && |view| == |view0| + 1 && |order| == |view|
    && view == view0[path := Cached(value.result, value.hash, 0)]
    && order[0] in owner && RootAfterPush(view0, path, owner[order[0]])
  }

  lemma EvictStep(max: nat, view0: View, path: Id, value: Parsed, owner: Owners, order: seq<Ref>, view: View)
    requires JustInserted(view0, path, value, owner, order, view) && |order| > max >= |view0|
    ensures PutStep(max, view0, path, value.result, value.hash, view - {owner[order[0]]})
  {
    if !HasUntouched(view0) {
      assert view - {path} == view0;
    }
  }

  // --- all of the cache's variables -------------------------------------------------------

  /** The values of the cache's and the heap's variables. */
  datatype Core = Core(
    items: map<Id, Ref>, owner: Owners, stale: Store<Parsed>, view: View,
    slots: seq<Ref>, store: Store<Parsed>, next: Ref)

  function EmptyCore(next: Ref): Core {
    Core(map[], map[], map[], map[], [], map[], next)
  }

  /** Map, heap and entries agree with each other and with the view. */
  ghost predicate CacheOk(c: Core) {
    && HeapOk(false, c.slots, c.store) && FreshFrom(c.store, c.next)
    && Tied(c.items, c.owner, c.store, c.view)
    && |c.slots| == |c.view|
    && StaleOk(c.stale, c.store, c.next)
  }

  /** No entry is created, forgotten or rewritten, and none from before the last `Clear` is touched. */
  ghost predicate Settled(c: Core, c': Core) {
    && c'.owner == c.owner && c'.stale == c.stale && c'.next == c.next
    && c'.store.Keys == c.store.Keys && ValuesKept(c.store, c'.store)
  }

  lemma SettledThen(a: Core, b: Core, c: Core)
    requires Settled(a, b) && Settled(b, c)
    ensures Settled(a, c)
  {
  }

  /**
   The effect of a touch. On an entry created since the last `Clear` it is an access to the path the
   entry is still cached under, if any. An older entry leaves the cache as it was, and the program
   panics unless the entry's old slot is at most 0 or one of the heap slice's.
   */
  ghost predicate TouchDone(c: Core, c': Core, r: Ref, inRange: bool) {
    && c'.items == c.items && c'.owner == c.owner && c'.next == c.next
    && c'.store.Keys == c.store.Keys && c'.stale.Keys == c.stale.Keys
    && ValuesKept(c.store, c'.store) && ValuesKept(c.stale, c'.stale)
    && (forall x | x in c.stale && x in c'.stale :: c'.stale[x].index == c.stale[x].index)
    && (r in c.store ==> inRange && c'.stale == c.stale && c'.view == ViewAfterTouch(c.items, c.owner, c.view, r))
    && (r in c.store ==>
          && SameEntries(Counted(c.store, r), c'.store)
          && FixedTo(false, c.slots, Counted(c.store, r), c.store[r].index, c'.slots))
    && (r in c.stale ==> (inRange <==> SlotInRange(c.stale[r].index, |c.view|)))
    && (r in c.stale ==> c'.view == c.view && c'.slots == c.slots && c'.store == c.store)
  }

  /** The effect of `Clear`: the entries stay with whoever holds them, with the slots they had. */
  function Cleared(c: Core): Core {
    EmptyCore(c.next).(stale := c.stale + c.store)
  }

  /** The effect of `Put`; which entry is evicted is decided by the heap. */
  ghost predicate PutDone(max: nat, c: Core, c': Core, p: Id, value: Parsed) {
    && PutStep(max, c.view, p, value.result, value.hash, c'.view)
    && EntriesKept(c.store, c.owner, c'.items, c'.owner, c'.store) && c'.stale == c.stale
    && if p in c.items then UpdatedTo(c, c', p, value) else PutThrough(max, c, c', p, value)
  }

  ghost predicate PutThrough(max: nat, c: Core, c': Core, p: Id, value: Parsed) {
    exists mid :: PutVia(max, c, mid, c', p, value)
  }

  /** The entry stays and settles under its new count. */
  ghost predicate UpdatedTo(c: Core, c': Core, p: Id, value: Parsed) {
    && p in c.items && c.items[p] in c.store && c'.items == c.items && c'.owner == c.owner
    && FixedTo(false, c.slots, Updated(c.store, c.items[p], value), c.store[c.items[p]].index, c'.slots)
  }

  /** A new entry is pushed, and if there are too many now the root is evicted. */
  ghost predicate PutVia(max: nat, c: Core, mid: Core, c': Core, p: Id, value: Parsed) {
    Inserted(c, mid, p, value) && if |mid.slots| > max then Evicted(mid, c') else c' == mid
  }

  /** The effect of `Put` on a path that is not cached, before evicting. */
  ghost predicate Inserted(c: Core, c': Core, p: Id, value: Parsed) {
    && JustInserted(c.view, p, value, c'.owner, c'.slots, c'.view)
    && (forall r | r in c.owner :: r in c'.owner && c'.owner[r] == c.owner[r])
    && ValuesKept(c.store, c'.store) && c'.stale == c.stale
    && p !in c.items && c'.items == c.items[p := c.next] && c'.owner == c.owner[c.next := p] && c'.next == c.next + 1
    && Added(c.store, c.next, value, 0, c'.store) && PushedTo(false, c.slots, c.store, c.next, 0, c'.slots)
  }

  /** The effect of evicting the root. */
  ghost predicate Evicted(c: Core, c': Core) {
    && c.slots != [] && c.slots[0] in c.owner && |c'.slots| == |c.slots| - 1
    && c'.view == c.view - {c.owner[c.slots[0]]} && Settled(c, c')
    && c'.items == c.items - {c.owner[c.slots[0]]} && RemovedTo(false, c.slots, c.store, 0, c'.slots)
  }

  /** The effect of deleting one path: its entry leaves its slot. */
  ghost predicate DroppedAt(c: Core, c': Core, p: Id) {
    && p in c.items && c.items[p] in c.store && c.store[c.items[p]].index >= 0 && c'.items == c.items - {p}
    && RemovedTo(false, c.slots, c.store, c.store[c.items[p]].index, c'.slots)
  }

  /** The paths are deleted one after the other, in some order. */
  ghost predicate DroppedInTurn(c: Core, c': Core) {
    exists trace, paths :: DropTrace(c, c', trace, paths)
  }

  ghost predicate DropTrace(c: Core, c': Core, trace: seq<Core>, paths: seq<Id>) {
    && |trace| == |paths| + 1 && trace[0] == c && trace[|paths|] == c'
    && forall k | 0 <= k < |paths| :: DroppedAt(trace[k], trace[k + 1], paths[k])
  }

  lemma NothingDropped(c: Core)
    ensures DroppedInTurn(c, c)
  {
    assert DropTrace(c, c, [c], []);
  }

  lemma OneMoreDropped(c: Core, c1: Core, c': Core, p: Id)
    requires DroppedInTurn(c, c1) && DroppedAt(c1, c', p)
    ensures DroppedInTurn(c, c')
  {
    var trace, paths :| DropTrace(c, c1, trace, paths);
    var longer, more := trace + [c'], paths + [p];
    forall k | 0 <= k < |more| ensures DroppedAt(longer[k], longer[k + 1], more[k]) {
      if k < |paths| { assert DroppedAt(trace[k], trace[k + 1], paths[k]); }
    }
    assert DropTrace(c, c', longer, more);
  }

  /** The loop of `Put`: what is left to do depends on the size alone. */
  ghost predicate Evicting(max: nat, c0: Core, c: Core, p: Id, value: Parsed) {
    if |c.slots| > max then Inserted(c0, c, p, value) else PutDone(max, c0, c, p, value)
  }

  lemma EvictingStart(max: nat, c0: Core, c: Core, p: Id, value: Parsed)
    requires Inserted(c0, c, p, value)
    ensures Evicting(max, c0, c, p, value)
  {
    if |c.slots| <= max { assert PutVia(max, c0, c, c, p, value); }
  }

  lemma EvictingStep(max: nat, c0: Core, c: Core, c': Core, p: Id, value: Parsed)
    requires Evicting(max, c0, c, p, value) && |c.slots| > max >= |c0.view| && Evicted(c, c')
    ensures Evicting(max, c0, c', p, value)
  {
    EvictStep(max, c0.view, p, value, c.owner, c.slots, c.view);
    assert PutVia(max, c0, c, c', p, value);
  }

  lemma EvictingEnd(max: nat, c0: Core, c: Core, p: Id, value: Parsed)
    requires Evicting(max, c0, c, p, value) && |c.slots| <= max && CacheOk(c)
    ensures PutDone(max, c0, c, p, value) && |c.view| <= max
  {
  }

  lemma BeforeTouch(c: Core, r: Ref)
    requires CacheOk(c) && r in c.store
    ensures ChangedAt(c.store, Counted(c.store, r), c.store[r].index) && c.store[r].index >= -1
    ensures HeapOk(false, c.slots, c.store) && FreshFrom(Counted(c.store, r), c.next)
  {
  }

  lemma AfterTouch(c: Core, r: Ref, slots: seq<Ref>, store: Store<Parsed>)
    requires CacheOk(c) && r in c.store
    requires HeapOk(false, slots, store) && |slots| == |c.slots| && SameEntries(Counted(c.store, r), store)
    requires FixedTo(false, c.slots, Counted(c.store, r), c.store[r].index, slots)
    ensures var c' := c.(view := ViewAfterTouch(c.items, c.owner, c.view, r), slots := slots, store := store);
            CacheOk(c') && TouchDone(c, c', r, true) && |c'.view| == |c.view|
  {
    TouchKeepsTied(c.items, c.owner, c.store, c.view, r);
    MovesKeepTied(c.items, c.owner, Counted(c.store, r), store, ViewAfterTouch(c.items, c.owner, c.view, r));
  }

  lemma AfterStaleTouch(c: Core, r: Ref)
    requires CacheOk(c) && r in c.stale
    ensures var c' := c.(stale := Counted(c.stale, r));
            CacheOk(c') && TouchDone(c, c', r, SlotInRange(c.stale[r].index, |c.slots|))
    ensures c.stale[r].index >= -1 && HeapOk(false, c.slots, c.store) && ChangedAt(c.store, c.store, c.stale[r].index)
    ensures FreshFrom(c.store, c.next)
  {
  }

  /** A whole `Get` that finds its path. */
  lemma TouchIsAccess(max: nat, c: Core, c': Core, p: Id)
    requires CacheOk(c) && p in c.items && TouchDone(c, c', c.items[p], true)
    ensures p in c.view && Step(max, c.view, Get(p), c'.view)
    ensures c.items[p] in c'.store && ResultOf(c'.store, c'.stale, c.items[p]) == c.view[p].result
  {
    assert ShownAs(c.store[c.items[p]], c.view[p]);
  }

  lemma BeforeUpdate(c: Core, p: Id, value: Parsed)
    requires CacheOk(c) && p in c.items
    ensures c.items[p] in c.store && p in c.view && c.store[c.items[p]].index >= -1
    ensures ChangedAt(c.store, Updated(c.store, c.items[p], value), c.store[c.items[p]].index)
    ensures HeapOk(false, c.slots, c.store) && FreshFrom(Updated(c.store, c.items[p], value), c.next)
  {
  }

  lemma AfterUpdate(max: nat, c: Core, p: Id, value: Parsed, slots: seq<Ref>, store: Store<Parsed>)
    requires CacheOk(c) && p in c.items && p in c.view && c.items[p] in c.store
    requires HeapOk(false, slots, store) && |slots| == |c.slots|
    requires SameEntries(Updated(c.store, c.items[p], value), store)
    requires FixedTo(false, c.slots, Updated(c.store, c.items[p], value), c.store[c.items[p]].index, slots)
    ensures var c' := c.(view := ViewAfterUpdate(c.view, p, value), slots := slots, store := store);
            CacheOk(c') && PutDone(max, c, c', p, value) && |c'.view| == |c.view|
  {
    UpdateKeepsTied(c.items, c.owner, c.store, c.view, p, value);
    MovesKeepTied(c.items, c.owner, Updated(c.store, c.items[p], value), store, ViewAfterUpdate(c.view, p, value));
  }

  lemma AfterInsert(c: Core, p: Id, r: Ref, value: Parsed, slots: seq<Ref>, store: Store<Parsed>)
    requires CacheOk(c) && p !in c.items && r == c.next
    requires Added(c.store, r, value, 0, store) && HeapOk(false, slots, store) && |slots| == |c.slots| + 1
    requires FreshFrom(store, r + 1) && PushedTo(false, c.slots, c.store, r, 0, slots)
    requires c.slots != [] && Weights(false, c.slots, c.store)[0] <= 0 ==> slots != [] && slots[0] == c.slots[0]
    ensures var view := c.view[p := Cached(value.result, value.hash, 0)];
            var c' := Core(c.items[p := r], c.owner[r := p], c.stale, view, slots, store, r + 1);
            CacheOk(c') && Inserted(c, c', p, value)
  {
    AddKeepsTied(c.items, c.owner, c.store, c.view, p, r, value, store);
    RootAfterPushIs(c.items, c.owner, c.store, c.view, c.slots, p, r, value, store, slots);
  }

  lemma BeforeDrop(c: Core, p: Id)
    requires CacheOk(c) && p in c.items
    ensures c.items[p] in c.store && p in c.view
    ensures 0 <= c.store[c.items[p]].index < |c.slots| && c.slots[c.store[c.items[p]].index] == c.items[p]
    ensures c.store[c.items[p]].value.hash == c.view[p].hash
  {
    assert ShownAs(c.store[c.items[p]], c.view[p]);
  }

  function Dropped(c: Core, p: Id, slots: seq<Ref>, store: Store<Parsed>): Core {
    c.(items := c.items - {p}, view := c.view - {p}, slots := slots, store := store)
  }

  lemma AfterDrop(c: Core, p: Id, slots: seq<Ref>, store: Store<Parsed>)
    requires CacheOk(c) && p in c.items && c.items[p] in c.store
    requires HeapOk(false, slots, store) && |slots| == |c.slots| - 1
    requires SameEntries(SetIndex(c.store, c.items[p], -1), store)
    ensures var c' := Dropped(c, p, slots, store);
            CacheOk(c') && Settled(c, c') && |c'.view| == |c.view| - 1
  {
    DropKeepsTied(c.items, c.owner, c.store, c.view, p, store);
  }

  /** The invariant of the loop of `Invalidate`. */
  ghost predicate Invalidating(c0: Core, hashes: map<Id, uint64>, paths: set<Id>, c: Core, removed: nat) {
    Settled(c0, c) && Invalidated(c0.view, hashes, paths, c.view, removed) && DroppedInTurn(c0, c)
  }

  lemma InvalidatingStep(
    c0: Core, hashes: map<Id, uint64>, paths: set<Id>, c: Core, removed: nat, p: Id, c': Core, removed': nat)
    requires Invalidating(c0, hashes, paths, c, removed) && p in paths && Settled(c, c')
    requires UpToDate(c.view, hashes, p) ==> c' == c && removed' == removed
    requires !UpToDate(c.view, hashes, p) ==>
               c'.view == c.view - {p} && removed' == removed + 1 && DroppedAt(c, c', p)
    ensures Invalidating(c0, hashes, paths - {p}, c', removed')
  {
    InvalidateStep(c0.view, hashes, paths, c.view, removed, p);
    if !UpToDate(c.view, hashes, p) { OneMoreDropped(c0, c, c', p); }
    SettledThen(c0, c, c');
  }

  /** The root belongs to exactly one path. */
  lemma BeforeEvict(c: Core)
    requires CacheOk(c) && c.slots != []
    ensures var root := c.slots[0];
            && root in c.owner && c.owner[root] in c.items && c.items[c.owner[root]] == root
            && c.slots[0] in c.store
            && forall p | p in c.items && c.items[p] == root :: p == c.owner[root]
  {
    OwnedOnce(c.items, c.owner, c.store, c.view, c.slots[0]);
  }

  lemma StaleAfterClear(stale: Store<Parsed>, store: Store<Parsed>, slots: seq<Ref>, next: Ref)
    requires StaleOk(stale, store, next) && Indexed(slots, store) && FreshFrom(store, next)
    ensures StaleOk(stale + store, map[], next)
  {
    forall r | r in stale + store ensures r < next && (stale + store)[r].index >= -1 {
      if r in store { assert store[r].index == -1 || Placed(slots, store, r); }
    }
  }

  lemma AfterClear(c: Core)
    requires CacheOk(c)
    ensures CacheOk(Cleared(c))
  {
    StaleAfterClear(c.stale, c.store, c.slots, c.next);
  }
}
