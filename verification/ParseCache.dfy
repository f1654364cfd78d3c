/**
 The parse cache: entries are shared between the path map and a heap ordered by access count,
 and know their own heap slot. `Get` is three stages, look up, touch and read, that other operations
 can come between: a client may touch an entry that has been removed, evicted or cleared meanwhile.
 */
module ParseCache {
  import opened Order
  import opened Edges
  import opened HeapEntries
  import opened IndexedHeap
  import opened CacheModel
  import opened CacheInvariants

  /** A new heap, and `heap.Init`. */
  method EmptyHeap(nextRef: Ref) returns (h: Heap<Parsed>)
    ensures fresh(h) && !h.maxFirst && h.items == [] && h.store == map[] && h.nextRef == nextRef
  {
    h := new Heap(false, nextRef);
    h.Init();
    assert h.store.Keys == {};
  }

  class ParseCache {
    var items: map<Id, Ref>
    var order: Heap<Parsed>
    const maxSize: nat
    var hits: nat
    var misses: nat
    /** The entries created before the last `Clear`, which only clients still hold. */
    var stale: Store<Parsed>
    ghost var owner: Owners
    /** What is cached, by path. */
    ghost var view: View

    ghost function Now(): Core
      reads this, order
    {
      Core(items, owner, stale, view, order.items, order.store, order.nextRef)
    }

    /** The two indexes agree with each other and with the view. */
    ghost predicate Whole()
      reads this, order
    {
      !order.maxFirst && CacheOk(Now())
    }

    ghost predicate Valid()
      reads this, order
    {
      Whole() && |view| <= maxSize && maxSize > 0
    }

    constructor (maxSize: int)
      ensures Valid() && Now() == EmptyCore(0) && hits == 0 && misses == 0 && fresh(order)
      ensures this.maxSize == if maxSize <= 0 then 10000 else maxSize
    {
      this.maxSize := if maxSize <= 0 then 10000 else maxSize;
      items, hits, misses := map[], 0, 0;
      order := new Heap(false, 0);
      owner, view, stale := map[], map[], map[];
      new;
      order.Init();
      assert order.store.Keys == {};
    }

    /** The first stage of `Get`. */
    method Lookup(path: Id) returns (item: Option<Ref>)
      requires Valid()
      ensures item == None <==> path !in view
      ensures item.Some? ==> path in items && items[path] == item.value && item.value in order.store
    {
      return if path in items then Some(items[path]) else None;
    }

    /** The stage of `Get` after a failed lookup. */
    method Miss()
      requires Valid()
      modifies this`misses
      ensures Valid() && Now() == old(Now()) && misses == old(misses) + 1
    {
      misses := misses + 1;
    }

    /**
     The stage of `Get` after a successful lookup: count the access and `heap.Fix` at the entry's slot.
     An entry removed or evicted since the lookup has slot -1, and then nothing
     that is cached changes. One from before a `Clear` still has its old slot: it leaves the cache as
     it was if that slot is at most 0 or some cached entry's, and otherwise the program indexes past
     the heap slice and panics, with the lock held.
     */
    method Touch(item: Ref) returns (inRange: bool)
      requires Valid() && (item in order.store || item in stale)
      modifies this`hits, this`view, this`stale, order`items, order`store
      ensures Valid() && hits == old(hits) + 1
      ensures TouchDone(old(Now()), Now(), item, inRange)
    {
      hits := hits + 1;
      if item in stale {
        inRange := TouchStale(item);
      } else {
        TouchKnown(item);
        inRange := true;
      }
    }

    /** `Touch` for an entry created since the last `Clear`. */
    method TouchKnown(item: Ref)
      requires Valid() && item in order.store
      modifies this`view, order`items, order`store
      ensures Valid() && TouchDone(old(Now()), Now(), item, true)
    {
      ghost var before := Now();
      BeforeTouch(before, item);
      order.store := Counted(order.store, item);
      view := ViewAfterTouch(items, owner, view, item);
      var _ := order.Fix(order.store[item].index, before.store);
      AfterTouch(before, item, order.items, order.store);
    }

    /** `Touch` for an older entry. */
    method TouchStale(item: Ref) returns (inRange: bool)
      requires Valid() && item in stale
      modifies this`stale, order`items, order`store
      ensures Valid() && TouchDone(old(Now()), Now(), item, inRange)
    {
      AfterStaleTouch(Now(), item);
      stale := Counted(stale, item);
      inRange := order.Fix(stale[item].index, order.store);
    }

    /** The last stage of `Get`, after the lock has been given back. */
    method Read(item: Ref) returns (result: Result)
      requires item in order.store || item in stale
      ensures result == ResultOf(order.store, stale, item)
    {
      return ResultOf(order.store, stale, item);
    }

    method Get(path: Id) returns (r: Option<Result>)
      requires Valid()
      modifies this`hits, this`misses, this`view, this`stale, order`items, order`store
      ensures Valid()
      ensures Step(maxSize, old(view), CacheModel.Get(path), view)
      ensures r == if path in old(view) then Some(old(view)[path].result) else None
      ensures hits + misses == old(hits + misses) + 1 && (hits == old(hits) + 1 <==> r.Some?)
    {
      var item := Lookup(path);
      if item == None {
        Miss();
        r := None;
      } else {
        var result := Hit(path);
        r := Some(result);
      }
    }

    /** A `Get` that found its entry and is not interrupted. */
    method Hit(path: Id) returns (result: Result)
      requires Valid() && path in items
      modifies this`hits, this`view, this`stale, order`items, order`store
      ensures Valid() && hits == old(hits) + 1 && path in old(view) && result == old(view)[path].result
      ensures Step(maxSize, old(view), CacheModel.Get(path), view)
    {
      ghost var before := Now();
      BeforeDrop(before, path);
      var inRange := Touch(items[path]);
      assert inRange;
      TouchIsAccess(maxSize, before, Now(), path);
      result := Read(items[path]);
    }

    method Put(path: Id, result: Result, hash: uint64)
      requires Valid()
      modifies this`items, this`owner, this`view, order
      ensures Valid() && PutDone(maxSize, old(Now()), Now(), path, Parsed(result, hash))
    {
      if path in items {
        Update(path, Parsed(result, hash));
      } else {
        Insert(path, Parsed(result, hash));
        EvictOver(old(Now()), path, Parsed(result, hash));
      }
    }

    /** The part of `Put` for a path that is cached already. */
    method Update(path: Id, value: Parsed)
      requires Valid() && path in items
      modifies this`view, order`items, order`store
      ensures Valid() && PutDone(maxSize, old(Now()), Now(), path, value)
    {
      ghost var before := Now();
      BeforeUpdate(before, path, value);
      var existing := items[path];
      order.store := Updated(order.store, existing, value);
      view := ViewAfterUpdate(view, path, value);
      var _ := order.Fix(order.store[existing].index, before.store);
      AfterUpdate(maxSize, before, path, value, order.items, order.store);
    }

    /** The part of `Put` that stores a new entry, before the size is looked at. */
    method Insert(path: Id, value: Parsed)
      requires Valid() && path !in items
      modifies this`items, this`owner, this`view, order
      ensures Whole() && Inserted(old(Now()), Now(), path, value)
    {
      var item := order.Push(value, 0);
      AfterInsert(old(Now()), path, item, value, order.items, order.store);
      items := items[path := item];
      owner := owner[item := path];
      view := view[path := Cached(value.result, value.hash, 0)];
    }

    /** The eviction loop of `Put`. */
    method EvictOver(ghost before: Core, ghost path: Id, ghost value: Parsed)
      requires Whole() && |before.view| <= maxSize && maxSize > 0
      requires Inserted(before, Now(), path, value)
      modifies this`items, this`view, order`items, order`store
      ensures Valid() && PutDone(maxSize, before, Now(), path, value)
    {
      EvictingStart(maxSize, before, Now(), path, value);
      while |order.items| > maxSize
        invariant Whole() && Evicting(maxSize, before, Now(), path, value)
        decreases |order.items|
      {
        ghost var full := Now();
        Evict();
        EvictingStep(maxSize, before, full, Now(), path, value);
      }
      EvictingEnd(maxSize, before, Now(), path, value);
    }

    /** `heap.Pop`, then find the evicted entry's path and delete it. */
    method Evict()
      requires Whole() && order.items != []
      modifies this`items, this`view, order`items, order`store
      ensures Whole() && Evicted(old(Now()), Now())
    {
      ghost var before := Now();
      BeforeEvict(before);
      var evicted := order.Pop();
      Forget(before, evicted);
    }

    /** Delete the path of the entry just popped. */
    method Forget(ghost before: Core, evicted: Ref)
      requires CacheOk(before) && before.slots != [] && evicted == before.slots[0]
      requires Now() == before.(slots := order.items, store := order.store) && !order.maxFirst
      requires HeapOk(false, order.items, order.store) && |order.items| == |before.slots| - 1
      requires RemovedTo(false, before.slots, before.store, 0, order.items)
      requires evicted in before.store && SameEntries(SetIndex(before.store, evicted, -1), order.store)
      modifies this`items, this`view
      ensures Whole() && Evicted(before, Now())
    {
      BeforeEvict(before);
      var path := FindPath(evicted);
      items := items - {path};
      view := view - {path};
      AfterDrop(before, path, order.items, order.store);
      assert Now() == Dropped(before, path, order.items, order.store);
    }

    /** The search through the map, left at the first entry that is the evicted one. */
    method FindPath(evicted: Ref) returns (path: Id)
      requires evicted in owner && owner[evicted] in items && items[owner[evicted]] == evicted
      requires forall p | p in items && items[p] == evicted :: p == owner[evicted]
      ensures path == owner[evicted]
    {
      var paths := items.Keys;
      path :| path in paths;
      while items[path] != evicted
        invariant path in paths && paths <= items.Keys && owner[evicted] in paths
        decreases paths
      {
        paths := paths - {path};
        assert owner[evicted] in paths;
        path :| path in paths;
      }
    }

    method Remove(path: Id) returns (removed: bool)
      requires Valid()
      modifies this`items, this`view, order`items, order`store
      ensures Valid() && Settled(old(Now()), Now())
      ensures removed <==> path in old(view)
      ensures if removed then DroppedAt(old(Now()), Now(), path) else Now() == old(Now())
      ensures Step(maxSize, old(view), CacheModel.Remove(path), view)
    {
      if path !in items {
        return false;
      }
      Discard(path);
      return true;
    }

    /** `delete(pc.items, path)` and `heap.Remove(pc.order, item.index)`. */
    method Discard(path: Id)
      requires Valid() && path in items
      modifies this`items, this`view, order`items, order`store
      ensures Valid() && Settled(old(Now()), Now())
      ensures view == old(view) - {path} && |view| == |old(view)| - 1 && DroppedAt(old(Now()), Now(), path)
    {
      ghost var before := Now();
      BeforeDrop(before, path);
      var item := items[path];
      items := items - {path};
      view := view - {path};
      var out := order.Remove(order.store[item].index);
      AfterDrop(before, path, order.items, order.store);
      assert Now() == Dropped(before, path, order.items, order.store);
    }

    method Invalidate(currentHashes: map<Id, uint64>) returns (removed: nat)
      requires Valid()
      modifies this`items, this`view, order`items, order`store
      ensures Valid() && Settled(old(Now()), Now())
      ensures Step(maxSize, old(view), CacheModel.Invalidate(currentHashes), view)
      ensures removed == |old(view)| - |view| && DroppedInTurn(old(Now()), Now())
    {
      removed := 0;
      NothingDropped(Now());
      var paths := items.Keys;
      while paths != {}
        invariant Valid() && Invalidating(old(Now()), currentHashes, paths, Now(), removed)
        decreases paths
      {
        var path :| path in paths;
        removed := InvalidateOne(old(Now()), currentHashes, paths, removed, path);
        paths := paths - {path};
      }
      InvalidateDone(maxSize, old(view), currentHashes, view, removed);
    }

    /** The body of the loop of `Invalidate`. */
    method InvalidateOne(
      ghost c0: Core, currentHashes: map<Id, uint64>, ghost paths: set<Id>, before: nat, path: Id)
      returns (removed: nat)
      requires Valid() && Invalidating(c0, currentHashes, paths, Now(), before) && path in paths
      modifies this`items, this`view, order`items, order`store
      ensures Valid() && Invalidating(c0, currentHashes, paths - {path}, Now(), removed)
    {
      BeforeDrop(Now(), path);
      var keep := false;
      if path in currentHashes {
        keep := order.store[items[path]].value.hash == currentHashes[path];
      }
      removed := before;
      if !keep {
        Discard(path);
        removed := removed + 1;
      }
      InvalidatingStep(c0, currentHashes, paths, old(Now()), before, path, Now(), removed);
    }

    /** The entries stay with whoever holds them, with the slots they had. */
    method Clear()
      requires Valid()
      modifies this`items, this`order, this`owner, this`view, this`stale
      ensures Valid() && fresh(order)
      ensures Step(maxSize, old(view), CacheModel.Clear, view)
      ensures Now() == Cleared(old(Now()))
    {
      ghost var before := Now();
      AfterClear(before);
      items := map[];
      stale := stale + order.store;
      order := EmptyHeap(order.nextRef);
      owner, view := map[], map[];
      assert Now() == Cleared(before);
    }
  }
}
