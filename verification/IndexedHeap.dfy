/**
 Go's `container/heap` (`Init`, `Push`, `Pop`, `Remove`, `Fix` and their `up` and `down`) over
 entries that record their own slot, as the parse cache and the priority queue both use it. The
 cache keeps the entry with the smallest key first, the priority queue the one with the largest.
 */
module IndexedHeap {
  import opened HeapShape
  import opened HeapPaths
  import opened HeapEntries

  class Heap<T> {
    const maxFirst: bool
    var items: seq<Ref>
    var store: Store<T>
    /** References are handed out in order and never reused. */
    var nextRef: Ref

    constructor (maxFirst: bool, nextRef: Ref)
      ensures this.maxFirst == maxFirst && this.nextRef == nextRef
      ensures items == [] && store == map[] && Valid()
    {
      this.maxFirst, this.nextRef := maxFirst, nextRef;
      items, store := [], map[];
    }

    ghost predicate Valid()
      reads this
    {
      HeapOk(maxFirst, items, store) && FreshFrom(store, nextRef)
    }

    function Less(i: nat, j: nat): bool
      requires i < |items| && j < |items| && items[i] in store && items[j] in store
      reads this
    {
      Weight(maxFirst, store[items[i]].key) < Weight(maxFirst, store[items[j]].key)
    }

    method Swap(i: nat, j: nat)
      requires Indexed(items, store) && i < |items| && j < |items|
      modifies this`items, this`store
      ensures items == SwapAt(old(items), i, j) && store == SwapIndices(old(items), old(store), i, j)
    {
      items := items[i := items[j]][j := items[i]];
      store := SetIndex(store, items[i], i);
      store := SetIndex(store, items[j], j);
    }

    /**
     `up` from slot `j0`. Its first comparison indexes the slice at `j0`: the program panics there,
     and `inRange` is false, if the slot lies past the end. Slots -1 and 0 are not compared.
     */
    method Up(j0: int, ghost n: nat) returns (inRange: bool)
      requires Indexed(items, store) && n <= |items|
      requires j0 >= -1
      requires 0 <= j0 < |items| ==> ExceptUp(Weights(maxFirst, items, store)[..n], 0, j0)
      modifies this`items, this`store
      ensures inRange <==> j0 <= 0 || j0 < |items|
      ensures Rearranged(old(items), old(store), items, store, n)
      ensures !(0 <= j0 < n) || IsHeap(Weights(maxFirst, old(items), old(store))[..n]) ==>
                items == old(items) && store == old(store)
      ensures 0 <= j0 < n ==> IsHeap(Weights(maxFirst, items, store)[..n])
      ensures 0 < j0 < n &&
              Weights(maxFirst, old(items), old(store))[0] <= Weights(maxFirst, old(items), old(store))[j0] ==>
                items[0] == old(items)[0]
      ensures 0 <= j0 < n ==> RisenIn(maxFirst, old(items), old(store), n, j0, items)
    {
      if 0 < j0 && j0 >= |items| {
        return false;
      }
      inRange := true;
      var j := j0;
      ghost var p: seq<nat> := [];
      if 0 <= j0 < n {
        p := [j0];
        UpStart(Weights(maxFirst, items, store)[..n], items, j0);
      }
      while true
        invariant Rearranged(old(items), old(store), items, store, n)
        invariant !(0 <= j0 < n) ==> j == j0 && items == old(items) && store == old(store)
        invariant IsHeap(Weights(maxFirst, old(items), old(store))[..n]) ==>
                    j == j0 && items == old(items) && store == old(store)
        invariant 0 <= j0 < n ==> ClimbingAlong(maxFirst, old(items), old(store), items, store, n, p, j0, j)
        decreases j
      {
        var i := Parent(j);
        if i == j || !Less(j, i) {
          break;
        }
        ClimbAlongStep(maxFirst, old(items), old(store), items, store, n, p, j0, j);
        p := p + [i];
        Swap(i, j);
        j := i;
      }
      if 0 <= j0 < n {
        ClimbAlongEnd(maxFirst, old(items), old(store), items, store, n, p, j0, j);
      }
    }

    /** The child `down` compares with: the right one only if it is strictly less than the left. */
    method ChildToCompare(i: nat, n: nat) returns (j: nat)
      requires Indexed(items, store) && n <= |items| && 2 * i + 1 < n
      ensures LighterChild(Weights(maxFirst, items, store)[..n], i, j)
    {
      j := 2 * i + 1;
      if j + 1 < n && Less(j + 1, j) {
        j := j + 1;
      }
    }

    method Down(i0: int, n: nat, ghost lo: nat) returns (moved: bool)
      requires Indexed(items, store) && n <= |items|
      requires i0 == -1 || lo <= i0
      requires 0 <= i0 < n ==> ExceptAround(Weights(maxFirst, items, store)[..n], lo, i0)
      modifies this`items, this`store
      ensures Rearranged(old(items), old(store), items, store, n)
      ensures !moved ==> items == old(items) && store == old(store)
      ensures moved ==> 0 <= i0 < n && HeapFrom(Weights(maxFirst, items, store)[..n], lo)
      ensures !moved && 0 <= i0 < n ==> ExceptUp(Weights(maxFirst, items, store)[..n], lo, i0)
      ensures IsHeap(Weights(maxFirst, old(items), old(store))[..n]) ==> !moved
      ensures 0 <= i0 < n ==>
                var w := Weights(maxFirst, old(items), old(store))[..n];
                SiftedDown(w, old(items), items, i0) && (moved <==> !StaysAbove(w, i0, w[i0]))
    {
      var i := i0;
      ghost var p: seq<nat> := [];
      if 0 <= i0 < n {
        p := [i0];
        DownStart(Weights(maxFirst, items, store)[..n], items, i0);
      }
      while true
        invariant Rearranged(old(items), old(store), items, store, n)
        invariant i == i0 ==> items == old(items) && store == old(store)
        invariant i != i0 ==> 0 <= i0 < i < n
        invariant Sifting(Weights(maxFirst, items, store)[..n], lo, i0, i)
        invariant 0 <= i0 < n ==> DescendingAlong(maxFirst, old(items), old(store), items, n, p, i0, i)
        invariant IsHeap(Weights(maxFirst, old(items), old(store))[..n]) ==> i == i0
        decreases n - i
      {
        if 2 * i + 1 >= n || 2 * i + 1 < 0 {
          break;
        }
        var j := ChildToCompare(i, n);
        if !Less(j, i) {
          assert Weights(maxFirst, items, store)[..n][i] <= Weights(maxFirst, items, store)[..n][j];
          break;
        }
        DescendAlongStep(maxFirst, old(items), old(store), items, store, n, lo, p, i0, i, j);
        p := p + [j];
        Swap(i, j);
        i := j;
      }
      if 0 <= i < n {
        DescendAlongEnd(maxFirst, old(items), old(store), items, store, n, lo, p, i0, i);
      }
      moved := i > i0;
    }

    /** What `Fix` and `Remove` share: try to move down, and if nothing moved, move up. */
    method Sift(i: int, n: nat) returns (inRange: bool)
      requires Indexed(items, store) && n <= |items| && i >= -1
      requires 0 <= i < |items| ==> ExceptAround(Weights(maxFirst, items, store)[..n], 0, i)
      modifies this`items, this`store
      ensures inRange <==> i <= 0 || i < |items|
      ensures Rearranged(old(items), old(store), items, store, n)
      ensures !(0 <= i < n) || IsHeap(Weights(maxFirst, old(items), old(store))[..n]) ==>
                items == old(items) && store == old(store)
      ensures 0 <= i < n ==> IsHeap(Weights(maxFirst, items, store)[..n])
      ensures 0 <= i < n ==> SettledIn(maxFirst, old(items), old(store), n, i, items)
    {
      var moved := Down(i, n, 0);
      inRange := true;
      if !moved {
        inRange := Up(i, n);
      }
    }

    /**
     `heap.Fix` at slot `i`, after what is in that slot was changed. At slot -1, and on a heap that
     was not changed, nothing moves. Past the end of the slice the program panics.
     */
    method Fix(i: int, ghost before: Store<T>) returns (inRange: bool)
      requires HeapOk(maxFirst, items, before) && ChangedAt(before, store, i) && i >= -1
      requires FreshFrom(store, nextRef)
      modifies this`items, this`store
      ensures inRange <==> i <= 0 || i < |items|
      ensures Valid() && |items| == |old(items)| && SameEntries(old(store), store)
      ensures i == -1 || before == old(store) ==> items == old(items) && store == old(store)
      ensures FixedTo(maxFirst, old(items), old(store), i, items)
    {
      ChangeKeepsAround(maxFirst, items, before, store, i);
      inRange := SiftAny(i);
    }

    /** `down` and perhaps `up` among all entries. */
    method SiftAny(i: int) returns (inRange: bool)
      requires Indexed(items, store) && FreshFrom(store, nextRef) && i >= -1
      requires if 0 <= i < |items| then ExceptAround(Weights(maxFirst, items, store), 0, i)
               else HeapOk(maxFirst, items, store)
      modifies this`items, this`store
      ensures inRange <==> i <= 0 || i < |items|
      ensures Valid() && Rearranged(old(items), old(store), items, store, |items|)
      ensures !(0 <= i < |items|) || IsHeap(Weights(maxFirst, old(items), old(store))) ==>
                items == old(items) && store == old(store)
      ensures FixedTo(maxFirst, old(items), old(store), i, items)
    {
      assert Weights(maxFirst, items, store)[..|items|] == Weights(maxFirst, items, store);
      inRange := Sift(i, |items|);
      assert Weights(maxFirst, items, store)[..|items|] == Weights(maxFirst, items, store);
      SettledIsFixed(maxFirst, old(items), old(store), i, items);
    }

    /** Allocate an entry and `heap.Push` it: append, then sift up. */
    method Push(value: T, key: int) returns (r: Ref)
      requires Valid()
      modifies this
      ensures Valid() && |items| == |old(items)| + 1
      ensures r == old(nextRef) && nextRef == r + 1 && Added(old(store), r, value, key, store)
      ensures old(items) != [] && Weights(maxFirst, old(items), old(store))[0] <= Weight(maxFirst, key) ==>
                items[0] == old(items)[0]
      ensures PushedTo(maxFirst, old(items), old(store), r, key, items)
    {
      r := Append(value, key);
      UpFromEnd(old(items), old(store), r, key);
      AppendedThenMoved(old(items), old(store), r, value, key, items, store);
    }

    /** Sift up the entry just appended. */
    method UpFromEnd(ghost items0: seq<Ref>, ghost store0: Store<T>, ghost r: Ref, ghost key: int)
      requires items == items0 + [r]
      requires Weights(maxFirst, items, store) == Weights(maxFirst, items0, store0) + [Weight(maxFirst, key)]
      requires Indexed(items, store) && ExceptUp(Weights(maxFirst, items, store), 0, |items| - 1)
      modifies this`items, this`store
      ensures Rearranged(old(items), old(store), items, store, |items|)
      ensures IsHeap(Weights(maxFirst, items, store))
      ensures Weights(maxFirst, old(items), old(store))[0] <= Weights(maxFirst, old(items), old(store))[|items| - 1] ==>
                items[0] == old(items)[0]
      ensures PushedTo(maxFirst, items0, store0, r, key, items)
    {
      assert Weights(maxFirst, items, store)[..|items|] == Weights(maxFirst, items, store);
      var _ := Up(|items| - 1, |items|);
      assert Weights(maxFirst, items, store)[..|items|] == Weights(maxFirst, items, store);
      RisenIsPushed(maxFirst, items0, store0, r, key, old(items), old(store), items);
    }

    /** Allocate an entry, and the file's own `Push`: append and record the slot. */
    method Append(value: T, key: int) returns (r: Ref)
      requires Valid()
      modifies this
      ensures r == old(nextRef) && r !in old(store) && nextRef == r + 1 && FreshFrom(store, nextRef)
      ensures items == old(items) + [r] && store == old(store)[r := Item(value, key, |old(items)|)]
      ensures Indexed(items, store) && ExceptUp(Weights(maxFirst, items, store), 0, |items| - 1)
      ensures Weights(maxFirst, items, store) ==
              Weights(maxFirst, old(items), old(store)) + [Weight(maxFirst, key)]
    {
      AppendKeeps(maxFirst, items, store, nextRef, value, key);
      r := nextRef;
      nextRef := nextRef + 1;
      store := store[r := Item(value, key, |items|)];
      items := items + [r];
    }

    /** The file's own `Pop`: cut off the last entry and mark it as stored nowhere. */
    method CutLast() returns (r: Ref)
      requires items != [] && Indexed(items, store) && FreshFrom(store, nextRef)
      requires IsHeap(Weights(maxFirst, items, store)[..|items| - 1])
      modifies this`items, this`store
      ensures Valid() && r == old(items)[|old(items)| - 1] && r in old(store)
      ensures items == old(items)[..|old(items)| - 1] && store == SetIndex(old(store), r, -1)
    {
      CutKeeps(maxFirst, items, store);
      var n := |items| - 1;
      r := items[n];
      store := SetIndex(store, r, -1);
      items := items[..n];
    }

    /** `heap.Pop`: move the root to the end, sift its replacement down, cut it off. */
    method Pop() returns (r: Ref)
      requires Valid() && items != []
      modifies this`items, this`store
      ensures Valid() && r == old(items)[0] && |items| == |old(items)| - 1
      ensures r in old(store) && SameEntries(SetIndex(old(store), r, -1), store)
      ensures RemovedTo(maxFirst, old(items), old(store), 0, items)
    {
      var n := |items| - 1;
      MoveRootOut(n);
      SwappedOut(old(items), old(store), 0, items, store);
      r := CutLast();
    }

    /** Exchange the root with the last entry, `n`, and sift the new root down among the others. */
    method MoveRootOut(n: nat)
      requires Valid() && n == |items| - 1
      modifies this`items, this`store
      ensures Rearranged(SwapAt(old(items), 0, n), SwapIndices(old(items), old(store), 0, n), items, store, n)
      ensures IsHeap(Weights(maxFirst, items, store)[..n])
      ensures RemovedTo(maxFirst, old(items), old(store), 0, items[..n])
    {
      if n > 0 {
        SwapOutAround(maxFirst, items, store, 0);
      } else {
        SwapKeeps(maxFirst, items, store, 0, 0);
      }
      Swap(0, n);
      DownFromRoot(n);
      if n > 0 {
        SwapSettles(maxFirst, old(items), old(store), 0, items);
      }
      CutIsRemoved(maxFirst, old(items), old(store), 0, items);
    }

    method DownFromRoot(n: nat)
      requires Indexed(items, store) && n <= |items|
      requires n > 0 ==> ExceptAround(Weights(maxFirst, items, store)[..n], 0, 0)
      modifies this`items, this`store
      ensures Rearranged(old(items), old(store), items, store, n)
      ensures IsHeap(Weights(maxFirst, items, store)[..n])
      ensures n > 0 ==> SettledIn(maxFirst, old(items), old(store), n, 0, items)
    {
      var moved := Down(0, n, 0);
      if n > 0 {
        if !moved { UpStops(Weights(maxFirst, items, store)[..n], 0, 0); }
        RootSettles(Weights(maxFirst, old(items), old(store))[..n], old(items), items);
      }
    }

    /** `heap.Remove`. */
    method Remove(i: nat) returns (r: Ref)
      requires Valid() && i < |items|
      modifies this`items, this`store
      ensures Valid() && r == old(items)[i] && |items| == |old(items)| - 1
      ensures r in old(store) && SameEntries(SetIndex(old(store), r, -1), store)
      ensures RemovedTo(maxFirst, old(items), old(store), i, items)
    {
      var n := |items| - 1;
      MoveOut(i, n);
      SwappedOut(old(items), old(store), i, items, store);
      r := CutLast();
    }

    /** Exchange entry `i` with the last, `n`, and restore the order of the others. */
    method MoveOut(i: nat, n: nat)
      requires Valid() && i <= n == |items| - 1
      modifies this`items, this`store
      ensures Rearranged(SwapAt(old(items), i, n), SwapIndices(old(items), old(store), i, n), items, store, n)
      ensures IsHeap(Weights(maxFirst, items, store)[..n])
      ensures RemovedTo(maxFirst, old(items), old(store), i, items[..n])
    {
      if n != i {
        SwapOutAround(maxFirst, items, store, i);
        Swap(i, n);
        var _ := Sift(i, n);
        SwapSettles(maxFirst, old(items), old(store), i, items);
      } else {
        SwapSelf(items, store, i);
        PrefixIsHeap(Weights(maxFirst, items, store), n);
      }
      CutIsRemoved(maxFirst, old(items), old(store), i, items);
    }

    /** `heap.Init`: sift down every inner slot, from the last to the first. */
    method Init()
      requires Indexed(items, store) && FreshFrom(store, nextRef)
      modifies this`items, this`store
      ensures Valid() && |items| == |old(items)| && SameEntries(old(store), store)
      ensures HeapOk(maxFirst, old(items), old(store)) ==> items == old(items) && store == old(store)
    {
      var n := |items|;
      var i := n / 2 - 1;
      NoInnerSlots(Weights(maxFirst, items, store));
      while i >= 0
        invariant -1 <= i < n == |items|
        invariant Indexed(items, store) && SameEntries(old(store), store)
        invariant HeapOk(maxFirst, old(items), old(store)) ==> items == old(items) && store == old(store)
        invariant HeapFrom(Weights(maxFirst, items, store), i + 1)
      {
        ghost var before := store;
        DownAmongAll(i);
        SameTransitive(old(store), before, store);
        i := i - 1;
      }
    }

    /** `down` from an inner slot, below which all is in order. */
    method DownAmongAll(i: nat)
      requires Indexed(items, store) && i < |items| && HeapFrom(Weights(maxFirst, items, store), i + 1)
      modifies this`items, this`store
      ensures Indexed(items, store) && |items| == |old(items)| && SameEntries(old(store), store)
      ensures HeapFrom(Weights(maxFirst, items, store), i)
      ensures IsHeap(Weights(maxFirst, old(items), old(store))) ==> items == old(items) && store == old(store)
    {
      assert Weights(maxFirst, items, store)[..|items|] == Weights(maxFirst, items, store);
      var moved := Down(i, |items|, i);
      assert Weights(maxFirst, items, store)[..|items|] == Weights(maxFirst, items, store);
    }
  }
}
