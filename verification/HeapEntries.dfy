/**
 The entries of an indexed heap. An entry is reached through a reference, which both the heap
 slice and other structures may hold; the store maps references to the entries' fields.
 */
module HeapEntries {
  import opened HeapShape
  import opened HeapPaths

  type Ref = nat

  datatype Item<T> = Item(value: T, key: int, index: int)

  type Store<T> = map<Ref, Item<T>>

  /** `Less` compares weights: entries with less weight come first. */
  function Weight(maxFirst: bool, key: int): int {
    if maxFirst then -key else key
  }

  /** Every entry knows its slot, and one that is in no slot says -1. */
  ghost predicate Indexed<T>(items: seq<Ref>, store: Store<T>) {
    && (forall k | 0 <= k < |items| :: items[k] in store && store[items[k]].index == k)
    && (forall r | r in store :: store[r].index == -1 || Placed(items, store, r))
  }

  ghost predicate Placed<T>(items: seq<Ref>, store: Store<T>, r: Ref)
    requires r in store
  {
    0 <= store[r].index < |items| && items[store[r].index] == r
  }

  ghost function Weights<T>(maxFirst: bool, items: seq<Ref>, store: Store<T>): (w: seq<int>)
    ensures |w| == |items|
    ensures forall k | 0 <= k < |items| && items[k] in store :: w[k] == Weight(maxFirst, store[items[k]].key)
  {
    seq(|items|, k requires 0 <= k < |items| =>
      if items[k] in store then Weight(maxFirst, store[items[k]].key) else 0)
  }

  ghost predicate HeapOk<T>(maxFirst: bool, items: seq<Ref>, store: Store<T>) {
    Indexed(items, store) && IsHeap(Weights(maxFirst, items, store))
  }

  /** The same entries with the same contents, the same ones among them stored in some slot. */
  ghost predicate SameEntries<T>(store: Store<T>, store': Store<T>) {
    && store'.Keys == store.Keys
    && forall r | r in store ::
         && store'[r].value == store[r].value && store'[r].key == store[r].key
         && (store'[r].index == -1 <==> store[r].index == -1)
  }

  lemma SameTransitive<T>(a: Store<T>, b: Store<T>, c: Store<T>)
    requires SameEntries(a, b) && SameEntries(b, c)
    ensures SameEntries(a, c)
  {
  }

  function SetIndex<T>(store: Store<T>, r: Ref, i: int): Store<T>
    requires r in store
  {
    store[r := store[r].(index := i)]
  }

  /** What `Swap` does to the store. */
  function SwapIndices<T>(items: seq<Ref>, store: Store<T>, i: nat, j: nat): Store<T>
    requires i < |items| && j < |items| && items[i] in store && items[j] in store
  {
    SetIndex(SetIndex(store, items[j], i), items[i], j)
  }

  // --- which entry each operation leaves in which slot ------------------------------------

  /** `heap.Fix` at slot `i`; the store has the keys as they are now. */
  ghost predicate FixedTo<T>(maxFirst: bool, items: seq<Ref>, store: Store<T>, i: int, items': seq<Ref>) {
    if 0 <= i < |items| then SettledAt(Weights(maxFirst, items, store), items, items', i) else items' == items
  }

  /** `heap.Push` of an entry with this key. */
  ghost predicate PushedTo<T>(
    maxFirst: bool, items: seq<Ref>, store: Store<T>, r: Ref, key: int, items': seq<Ref>)
  {
    SiftedUp(Weights(maxFirst, items, store) + [Weight(maxFirst, key)], items + [r], items', |items|)
  }

  /** `heap.Remove` of slot `i`, and for slot 0 `heap.Pop`. */
  ghost predicate RemovedTo<T>(maxFirst: bool, items: seq<Ref>, store: Store<T>, i: nat, items': seq<Ref>) {
    RemovedAt(Weights(maxFirst, items, store), items, items', i)
  }

  /** What is in slot `i` has settled among the first `n`. */
  ghost predicate SettledIn<T>(
    maxFirst: bool, items: seq<Ref>, store: Store<T>, n: nat, i: nat, items': seq<Ref>)
  {
    i < n <= |items| && SettledAt(Weights(maxFirst, items, store)[..n], items, items', i)
  }

  /** What is in slot `i` has risen as far as it can. */
  ghost predicate RisenIn<T>(maxFirst: bool, items: seq<Ref>, store: Store<T>, n: nat, i: nat, items': seq<Ref>) {
    i < n <= |items| && SiftedUp(Weights(maxFirst, items, store)[..n], items, items', i)
  }

  /** The entry just appended has risen. */
  lemma RisenIsPushed<T>(
    maxFirst: bool, items: seq<Ref>, store: Store<T>, r: Ref, key: int,
    longer: seq<Ref>, more: Store<T>, items': seq<Ref>)
    requires longer == items + [r] && RisenIn(maxFirst, longer, more, |longer|, |longer| - 1, items')
    requires Weights(maxFirst, longer, more) == Weights(maxFirst, items, store) + [Weight(maxFirst, key)]
    ensures PushedTo(maxFirst, items, store, r, key, items')
  {
    assert Weights(maxFirst, longer, more)[..|longer|] == Weights(maxFirst, longer, more);
  }

  lemma SettledIsFixed<T>(maxFirst: bool, items: seq<Ref>, store: Store<T>, i: int, items': seq<Ref>)
    requires if 0 <= i < |items| then SettledIn(maxFirst, items, store, |items|, i, items') else items' == items
    ensures FixedTo(maxFirst, items, store, i, items')
  {
    assert Weights(maxFirst, items, store)[..|items|] == Weights(maxFirst, items, store);
  }

  lemma CutIsRemoved<T>(maxFirst: bool, items: seq<Ref>, store: Store<T>, i: nat, moved: seq<Ref>)
    requires i < |items| == |moved| && MovedOut(Weights(maxFirst, items, store), items, moved, i)
    ensures RemovedTo(maxFirst, items, store, i, moved[..|items| - 1])
  {
  }

  /** Weights move with the entries. */
  lemma WeightsMove<T>(
    maxFirst: bool, items: seq<Ref>, store: Store<T>, items': seq<Ref>, store': Store<T>, n: nat, p: seq<nat>)
    requires Indexed(items, store) && SameEntries(store, store') && n <= |items|
    requires MovedAlong(items, items', p) && forall k | 0 <= k < |p| :: p[k] < n
    ensures MovedAlong(Weights(maxFirst, items, store)[..n], Weights(maxFirst, items', store')[..n], p)
  {
    var w, w' := Weights(maxFirst, items, store)[..n], Weights(maxFirst, items', store')[..n];
    forall k | 0 <= k < |p| - 1 ensures Follows(w, w', p, k) {
      assert Follows(items, items', p, k);
    }
    forall x | 0 <= x < n && x !in p ensures w'[x] == w[x] {
      assert items'[x] == items[x];
    }
  }

  lemma SwapKeeps<T>(maxFirst: bool, items: seq<Ref>, store: Store<T>, i: nat, j: nat)
    requires Indexed(items, store) && i < |items| && j < |items|
    ensures var items', store' := SwapAt(items, i, j), SwapIndices(items, store, i, j);
            && Indexed(items', store') && SameEntries(store, store')
            && Weights(maxFirst, items', store') == SwapAt(Weights(maxFirst, items, store), i, j)
  {
    var items', store' := SwapAt(items, i, j), SwapIndices(items, store, i, j);
    var w, w' := Weights(maxFirst, items, store), Weights(maxFirst, items', store');
    forall k | 0 <= k < |items| ensures w'[k] == SwapAt(w, i, j)[k] {
      assert items'[k] in store;
    }
  }

  /** The entries were only moved around, all from slot `n` on in place. */
  ghost predicate Rearranged<T>(items: seq<Ref>, store: Store<T>, items': seq<Ref>, store': Store<T>, n: nat) {
    && |items'| == |items| && n <= |items| && items'[n..] == items[n..]
    && Indexed(items', store') && SameEntries(store, store')
  }

  lemma SwapRearranges<T>(
    maxFirst: bool, items0: seq<Ref>, store0: Store<T>, items: seq<Ref>, store: Store<T>, n: nat, i: nat, j: nat)
    requires Rearranged(items0, store0, items, store, n) && i < n && j < n
    ensures var items', store' := SwapAt(items, i, j), SwapIndices(items, store, i, j);
            && Rearranged(items0, store0, items', store', n)
            && Weights(maxFirst, items', store')[..n] == SwapAt(Weights(maxFirst, items, store)[..n], i, j)
  {
    SwapKeeps(maxFirst, items, store, i, j);
    SwapPrefix(items, i, j, n);
    SwapPrefix(Weights(maxFirst, items, store), i, j, n);
    SameTransitive(store0, store, SwapIndices(items, store, i, j));
  }

  lemma AppendKeeps<T>(maxFirst: bool, items: seq<Ref>, store: Store<T>, r: Ref, value: T, key: int)
    requires HeapOk(maxFirst, items, store) && r !in store
    ensures var items', store' := items + [r], store[r := Item(value, key, |items|)];
            && Indexed(items', store')
            && ExceptUp(Weights(maxFirst, items', store'), 0, |items|)
            && Weights(maxFirst, items', store') == Weights(maxFirst, items, store) + [Weight(maxFirst, key)]
  {
    var items', store' := items + [r], store[r := Item(value, key, |items|)];
    assert forall k | 0 <= k < |items| :: items'[k] == items[k] && items[k] != r;
    assert Weights(maxFirst, items', store') == Weights(maxFirst, items, store) + [Weight(maxFirst, key)];
    AppendBreaksUp(Weights(maxFirst, items, store), Weight(maxFirst, key));
  }

  lemma CutKeeps<T>(maxFirst: bool, items: seq<Ref>, store: Store<T>)
    requires items != [] && Indexed(items, store)
    requires IsHeap(Weights(maxFirst, items, store)[..|items| - 1])
    ensures HeapOk(maxFirst, items[..|items| - 1], SetIndex(store, items[|items| - 1], -1))
  {
    var n := |items| - 1;
    var items', store' := items[..n], SetIndex(store, items[n], -1);
    forall k | 0 <= k < n ensures items'[k] != items[n] {
      assert store[items[k]].index == k;
    }
    assert Weights(maxFirst, items', store') == Weights(maxFirst, items, store)[..n];
  }

  /** Only what is in slot `i` differs, or what is in no slot if `i` is -1. */
  ghost predicate ChangedAt<T>(store: Store<T>, store': Store<T>, i: int) {
    && store'.Keys == store.Keys
    && forall q | q in store ::
         store'[q].index == store[q].index && (store'[q] != store[q] ==> store[q].index == i)
  }

  lemma ChangeKeepsAround<T>(maxFirst: bool, items: seq<Ref>, store: Store<T>, store': Store<T>, i: int)
    requires HeapOk(maxFirst, items, store) && ChangedAt(store, store', i)
    ensures Indexed(items, store')
    ensures !(0 <= i < |items|) ==> HeapOk(maxFirst, items, store')
    ensures 0 <= i < |items| ==> ExceptAround(Weights(maxFirst, items, store'), 0, i)
    ensures i >= |items| ==> store' == store
  {
    var w, w' := Weights(maxFirst, items, store), Weights(maxFirst, items, store');
    if 0 <= i < |items| {
      ChangeBreaksAround(w, w', i);
    } else {
      assert w' == w;
    }
  }

  lemma RootLightest<T>(maxFirst: bool, items: seq<Ref>, store: Store<T>, r: Ref)
    requires HeapOk(maxFirst, items, store) && r in store && store[r].index != -1
    ensures items != [] && items[0] in store
    ensures Weight(maxFirst, store[items[0]].key) <= Weight(maxFirst, store[r].key)
  {
    RootIsLightest(Weights(maxFirst, items, store), store[r].index);
  }

  ghost predicate FreshFrom<T>(store: Store<T>, next: Ref) {
    forall r | r in store :: r < next
  }

  // --- the loop of `up` -------------------------------------------------------------------

  /** The entry that started at slot `j0` is now at `j`; the root is touched only by it. */
  ghost predicate Climbing<T>(
    maxFirst: bool, items0: seq<Ref>, store0: Store<T>, items: seq<Ref>, store: Store<T>, n: nat, j0: nat, j: int)
  {
    var w0, w := Weights(maxFirst, items0, store0), Weights(maxFirst, items, store);
    && n <= |items| == |items0| && 0 <= j <= j0 < n
    && ExceptUp(w[..n], 0, j) && w[j] == w0[j0]
    && (j > 0 ==> items[0] == items0[0] && w[0] == w0[0])
    && (j0 > 0 && j == 0 ==> w0[j0] < w0[0])
  }

  lemma ClimbStep<T>(
    maxFirst: bool, items0: seq<Ref>, store0: Store<T>, items: seq<Ref>, store: Store<T>, n: nat, j0: nat, j: nat)
    requires Rearranged(items0, store0, items, store, n)
    requires Climbing(maxFirst, items0, store0, items, store, n, j0, j)
    requires 0 <= Parent(j) < j && j < |items|
    requires Weights(maxFirst, items, store)[j] < Weights(maxFirst, items, store)[Parent(j)]
    ensures var i := Parent(j);
            var items', store' := SwapAt(items, i, j), SwapIndices(items, store, i, j);
            && Rearranged(items0, store0, items', store', n)
            && Climbing(maxFirst, items0, store0, items', store', n, j0, i)
  {
    var i := Parent(j);
    var w := Weights(maxFirst, items, store);
    SwapUp(w[..n], 0, j);
    SwapRearranges(maxFirst, items0, store0, items, store, n, i, j);
    SwapKeeps(maxFirst, items, store, i, j);
  }

  lemma ClimbEnd<T>(
    maxFirst: bool, items0: seq<Ref>, store0: Store<T>, items: seq<Ref>, store: Store<T>, n: nat, j0: nat, j: nat)
    requires Climbing(maxFirst, items0, store0, items, store, n, j0, j)
    requires j == 0 ||
             (0 <= Parent(j) && Weights(maxFirst, items, store)[Parent(j)] <= Weights(maxFirst, items, store)[j])
    ensures IsHeap(Weights(maxFirst, items, store)[..n])
    ensures j0 > 0 && Weights(maxFirst, items0, store0)[0] <= Weights(maxFirst, items0, store0)[j0] ==>
              items[0] == items0[0]
  {
    UpStops(Weights(maxFirst, items, store)[..n], 0, j);
  }

  lemma UpPathStep<T>(
    maxFirst: bool, items0: seq<Ref>, store0: Store<T>, items: seq<Ref>, store: Store<T>, n: nat,
    p: seq<nat>, j0: nat, j: nat)
    requires Indexed(items0, store0) && Rearranged(items0, store0, items, store, n)
    requires GoingUp(Weights(maxFirst, items0, store0)[..n], items0, items, p, j0, j)
    requires 0 <= Parent(j) < j < n && Weights(maxFirst, items, store)[j] < Weights(maxFirst, items, store)[Parent(j)]
    ensures GoingUp(Weights(maxFirst, items0, store0)[..n], items0, SwapAt(items, Parent(j), j), p + [Parent(j)],
                    j0, Parent(j))
  {
    var w0, w := Weights(maxFirst, items0, store0)[..n], Weights(maxFirst, items, store)[..n];
    forall k | 0 <= k < |p| ensures p[k] < n { UpFalls(w0, j0, p, k); }
    WeightsMove(maxFirst, items0, store0, items, store, n, p);
    UpGoesOn(w0, w, items0, items, p, j0, j, Parent(j));
  }

  lemma UpPathEnd<T>(
    maxFirst: bool, items0: seq<Ref>, store0: Store<T>, items: seq<Ref>, store: Store<T>, n: nat,
    p: seq<nat>, j0: nat, j: nat)
    requires Indexed(items0, store0) && Rearranged(items0, store0, items, store, n)
    requires GoingUp(Weights(maxFirst, items0, store0)[..n], items0, items, p, j0, j) && j < n
    requires j == 0 ||
             (0 <= Parent(j) < n && Weights(maxFirst, items, store)[Parent(j)] <= Weights(maxFirst, items, store)[j])
    ensures SiftedUp(Weights(maxFirst, items0, store0)[..n], items0, items, j0)
  {
    var w0, w := Weights(maxFirst, items0, store0)[..n], Weights(maxFirst, items, store)[..n];
    forall k | 0 <= k < |p| ensures p[k] < n { UpFalls(w0, j0, p, k); }
    WeightsMove(maxFirst, items0, store0, items, store, n, p);
    UpEnds(w0, w, items0, items, p, j0, j);
  }

  /** The same, along this path. */
  ghost predicate ClimbingAlong<T>(
    maxFirst: bool, items0: seq<Ref>, store0: Store<T>, items: seq<Ref>, store: Store<T>, n: nat,
    p: seq<nat>, j0: nat, j: int)
  {
    && n <= |items0| && Climbing(maxFirst, items0, store0, items, store, n, j0, j)
    && GoingUp(Weights(maxFirst, items0, store0)[..n], items0, items, p, j0, j)
  }

  lemma ClimbAlongStep<T>(
    maxFirst: bool, items0: seq<Ref>, store0: Store<T>, items: seq<Ref>, store: Store<T>, n: nat,
    p: seq<nat>, j0: nat, j: nat)
    requires Indexed(items0, store0) && Rearranged(items0, store0, items, store, n)
    requires ClimbingAlong(maxFirst, items0, store0, items, store, n, p, j0, j)
    requires 0 <= Parent(j) < j && j < |items|
    requires Weights(maxFirst, items, store)[j] < Weights(maxFirst, items, store)[Parent(j)]
    ensures var i := Parent(j);
            var items', store' := SwapAt(items, i, j), SwapIndices(items, store, i, j);
            && Rearranged(items0, store0, items', store', n)
            && ClimbingAlong(maxFirst, items0, store0, items', store', n, p + [i], j0, i)
  {
    ClimbStep(maxFirst, items0, store0, items, store, n, j0, j);
    UpPathStep(maxFirst, items0, store0, items, store, n, p, j0, j);
  }

  lemma ClimbAlongEnd<T>(
    maxFirst: bool, items0: seq<Ref>, store0: Store<T>, items: seq<Ref>, store: Store<T>, n: nat,
    p: seq<nat>, j0: nat, j: nat)
    requires Indexed(items0, store0) && Rearranged(items0, store0, items, store, n)
    requires ClimbingAlong(maxFirst, items0, store0, items, store, n, p, j0, j)
    requires j == 0 ||
             (0 <= Parent(j) && Weights(maxFirst, items, store)[Parent(j)] <= Weights(maxFirst, items, store)[j])
    ensures IsHeap(Weights(maxFirst, items, store)[..n])
    ensures j0 > 0 && Weights(maxFirst, items0, store0)[0] <= Weights(maxFirst, items0, store0)[j0] ==>
              items[0] == items0[0]
    ensures SiftedUp(Weights(maxFirst, items0, store0)[..n], items0, items, j0)
  {
    ClimbEnd(maxFirst, items0, store0, items, store, n, j0, j);
    UpPathEnd(maxFirst, items0, store0, items, store, n, p, j0, j);
  }

  // --- the loop of `down` -----------------------------------------------------------------

  lemma DescendStep<T>(
    maxFirst: bool, items0: seq<Ref>, store0: Store<T>, items: seq<Ref>, store: Store<T>,
    n: nat, lo: nat, i0: nat, i: nat, j: nat)
    requires Rearranged(items0, store0, items, store, n)
    requires Sifting(Weights(maxFirst, items, store)[..n], lo, i0, i) && lo <= i0
    requires i < n && j < n && LighterChild(Weights(maxFirst, items, store)[..n], i, j)
    requires Weights(maxFirst, items, store)[j] < Weights(maxFirst, items, store)[i]
    ensures var items', store' := SwapAt(items, i, j), SwapIndices(items, store, i, j);
            && Rearranged(items0, store0, items', store', n)
            && Sifting(Weights(maxFirst, items', store')[..n], lo, i0, j)
  {
    SiftStep(Weights(maxFirst, items, store)[..n], lo, i0, i, j);
    SwapRearranges(maxFirst, items0, store0, items, store, n, i, j);
  }

  lemma DownPathStep<T>(
    maxFirst: bool, items0: seq<Ref>, store0: Store<T>, items: seq<Ref>, store: Store<T>, n: nat,
    p: seq<nat>, i0: nat, i: nat, j: nat)
    requires Indexed(items0, store0) && Rearranged(items0, store0, items, store, n)
    requires GoingDown(Weights(maxFirst, items0, store0)[..n], items0, items, p, i0, i)
    requires i < n && j < n && LighterChild(Weights(maxFirst, items, store)[..n], i, j)
    requires Weights(maxFirst, items, store)[j] < Weights(maxFirst, items, store)[i]
    ensures GoingDown(Weights(maxFirst, items0, store0)[..n], items0, SwapAt(items, i, j), p + [j], i0, j)
  {
    var w0, w := Weights(maxFirst, items0, store0)[..n], Weights(maxFirst, items, store)[..n];
    forall k | 0 <= k < |p| ensures p[k] < n { DownRises(w0, i0, p, k); }
    WeightsMove(maxFirst, items0, store0, items, store, n, p);
    DownGoesOn(w0, w, items0, items, p, i0, i, j);
  }

  lemma DownPathEnd<T>(
    maxFirst: bool, items0: seq<Ref>, store0: Store<T>, items: seq<Ref>, store: Store<T>, n: nat,
    p: seq<nat>, i0: nat, i: nat)
    requires Indexed(items0, store0) && Rearranged(items0, store0, items, store, n)
    requires GoingDown(Weights(maxFirst, items0, store0)[..n], items0, items, p, i0, i) && i < n
    requires StaysAbove(Weights(maxFirst, items, store)[..n], i, Weights(maxFirst, items, store)[i])
    ensures var w0 := Weights(maxFirst, items0, store0)[..n];
            i0 < n && SiftedDown(w0, items0, items, i0) && (i != i0 <==> !StaysAbove(w0, i0, w0[i0]))
  {
    var w0, w := Weights(maxFirst, items0, store0)[..n], Weights(maxFirst, items, store)[..n];
    forall k | 0 <= k < |p| ensures p[k] < n { DownRises(w0, i0, p, k); }
    WeightsMove(maxFirst, items0, store0, items, store, n, p);
    DownEnds(w0, w, items0, items, p, i0, i);
  }

  /** `down` from `i0` has come to `i` along this path. */
  ghost predicate DescendingAlong<T>(
    maxFirst: bool, items0: seq<Ref>, store0: Store<T>, items: seq<Ref>, n: nat, p: seq<nat>, i0: nat, i: int)
  {
    0 <= i < n <= |items0| && GoingDown(Weights(maxFirst, items0, store0)[..n], items0, items, p, i0, i)
  }

  lemma DescendAlongStep<T>(
    maxFirst: bool, items0: seq<Ref>, store0: Store<T>, items: seq<Ref>, store: Store<T>,
    n: nat, lo: nat, p: seq<nat>, i0: nat, i: nat, j: nat)
    requires Indexed(items0, store0) && Rearranged(items0, store0, items, store, n)
    requires Sifting(Weights(maxFirst, items, store)[..n], lo, i0, i) && lo <= i0
    requires DescendingAlong(maxFirst, items0, store0, items, n, p, i0, i)
    requires i < n && j < n && LighterChild(Weights(maxFirst, items, store)[..n], i, j)
    requires Weights(maxFirst, items, store)[j] < Weights(maxFirst, items, store)[i]
    ensures var items', store' := SwapAt(items, i, j), SwapIndices(items, store, i, j);
            && Rearranged(items0, store0, items', store', n)
            && Sifting(Weights(maxFirst, items', store')[..n], lo, i0, j)
            && DescendingAlong(maxFirst, items0, store0, items', n, p + [j], i0, j)
  {
    DescendStep(maxFirst, items0, store0, items, store, n, lo, i0, i, j);
    DownPathStep(maxFirst, items0, store0, items, store, n, p, i0, i, j);
  }

  lemma DescendAlongEnd<T>(
    maxFirst: bool, items0: seq<Ref>, store0: Store<T>, items: seq<Ref>, store: Store<T>,
    n: nat, lo: nat, p: seq<nat>, i0: nat, i: nat)
    requires Indexed(items0, store0) && Rearranged(items0, store0, items, store, n)
    requires DescendingAlong(maxFirst, items0, store0, items, n, p, i0, i)
    requires Sifting(Weights(maxFirst, items, store)[..n], lo, i0, i)
    requires var w := Weights(maxFirst, items, store)[..n];
             2 * i + 1 >= n || (exists j :: LighterChild(w, i, j) && w[i] <= w[j])
    ensures i != i0 ==> HeapFrom(Weights(maxFirst, items, store)[..n], lo)
    ensures i == i0 ==> ExceptUp(Weights(maxFirst, items, store)[..n], lo, i0)
    ensures var w := Weights(maxFirst, items0, store0)[..n];
            i0 < n && SiftedDown(w, items0, items, i0) && (i != i0 <==> !StaysAbove(w, i0, w[i0]))
  {
    SiftEnd(Weights(maxFirst, items, store)[..n], lo, i0, i);
    NoneLighter(Weights(maxFirst, items, store)[..n], i);
    DownPathEnd(maxFirst, items0, store0, items, store, n, p, i0, i);
  }

  lemma SwapSettles<T>(maxFirst: bool, items: seq<Ref>, store: Store<T>, i: nat, items': seq<Ref>)
    requires Indexed(items, store) && i < |items| - 1
    requires var n := |items| - 1;
             SettledIn(maxFirst, SwapAt(items, i, n), SwapIndices(items, store, i, n), n, i, items')
    ensures MovedOut(Weights(maxFirst, items, store), items, items', i)
  {
    SwapKeeps(maxFirst, items, store, i, |items| - 1);
  }

  lemma SwapOutAround<T>(maxFirst: bool, items: seq<Ref>, store: Store<T>, i: nat)
    requires HeapOk(maxFirst, items, store) && i < |items| - 1
    ensures var n := |items| - 1;
            var items', store' := SwapAt(items, i, n), SwapIndices(items, store, i, n);
            && Indexed(items', store') && SameEntries(store, store') && items'[n] == items[i]
            && ExceptAround(Weights(maxFirst, items', store')[..n], 0, i)
  {
    SwapKeeps(maxFirst, items, store, i, |items| - 1);
    SwapOutBreaksAround(Weights(maxFirst, items, store), i);
  }

  /** Entry `i` was exchanged with the last one and the others were moved around: it can be cut off. */
  lemma SwappedOut<T>(items0: seq<Ref>, store0: Store<T>, i: nat, items: seq<Ref>, store: Store<T>)
    requires Indexed(items0, store0) && i < |items0|
    requires Rearranged(SwapAt(items0, i, |items0| - 1), SwapIndices(items0, store0, i, |items0| - 1),
                        items, store, |items0| - 1)
    ensures var r := items0[i];
            && items[|items| - 1] == r && r in store0 && r in store
            && SameEntries(SetIndex(store0, r, -1), SetIndex(store, r, -1))
  {
    var n := |items0| - 1;
    assert items[n] == items[n..][0] == SwapAt(items0, i, n)[n..][0];
    SwapKeeps(false, items0, store0, i, n);
    SameTransitive(store0, SwapIndices(items0, store0, i, n), store);
  }

  /** A reference newly stored, and the others moved around. */
  ghost predicate Added<T>(store: Store<T>, r: Ref, value: T, key: int, store': Store<T>) {
    && r !in store && r in store' && store'[r].index != -1 && store'[r].value == value && store'[r].key == key
    && SameEntries(store[r := store'[r]], store')
  }

  lemma AppendedThenMoved<T>(
    items: seq<Ref>, store: Store<T>, r: Ref, value: T, key: int, items': seq<Ref>, store': Store<T>)
    requires r !in store
    requires Rearranged(items + [r], store[r := Item(value, key, |items|)], items', store', |items| + 1)
    ensures Added(store, r, value, key, store')
  {
  }

  lemma SwapSelf<T>(items: seq<Ref>, store: Store<T>, i: nat)
    requires Indexed(items, store) && i < |items|
    ensures SwapAt(items, i, i) == items && SwapIndices(items, store, i, i) == store
    ensures SameEntries(store, store)
  {
  }
}
