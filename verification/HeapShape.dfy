/** Binary heaps as sequences of weights: the shapes between two sift steps. */
module HeapShape {

  /** Go's integer division by two, which truncates toward zero. */
  function Half(x: int): int {
    if x >= 0 then x / 2 else -((-x) / 2)
  }

  function Parent(i: int): int {
    Half(i - 1)
  }

  function SwapAt<T>(s: seq<T>, i: nat, j: nat): seq<T>
    requires i < |s| && j < |s|
  {
    s[i := s[j]][j := s[i]]
  }

  /** Entry `k` is no lighter than its parent. */
  ghost predicate InOrder(w: seq<int>, k: int)
    requires 0 < k < |w|
  {
    0 <= Parent(k) < |w| && w[Parent(k)] <= w[k]
  }

  /** No entry is lighter than its parent. */
  ghost predicate IsHeap(w: seq<int>) {
    HeapFrom(w, 0)
  }

  /** The same, for parents from `lo` on. */
  ghost predicate HeapFrom(w: seq<int>, lo: int) {
    forall k | 0 < k < |w| && Parent(k) >= lo :: InOrder(w, k)
  }

  /** The children of `i` are no lighter than the parent of `i`. */
  ghost predicate GrandparentOk(w: seq<int>, lo: int, i: int)
    requires 0 <= i < |w|
  {
    i > 0 && Parent(i) >= lo ==> forall k | 0 < k < |w| && Parent(k) == i :: w[Parent(i)] <= w[k]
  }

  /** A heap from `lo` on, except that `i` may be lighter than its parent. */
  ghost predicate ExceptUp(w: seq<int>, lo: int, i: int) {
    && 0 <= i < |w|
    && (forall k | 0 < k < |w| && Parent(k) >= lo && k != i :: InOrder(w, k))
    && GrandparentOk(w, lo, i)
  }

  /** A heap from `lo` on, except for the edges above and below `i`. */
  ghost predicate ExceptAround(w: seq<int>, lo: int, i: int) {
    && 0 <= i < |w|
    && (forall k | 0 < k < |w| && Parent(k) >= lo && k != i && Parent(k) != i :: InOrder(w, k))
    && GrandparentOk(w, lo, i)
  }

  /** The edge above `i` is in order. */
  ghost predicate AboveOk(w: seq<int>, lo: int, i: int)
    requires 0 <= i < |w|
  {
    i > 0 && Parent(i) >= lo ==> w[Parent(i)] <= w[i]
  }

  lemma ChildIndices(k: int)
    requires k > 0
    ensures 0 <= Parent(k) < k
    ensures k == 2 * Parent(k) + 1 || k == 2 * Parent(k) + 2
    ensures Parent(2 * k + 1) == k && Parent(2 * k + 2) == k
  {
  }

  lemma {:induction false} RootIsLightest(w: seq<int>, k: nat)
    requires IsHeap(w) && k < |w|
    ensures w[0] <= w[k]
    decreases k
  {
    if k > 0 {
      ChildIndices(k);
      RootIsLightest(w, Parent(k));
    }
  }

  lemma ChangeBreaksAround(w: seq<int>, w': seq<int>, i: nat)
    requires IsHeap(w) && |w'| == |w| && i < |w|
    requires forall k | 0 <= k < |w| && k != i :: w'[k] == w[k]
    ensures ExceptAround(w', 0, i)
  {
    forall k | 0 < k < |w| && Parent(k) == i && i > 0 ensures w'[Parent(i)] <= w'[k] {
      ChildIndices(k);
      ChildIndices(i);
      assert w[Parent(i)] <= w[i] <= w[k];
    }
    forall k | 0 < k < |w| && k != i && Parent(k) != i ensures InOrder(w', k) {
      ChildIndices(k);
    }
  }

  /** One step of `up`. */
  lemma SwapUp(w: seq<int>, lo: int, j: nat)
    requires ExceptUp(w, lo, j) && j > 0 && w[j] < w[Parent(j)]
    requires 0 <= Parent(j) < |w|
    requires Parent(j) >= lo
    ensures ExceptUp(SwapAt(w, Parent(j), j), lo, Parent(j))
  {
    var i := Parent(j);
    var w' := SwapAt(w, i, j);
    ChildIndices(j);
    forall k | 0 < k < |w| && Parent(k) >= lo && k != i ensures InOrder(w', k) {
      ChildIndices(k);
      if k == j {
      } else if Parent(k) == i {
        assert w[i] <= w[k];
      } else if Parent(k) == j {
        assert w[Parent(j)] <= w[k];
      }
    }
    if i > 0 && Parent(i) >= lo {
      ChildIndices(i);
      forall k | 0 < k < |w| && Parent(k) == i ensures w'[Parent(i)] <= w'[k] {
        assert w[Parent(i)] <= w[i];
        if k != j { assert w[i] <= w[k]; }
      }
    }
  }

  lemma UpStops(w: seq<int>, lo: int, j: nat)
    requires ExceptUp(w, lo, j) && AboveOk(w, lo, j)
    ensures HeapFrom(w, lo)
  {
  }

  /** The child of `i` that `down` compares with: the lighter one, the left one on a tie. */
  ghost predicate LighterChild(w: seq<int>, i: int, j: int)
    requires 0 <= i
  {
    && 0 < j < |w| && (j == 2 * i + 1 || j == 2 * i + 2)
    && (2 * i + 1 < |w| ==> w[j] <= w[2 * i + 1])
    && (2 * i + 2 < |w| ==> w[j] <= w[2 * i + 2])
    && (j == 2 * i + 2 ==> w[j] < w[2 * i + 1])
  }

  /** One step of `down`. */
  lemma SwapDown(w: seq<int>, lo: int, i: nat, j: nat)
    requires ExceptAround(w, lo, i) && lo <= i
    requires LighterChild(w, i, j) && w[j] < w[i]
    ensures var w' := SwapAt(w, i, j);
            ExceptAround(w', lo, j) && AboveOk(w', lo, j)
  {
    var w' := SwapAt(w, i, j);
    assert Parent(j) == i;
    forall k | 0 < k < |w| && Parent(k) >= lo && k != j && Parent(k) != j ensures InOrder(w', k) {
      ChildIndices(k);
      if Parent(k) == i {
        assert k == 2 * i + 1 || k == 2 * i + 2;
      } else if k == i {
        assert w[Parent(i)] <= w[j];
      }
    }
    forall k | 0 < k < |w| && Parent(k) == j ensures w'[Parent(j)] <= w'[k] {
      ChildIndices(k);
      assert w[j] <= w[k];
    }
  }

  lemma DownStops(w: seq<int>, lo: int, i: nat)
    requires ExceptAround(w, lo, i)
    requires 2 * i + 1 < |w| ==> w[i] <= w[2 * i + 1]
    requires 2 * i + 2 < |w| ==> w[i] <= w[2 * i + 2]
    ensures ExceptUp(w, lo, i)
  {
    forall k | 0 < k < |w| && Parent(k) == i ensures w[i] <= w[k] {
      ChildIndices(k);
    }
  }

  lemma SwapPrefix<T>(s: seq<T>, i: nat, j: nat, n: nat)
    requires i < n <= |s| && j < n
    ensures SwapAt(s, i, j)[..n] == SwapAt(s[..n], i, j)
    ensures SwapAt(s, i, j)[n..] == s[n..]
  {
  }

  lemma AppendBreaksUp(w: seq<int>, x: int)
    requires IsHeap(w)
    ensures ExceptUp(w + [x], 0, |w|)
  {
    var w' := w + [x];
    forall k | 0 < k < |w'| && k != |w| ensures InOrder(w', k) {
      ChildIndices(k);
    }
    forall k | 0 < k < |w'| && Parent(k) == |w| ensures false {
      ChildIndices(k);
    }
  }

  /** The last entry in place of entry `i`, and `i` out of reach. */
  lemma SwapOutBreaksAround(w: seq<int>, i: nat)
    requires IsHeap(w) && i < |w|
    ensures i < |w| - 1 ==> ExceptAround(SwapAt(w, i, |w| - 1)[..|w| - 1], 0, i)
  {
    var n := |w| - 1;
    if i < n {
      ChangeBreaksAround(w[..n], SwapAt(w, i, n)[..n], i);
    }
  }

  lemma PrefixIsHeap(w: seq<int>, n: nat)
    requires IsHeap(w) && n <= |w|
    ensures IsHeap(w[..n])
  {
    forall k | 0 < k < n ensures InOrder(w[..n], k) {
      ChildIndices(k);
      assert InOrder(w, k);
    }
  }

  lemma NoInnerSlots(w: seq<int>)
    ensures HeapFrom(w, |w| / 2)
  {
  }

  /** Where `down` stands: it started at `i0` and its entry is now at `i`. */
  ghost predicate Sifting(w: seq<int>, lo: nat, i0: int, i: int) {
    && (0 <= i < |w| ==> ExceptAround(w, lo, i))
    && (i != i0 ==> lo <= i0 < i < |w| && AboveOk(w, lo, i))
  }

  lemma SiftStep(w: seq<int>, lo: nat, i0: int, i: nat, j: nat)
    requires Sifting(w, lo, i0, i) && lo <= i0 && 0 <= i0
    requires i < |w| && LighterChild(w, i, j) && w[j] < w[i]
    ensures Sifting(SwapAt(w, i, j), lo, i0, j)
  {
    SwapDown(w, lo, i, j);
  }

  lemma SiftEnd(w: seq<int>, lo: nat, i0: int, i: nat)
    requires Sifting(w, lo, i0, i) && i < |w|
    requires 2 * i + 1 >= |w| || exists j :: LighterChild(w, i, j) && w[i] <= w[j]
    ensures i != i0 ==> HeapFrom(w, lo)
    ensures i == i0 ==> ExceptUp(w, lo, i0)
  {
    DownStops(w, lo, i);
    if i != i0 { UpStops(w, lo, i); }
  }
}
