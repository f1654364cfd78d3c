/**
 Which entry a sift leaves in which slot. An entry that moves does so along a path of slots, and
 those it passes move one place the other way. On ties the path is as Go's `container/heap` has it.
 */
module HeapPaths {
  import opened HeapShape

  /** The entry in the first slot of the path has moved to the last, the others one place back. */
  ghost predicate MovedAlong<T(!new)>(s: seq<T>, s': seq<T>, p: seq<nat>) {
    && |s'| == |s| && p != [] && (forall k | 0 <= k < |p| :: p[k] < |s|)
    && (forall k | 0 <= k < |p| - 1 :: Follows(s, s', p, k))
    && s'[p[|p| - 1]] == s[p[0]]
    && forall x | 0 <= x < |s| && x !in p :: s'[x] == s[x]
  }

  ghost predicate Follows<T(!new)>(s: seq<T>, s': seq<T>, p: seq<nat>, k: nat)
    requires k < |p| - 1
  {
    p[k] < |s'| && p[k + 1] < |s| && s'[p[k]] == s[p[k + 1]]
  }

  // --- down -------------------------------------------------------------------------------

  /** From slot `k` of the path to the next: the lighter child, which is lighter than what moves. */
  ghost predicate StepsDown(w: seq<int>, p: seq<nat>, k: nat)
    requires k < |p| - 1
  {
    p[0] < |w| && p[k + 1] < |w| && LighterChild(w, p[k], p[k + 1]) && w[p[k + 1]] < w[p[0]]
  }

  ghost predicate DownPath(w: seq<int>, i: nat, p: seq<nat>) {
    p != [] && p[0] == i < |w| && forall k | 0 <= k < |p| - 1 :: StepsDown(w, p, k)
  }

  /** Something in slot `i` of weight `x` is no heavier than the children there. */
  ghost predicate StaysAbove(w: seq<int>, i: nat, x: int) {
    forall j | LighterChild(w, i, j) :: x <= w[j]
  }

  /** `down` at slot `i`, among the slots that `w` has the weights of. */
  ghost predicate SiftedDown<T(!new)>(w: seq<int>, s: seq<T>, s': seq<T>, i: nat) {
    exists p :: DownPath(w, i, p) && StaysAbove(w, p[|p| - 1], w[i]) && MovedAlong(s, s', p)
  }

  lemma NoneLighter(w: seq<int>, i: nat)
    requires i < |w| && (2 * i + 1 >= |w| || exists j :: LighterChild(w, i, j) && w[i] <= w[j])
    ensures StaysAbove(w, i, w[i])
  {
  }

  // --- up ---------------------------------------------------------------------------------

  /** From slot `k` of the path to the next: the parent, which is heavier than what moves. */
  ghost predicate StepsUp(w: seq<int>, p: seq<nat>, k: nat)
    requires k < |p| - 1
  {
    p[0] < |w| && p[k + 1] < |w| && p[k] > 0 && p[k + 1] == Parent(p[k]) && w[p[0]] < w[p[k + 1]]
  }

  ghost predicate UpPath(w: seq<int>, i: nat, p: seq<nat>) {
    p != [] && p[0] == i < |w| && forall k | 0 <= k < |p| - 1 :: StepsUp(w, p, k)
  }

  ghost predicate StaysBelow(w: seq<int>, i: nat, x: int) {
    i > 0 ==> 0 <= Parent(i) < |w| && w[Parent(i)] <= x
  }

  /** `up` at slot `i`. */
  ghost predicate SiftedUp<T(!new)>(w: seq<int>, s: seq<T>, s': seq<T>, i: nat) {
    exists p :: UpPath(w, i, p) && StaysBelow(w, p[|p| - 1], w[i]) && MovedAlong(s, s', p)
  }

  lemma StaysPut<T(!new)>(w: seq<int>, s: seq<T>, i: nat)
    requires i < |w| <= |s| && StaysBelow(w, i, w[i])
    ensures SiftedUp(w, s, s, i)
  {
    MovedNowhere(s, i);
    assert UpPath(w, i, [i]);
  }

  /** What is in slot `i` moves down if it can, and up otherwise. */
  ghost predicate SettledAt<T(!new)>(w: seq<int>, s: seq<T>, s': seq<T>, i: nat)
    requires i < |w|
  {
    if StaysAbove(w, i, w[i]) then SiftedUp(w, s, s', i) else SiftedDown(w, s, s', i)
  }

  /** The entry in slot `i` and the last have changed places, and that has settled among the others. */
  ghost predicate MovedOut<T(!new)>(w: seq<int>, s: seq<T>, t: seq<T>, i: nat) {
    && |w| == |s| && i < |s|
    && var n := |s| - 1;
       if i == n then t == s else SettledAt(SwapAt(w, i, n)[..n], SwapAt(s, i, n), t, i)
  }

  /** `heap.Remove` at slot `i`; `heap.Pop` is the case of slot 0. */
  ghost predicate RemovedAt<T(!new)>(w: seq<int>, s: seq<T>, s': seq<T>, i: nat) {
    exists t :: |t| == |s| > 0 && s' == t[..|s| - 1] && MovedOut(w, s, t, i)
  }

  /** At the root only the way down is open. */
  lemma RootSettles<T(!new)>(w: seq<int>, s: seq<T>, s': seq<T>)
    requires |w| <= |s| && SiftedDown(w, s, s', 0)
    ensures SettledAt(w, s, s', 0)
  {
    var p :| DownPath(w, 0, p) && StaysAbove(w, p[|p| - 1], w[0]) && MovedAlong(s, s', p);
    if StaysAbove(w, 0, w[0]) {
      assert |p| > 1 ==> StepsDown(w, p, 0);
      assert UpPath(w, 0, p) && StaysBelow(w, p[|p| - 1], w[0]);
    }
  }

  // --- the loops --------------------------------------------------------------------------

  lemma {:induction false} DownRises(w: seq<int>, i: nat, p: seq<nat>, k: nat)
    requires DownPath(w, i, p) && k < |p|
    ensures p[k] <= p[|p| - 1] && p[k] < |w| && (k < |p| - 1 ==> p[k] < p[|p| - 1])
    decreases |p| - k
  {
    if k < |p| - 1 {
      DownRises(w, i, p, k + 1);
      assert StepsDown(w, p, k);
    } else if k > 0 {
      assert StepsDown(w, p, k - 1);
    }
  }

  lemma {:induction false} UpFalls(w: seq<int>, i: nat, p: seq<nat>, k: nat)
    requires UpPath(w, i, p) && k < |p|
    ensures p[|p| - 1] <= p[k] < |w| && (k < |p| - 1 ==> p[|p| - 1] < p[k])
    decreases |p| - k
  {
    if k < |p| - 1 {
      UpFalls(w, i, p, k + 1);
      assert StepsUp(w, p, k);
      ChildIndices(p[k]);
    }
    if k > 0 {
      assert StepsUp(w, p, k - 1);
    }
  }

  lemma MovedNowhere<T(!new)>(s: seq<T>, i: nat)
    requires i < |s|
    ensures MovedAlong(s, s, [i])
  {
  }

  /** One more exchange, with a slot that is not on the path. */
  lemma MovedFurther<T(!new)>(s: seq<T>, s': seq<T>, p: seq<nat>, j: nat)
    requires MovedAlong(s, s', p) && j < |s| && j !in p && (forall k | 0 <= k < |p| - 1 :: p[k] != p[|p| - 1])
    ensures MovedAlong(s, SwapAt(s', p[|p| - 1], j), p + [j])
    ensures MovedAlong(s, SwapAt(s', j, p[|p| - 1]), p + [j])
  {
    var i, q := p[|p| - 1], p + [j];
    var t := SwapAt(s', i, j);
    assert t == SwapAt(s', j, i);
    forall k | 0 <= k < |q| - 1 ensures Follows(s, t, q, k) {
      assert p[k] in p;
      if k < |p| - 1 { assert Follows(s, s', p, k); }
    }
    forall x | 0 <= x < |s| && x !in q ensures t[x] == s[x] {
      assert p[|p| - 1] in p && q[|p|] == j;
      assert forall y | y in p :: y in q;
    }
  }

  /** Where `down` stands. */
  ghost predicate GoingDown<T(!new)>(w: seq<int>, s: seq<T>, s': seq<T>, p: seq<nat>, i0: nat, i: nat) {
    DownPath(w, i0, p) && MovedAlong(s, s', p) && p[|p| - 1] == i
  }

  lemma DownStart<T(!new)>(w: seq<int>, s: seq<T>, i: nat)
    requires i < |w| <= |s|
    ensures GoingDown(w, s, s, [i], i, i)
  {
    MovedNowhere(s, i);
  }

  /** The weights below slot `i` are as they were, and that in it is the one that moves. */
  lemma BelowAsBefore(w: seq<int>, w': seq<int>, p: seq<nat>, i0: nat, j: nat)
    requires DownPath(w, i0, p) && MovedAlong(w, w', p)
    ensures LighterChild(w', p[|p| - 1], j) <==> LighterChild(w, p[|p| - 1], j)
    ensures LighterChild(w, p[|p| - 1], j) ==> w'[j] == w[j] && j !in p
    ensures w'[p[|p| - 1]] == w[i0] && forall k | 0 <= k < |p| - 1 :: p[k] < p[|p| - 1]
  {
    var i := p[|p| - 1];
    forall k | 0 <= k < |p| ensures p[k] <= i && (k < |p| - 1 ==> p[k] < i) {
      DownRises(w, i0, p, k);
    }
    forall x | i < x < |w| ensures w'[x] == w[x] && x !in p {}
  }

  lemma DownGoesOn<T(!new)>(w: seq<int>, w': seq<int>, s: seq<T>, s': seq<T>, p: seq<nat>, i0: nat, i: nat, j: nat)
    requires GoingDown(w, s, s', p, i0, i) && MovedAlong(w, w', p) && |w| <= |s|
    requires j < |w| && LighterChild(w', i, j) && w'[j] < w'[i]
    ensures GoingDown(w, s, SwapAt(s', i, j), p + [j], i0, j)
  {
    BelowAsBefore(w, w', p, i0, j);
    MovedFurther(s, s', p, j);
    forall k | 0 <= k < |p| ensures StepsDown(w, p + [j], k) {
      if k < |p| - 1 { assert StepsDown(w, p, k); }
    }
  }

  lemma DownEnds<T(!new)>(w: seq<int>, w': seq<int>, s: seq<T>, s': seq<T>, p: seq<nat>, i0: nat, i: nat)
    requires GoingDown(w, s, s', p, i0, i) && MovedAlong(w, w', p)
    requires i < |w'| && StaysAbove(w', i, w'[i])
    ensures SiftedDown(w, s, s', i0) && (i != i0 <==> !StaysAbove(w, i0, w[i0]))
  {
    forall j | LighterChild(w, i, j) ensures w[i0] <= w[j] {
      BelowAsBefore(w, w', p, i0, j);
    }
    assert StaysAbove(w, p[|p| - 1], w[i0]);
    if i != i0 {
      assert StepsDown(w, p, 0);
    } else if |p| > 1 {
      DownRises(w, i0, p, 0);
    }
  }

  /** Where `up` stands. */
  ghost predicate GoingUp<T(!new)>(w: seq<int>, s: seq<T>, s': seq<T>, p: seq<nat>, i0: nat, i: nat) {
    UpPath(w, i0, p) && MovedAlong(s, s', p) && p[|p| - 1] == i
  }

  lemma UpStart<T(!new)>(w: seq<int>, s: seq<T>, i: nat)
    requires i < |w| <= |s|
    ensures GoingUp(w, s, s, [i], i, i)
  {
    MovedNowhere(s, i);
  }

  lemma AboveAsBefore(w: seq<int>, w': seq<int>, p: seq<nat>, i0: nat, j: nat)
    requires UpPath(w, i0, p) && MovedAlong(w, w', p) && j < p[|p| - 1]
    ensures w'[j] == w[j] && j !in p && w'[p[|p| - 1]] == w[i0]
    ensures forall k | 0 <= k < |p| - 1 :: p[|p| - 1] < p[k]
  {
    forall k | 0 <= k < |p| ensures p[|p| - 1] <= p[k] && (k < |p| - 1 ==> p[|p| - 1] < p[k]) {
      UpFalls(w, i0, p, k);
    }
  }

  lemma UpGoesOn<T(!new)>(w: seq<int>, w': seq<int>, s: seq<T>, s': seq<T>, p: seq<nat>, i0: nat, i: nat, j: nat)
    requires GoingUp(w, s, s', p, i0, i) && MovedAlong(w, w', p) && |w| <= |s|
    requires 0 < i < |w'| && j == Parent(i) && w'[i] < w'[j]
    ensures GoingUp(w, s, SwapAt(s', j, i), p + [j], i0, j)
  {
    ChildIndices(i);
    AboveAsBefore(w, w', p, i0, j);
    MovedFurther(s, s', p, j);
    forall k | 0 <= k < |p| ensures StepsUp(w, p + [j], k) {
      if k < |p| - 1 { assert StepsUp(w, p, k); }
    }
  }

  lemma UpEnds<T(!new)>(w: seq<int>, w': seq<int>, s: seq<T>, s': seq<T>, p: seq<nat>, i0: nat, i: nat)
    requires GoingUp(w, s, s', p, i0, i) && MovedAlong(w, w', p)
    requires i < |w'| && StaysBelow(w', i, w'[i])
    ensures SiftedUp(w, s, s', i0)
  {
    if i > 0 {
      ChildIndices(i);
      AboveAsBefore(w, w', p, i0, Parent(i));
    }
    assert StaysBelow(w, p[|p| - 1], w[i0]);
  }

  // --- each sift has one outcome ----------------------------------------------------------

  lemma {:induction false} SameDownPath(w: seq<int>, i: nat, p: seq<nat>, q: seq<nat>, k: nat)
    requires DownPath(w, i, p) && DownPath(w, i, q) && k < |p| && StaysAbove(w, q[|q| - 1], w[i])
    ensures k < |q| && q[k] == p[k]
  {
    if k > 0 {
      SameDownPath(w, i, p, q, k - 1);
      assert StepsDown(w, p, k - 1);
      if k - 1 < |q| - 1 { assert StepsDown(w, q, k - 1); }
    }
  }

  lemma SameMove<T(!new)>(s: seq<T>, a: seq<T>, b: seq<T>, p: seq<nat>)
    requires MovedAlong(s, a, p) && MovedAlong(s, b, p)
    ensures a == b
  {
    forall x | 0 <= x < |s| ensures a[x] == b[x] {
      if x in p {
        var k :| 0 <= k < |p| && p[k] == x;
        if k < |p| - 1 { assert Follows(s, a, p, k) && Follows(s, b, p, k); }
      }
    }
  }

  lemma SiftedDownOnce<T(!new)>(w: seq<int>, s: seq<T>, a: seq<T>, b: seq<T>, i: nat)
    requires SiftedDown(w, s, a, i) && SiftedDown(w, s, b, i)
    ensures a == b
  {
    var p :| DownPath(w, i, p) && StaysAbove(w, p[|p| - 1], w[i]) && MovedAlong(s, a, p);
    var q :| DownPath(w, i, q) && StaysAbove(w, q[|q| - 1], w[i]) && MovedAlong(s, b, q);
    SameDownPath(w, i, p, q, |p| - 1);
    SameDownPath(w, i, q, p, |q| - 1);
    forall k | 0 <= k < |p| ensures p[k] == q[k] {
      SameDownPath(w, i, p, q, k);
    }
    assert p == q;
    SameMove(s, a, b, p);
  }

  lemma {:induction false} SameUpPath(w: seq<int>, i: nat, p: seq<nat>, q: seq<nat>, k: nat)
    requires UpPath(w, i, p) && UpPath(w, i, q) && k < |p| && StaysBelow(w, q[|q| - 1], w[i])
    ensures k < |q| && q[k] == p[k]
  {
    if k > 0 {
      SameUpPath(w, i, p, q, k - 1);
      assert StepsUp(w, p, k - 1);
      if k - 1 < |q| - 1 { assert StepsUp(w, q, k - 1); }
    }
  }

  lemma SiftedUpOnce<T(!new)>(w: seq<int>, s: seq<T>, a: seq<T>, b: seq<T>, i: nat)
    requires SiftedUp(w, s, a, i) && SiftedUp(w, s, b, i)
    ensures a == b
  {
    var p :| UpPath(w, i, p) && StaysBelow(w, p[|p| - 1], w[i]) && MovedAlong(s, a, p);
    var q :| UpPath(w, i, q) && StaysBelow(w, q[|q| - 1], w[i]) && MovedAlong(s, b, q);
    SameUpPath(w, i, p, q, |p| - 1);
    SameUpPath(w, i, q, p, |q| - 1);
    forall k | 0 <= k < |p| ensures p[k] == q[k] {
      SameUpPath(w, i, p, q, k);
    }
    assert p == q;
    SameMove(s, a, b, p);
  }
}
