/**
 The parse cache as a map from paths to cached results, one step per operation, and what holds
 over every run of steps. The cache class is proved to take exactly these steps.
 */
module CacheModel {
  import opened Order
  import opened Edges

  /** A handle on a parse result; the cache never looks inside. */
  type Result = int

  datatype Cached = Cached(result: Result, hash: uint64, count: nat)

  type View = map<Id, Cached>

  /** `Idle` is a stage of an operation that leaves alone what is cached. */
  datatype Op =
    | Get(path: Id)
    | Put(path: Id, result: Result, hash: uint64)
    | Remove(path: Id)
    | Invalidate(hashes: map<Id, uint64>)
    | Clear
    | Idle

  function Accessed(c: Cached): Cached {
    c.(count := c.count + 1)
  }

  function Touched(v: View, p: Id): View {
    if p in v then v[p := Accessed(v[p])] else v
  }

  /** The entries whose hash is the current one. */
  function Current(v: View, hashes: map<Id, uint64>): View {
    map p | p in v && p in hashes && hashes[p] == v[p].hash :: v[p]
  }

  ghost predicate HasUntouched(v: View) {
    exists q :: q in v && v[q].count == 0
  }

  /**
   Storing a new path in a full cache evicts an untouched entry if there is one; otherwise the
   new entry is itself the least accessed and is dropped at once.
   */
  ghost predicate PutStep(max: nat, v: View, p: Id, r: Result, h: uint64, v': View) {
    if p in v then v' == v[p := Cached(r, h, v[p].count + 1)]
    else if |v| < max then v' == v[p := Cached(r, h, 0)]
    else if HasUntouched(v) then
      exists q :: q in v && v[q].count == 0 && v' == v[p := Cached(r, h, 0)] - {q}
    else v' == v
  }

  ghost predicate Step(max: nat, v: View, op: Op, v': View) {
    match op
    case Get(p) => v' == Touched(v, p)
    case Put(p, r, h) => PutStep(max, v, p, r, h, v')
    case Remove(p) => v' == v - {p}
    case Invalidate(hashes) => v' == Current(v, hashes)
    case Clear => v' == map[]
    case Idle => v' == v
  }

  /** The views a cache of capacity `max` goes through, starting empty. */
  ghost predicate Run(max: nat, ops: seq<Op>, views: seq<View>) {
    && |views| == |ops| + 1 && views[0] == map[]
    && forall i | 0 <= i < |ops| :: Step(max, views[i], ops[i], views[i + 1])
  }

  lemma MapSize(v: View, v': View)
    requires v'.Keys <= v.Keys
    ensures |v'| <= |v|
  {
    SubsetSize(v'.Keys, v.Keys);
    assert |v| == |v.Keys| && |v'| == |v'.Keys|;
  }

  lemma StepKeepsSize(max: nat, v: View, op: Op, v': View)
    requires Step(max, v, op, v') && |v| <= max
    ensures |v'| <= max
  {
    match op
    case Get(p) => assert v'.Keys == v.Keys; MapSize(v, v');
    case Put(p, r, h) =>
      if p in v {
        assert v'.Keys == v.Keys;
        MapSize(v, v');
      } else if |v| >= max && HasUntouched(v) {
        var q :| q in v && v[q].count == 0 && v' == v[p := Cached(r, h, 0)] - {q};
        assert v'.Keys == v.Keys + {p} - {q};
        assert |v'| == |v'.Keys| && |v| == |v.Keys|;
      }
    case Remove(p) => MapSize(v, v');
    case Invalidate(_) => MapSize(v, v');
    case Clear =>
    case Idle =>
  }

  lemma {:induction false} SizeBounded(max: nat, ops: seq<Op>, views: seq<View>, n: nat)
    requires Run(max, ops, views) && n <= |ops|
    ensures |views[n]| <= max
  {
    if n > 0 {
      SizeBounded(max, ops, views, n - 1);
      StepKeepsSize(max, views[n - 1], ops[n - 1], views[n]);
    }
  }

  /** `op` stored exactly this result and hash for `p`. */
  predicate Stores(op: Op, p: Id, r: Result, h: uint64) {
    op == Put(p, r, h)
  }

  /** `op` cannot have ended or replaced an entry for `p` with hash `h`. */
  predicate Keeps(op: Op, p: Id, h: uint64) {
    match op
    case Get(_) => true
    case Put(q, _, _) => q != p
    case Remove(q) => q != p
    case Invalidate(hashes) => p in hashes && hashes[p] == h
    case Clear => false
    case Idle => true
  }

  ghost predicate LastStoredAt(ops: seq<Op>, n: nat, p: Id, c: Cached, k: nat)
    requires n <= |ops|
  {
    k < n && Stores(ops[k], p, c.result, c.hash) && forall j | k < j < n :: Keeps(ops[j], p, c.hash)
  }

  /**
   Over every run, what is cached for a path is what the most recent `Put` of that path stored,
   and no `Remove`, `Clear` or failed `Invalidate` of the path has come since.
   */
  lemma {:induction false} CachedIsLatestPut(max: nat, ops: seq<Op>, views: seq<View>, n: nat, p: Id)
    requires Run(max, ops, views) && n <= |ops| && p in views[n]
    ensures exists k :: LastStoredAt(ops, n, p, views[n][p], k)
  {
    assert n > 0;
    var v, op, v' := views[n - 1], ops[n - 1], views[n];
    assert Step(max, v, op, v');
    if op.Put? && op.path == p {
      if p !in v && |v| >= max && HasUntouched(v) {
        var q :| q in v && v[q].count == 0 && v' == v[p := Cached(op.result, op.hash, 0)] - {q};
      }
      assert LastStoredAt(ops, n, p, v'[p], n - 1);
    } else {
      StepKeepsOther(max, v, op, v', p);
      CachedIsLatestPut(max, ops, views, n - 1, p);
      var k :| LastStoredAt(ops, n - 1, p, v[p], k);
      assert LastStoredAt(ops, n, p, v'[p], k);
    }
  }

  lemma StepKeepsOther(max: nat, v: View, op: Op, v': View, p: Id)
    requires Step(max, v, op, v') && p in v'
    requires !(op.Put? && op.path == p)
    ensures p in v && v'[p].result == v[p].result && v'[p].hash == v[p].hash && Keeps(op, p, v[p].hash)
  {
  }

  /** `op` reads the path or stores it again. */
  predicate Uses(op: Op, p: Id) {
    op == Get(p) || (op.Put? && op.path == p)
  }

  /** How many of the operations after the `k`th and before the `n`th use the path. */
  ghost function UsesSince(ops: seq<Op>, k: nat, n: nat, p: Id): nat
    requires n <= |ops|
  {
    if n <= k + 1 then 0 else UsesSince(ops, k, n - 1, p) + if Uses(ops[n - 1], p) then 1 else 0
  }

  /** Operation `k` stored the path when it was not cached, and it has been cached ever since. */
  ghost predicate EnteredAt(ops: seq<Op>, views: seq<View>, n: nat, p: Id, k: nat) {
    && k < n <= |ops| < |views| && ops[k].Put? && ops[k].path == p && p !in views[k]
    && forall j | k < j <= n :: p in views[j]
  }

  /** A cached path's count is the number of times it was used since it was stored. */
  lemma {:induction false} CountIsUses(max: nat, ops: seq<Op>, views: seq<View>, n: nat, p: Id) returns (k: nat)
    requires Run(max, ops, views) && n <= |ops| && p in views[n]
    ensures EnteredAt(ops, views, n, p, k) && views[n][p].count == UsesSince(ops, k, n, p)
  {
    var v, op := views[n - 1], ops[n - 1];
    assert Step(max, v, op, views[n]);
    if p in v {
      k := CountIsUses(max, ops, views, n - 1, p);
      StepCounts(max, v, op, views[n], p);
    } else {
      k := n - 1;
      StepEnters(max, v, op, views[n], p);
    }
  }

  lemma StepCounts(max: nat, v: View, op: Op, v': View, p: Id)
    requires Step(max, v, op, v') && p in v && p in v'
    ensures v'[p].count == v[p].count + if Uses(op, p) then 1 else 0
  {
  }

  lemma StepEnters(max: nat, v: View, op: Op, v': View, p: Id)
    requires Step(max, v, op, v') && p !in v && p in v'
    ensures op.Put? && op.path == p && v'[p].count == 0
  {
  }

  ghost predicate Full(max: nat, v: View) {
    |v| == max && !HasUntouched(v)
  }

  /**
   Once the cache is full and every entry has been accessed, `Get` and `Put` alone never change
   which paths are cached: new files are not cached at all until something is removed.
   */
  lemma {:induction false} FullCacheIsFrozen(max: nat, ops: seq<Op>, views: seq<View>, i: nat, j: nat)
    requires Run(max, ops, views) && i <= j <= |ops|
    requires Full(max, views[i])
    requires forall k | i <= k < j :: ops[k].Get? || ops[k].Put? || ops[k].Idle?
    ensures views[j].Keys == views[i].Keys && Full(max, views[j])
    decreases j - i
  {
    if i < j {
      FullCacheIsFrozen(max, ops, views, i, j - 1);
      FullStep(max, views[j - 1], ops[j - 1], views[j]);
    }
  }

  lemma FullStep(max: nat, v: View, op: Op, v': View)
    requires Step(max, v, op, v') && Full(max, v) && (op.Get? || op.Put? || op.Idle?)
    ensures v'.Keys == v.Keys && Full(max, v')
  {
    assert v'.Keys == v.Keys;
    assert |v'| == |v'.Keys| == |v.Keys| == |v|;
    forall q | q in v' ensures v'[q].count != 0 {
      assert v[q].count != 0;
    }
  }

  /** A stored path is cached afterwards exactly if it was, or there was room, or an untouched entry. */
  lemma PutIsKeptIff(max: nat, v: View, p: Id, r: Result, h: uint64, v': View)
    requires PutStep(max, v, p, r, h, v')
    ensures p in v' && v'[p].result == r && v'[p].hash == h <==>
            p in v || |v| < max || HasUntouched(v)
  {
  }

  /** A cache of one entry: once `p` has been read, another file is not cached at all. */
  lemma NewFileIsDropped(views: seq<View>, p: Id, q: Id, r: Result, h: uint64)
    requires p != q && Run(1, [Put(p, r, h), Get(p), Put(q, r, h)], views)
    ensures p in views[3] && q !in views[3]
  {
    var ops := [Put(p, r, h), Get(p), Put(q, r, h)];
    assert Step(1, views[0], ops[0], views[1]) && Step(1, views[1], ops[1], views[2]);
    assert Step(1, views[2], ops[2], views[3]);
    assert views[1] == map[p := Cached(r, h, 0)] && views[2] == map[p := Cached(r, h, 1)];
    assert |views[2]| == |views[2].Keys| && views[2].Keys == {p};
  }

  /** A cache of two: `q` was used after `p`, yet `q` is the one that makes way for a third file. */
  lemma LessRecentlyUsedStays(views: seq<View>, p: Id, q: Id, x: Id, r: Result, h: uint64)
    requires p != q && x !in {p, q} && Run(2, [Put(p, r, h), Get(p), Put(q, r, h), Put(x, r, h)], views)
    ensures p in views[4] && q !in views[4] && x in views[4]
  {
    var ops := [Put(p, r, h), Get(p), Put(q, r, h), Put(x, r, h)];
    assert Step(2, views[0], ops[0], views[1]) && Step(2, views[1], ops[1], views[2]);
    assert Step(2, views[2], ops[2], views[3]) && Step(2, views[3], ops[3], views[4]);
    assert views[2] == map[p := Cached(r, h, 1)];
    assert |views[2]| == |views[2].Keys| && views[2].Keys == {p};
    assert views[3] == map[p := Cached(r, h, 1), q := Cached(r, h, 0)];
    assert |views[3]| == |views[3].Keys| && views[3].Keys == {p, q};
    assert views[3][q].count == 0 && HasUntouched(views[3]);
  }
}
