/** Nodes, edges and adjacency maps as values, and what they say about arcs and in-degrees. */
module Edges {
  import opened Order
  import opened Digraph

  type uint64 = x: int | 0 <= x < 0x1_0000_0000_0000_0000
  type int64 = x: int | -0x8000_0000_0000_0000 <= x < 0x8000_0000_0000_0000

  datatype Node = Node(id: Id, path: string, kind: string, hash: uint64, size: int64)

  datatype Edge = Edge(source: Id, target: Id, kind: string, dynamic: bool)

  /** What identifies an edge to `Diff` and to the store: everything but the `Dynamic` flag. */
  type EdgeKey = (Id, Id, string)

  function KeyOf(e: Edge): EdgeKey {
    (e.source, e.target, e.kind)
  }

  type Adjacency = map<Id, seq<Edge>>

  /** Go's lookup of a slice in a map: a missing key gives the empty slice. */
  function Bucket(m: Adjacency, id: Id): seq<Edge> {
    if id in m then m[id] else []
  }

  function AddTo(m: Adjacency, id: Id, e: Edge): Adjacency {
    m[id := Bucket(m, id) + [e]]
  }

  /** `append(m[id], e)`: the edge comes last in its bucket, the other buckets stay as they are. */
  lemma AddedLast(m: Adjacency, id: Id, e: Edge)
    ensures Bucket(AddTo(m, id, e), id) == Bucket(m, id) + [e] && AddTo(m, id, e).Keys == m.Keys + {id}
    ensures forall other | other != id :: Bucket(AddTo(m, id, e), other) == Bucket(m, other)
  {
  }

  ghost predicate SourcesMatch(edges: Adjacency) {
    forall u, e | u in edges && e in edges[u] :: e.source == u
  }

  ghost predicate TargetsMatch(reverse: Adjacency) {
    forall v, e | v in reverse && e in reverse[v] :: e.target == v
  }

  /** `reverse` files every edge, as often as `edges` has it, under its target. */
  ghost predicate Transposed(edges: Adjacency, reverse: Adjacency) {
    && SourcesMatch(edges)
    && TargetsMatch(reverse)
    && forall e: Edge :: Count(edges, e) == multiset(Bucket(reverse, e.target))[e]
  }

  /** How often the edge occurs in the graph. */
  ghost function Count(edges: Adjacency, e: Edge): nat {
    multiset(Bucket(edges, e.source))[e]
  }

  ghost function ArcsOf(edges: Adjacency): Arcs {
    set u, e | u in edges && e in edges[u] :: (u, e.target)
  }

  lemma ArcsOfBucket(edges: Adjacency, u: Id, v: Id)
    ensures (u, v) in ArcsOf(edges) <==> exists e :: e in Bucket(edges, u) && e.target == v
  {
  }

  ghost function EdgeKeys(edges: Adjacency): set<EdgeKey> {
    set u, e | u in edges && e in edges[u] :: KeyOf(e)
  }

  ghost function Targets(edges: Adjacency): set<Id> {
    set u, e | u in edges && e in edges[u] :: e.target
  }

  lemma ArcsFromReverse(edges: Adjacency, reverse: Adjacency, u: Id, v: Id)
    requires Transposed(edges, reverse)
    ensures (u, v) in ArcsOf(edges) <==> exists e :: e in Bucket(reverse, v) && e.source == u
  {
    ArcsOfBucket(edges, u, v);
    if e :| e in Bucket(edges, u) && e.target == v {
      assert Count(edges, e) > 0;
      assert e in Bucket(reverse, v) && e.source == u;
    }
    if e :| e in Bucket(reverse, v) && e.source == u {
      assert e.target == v;
      assert multiset(Bucket(reverse, e.target))[e] > 0;
      assert Count(edges, e) > 0;
      assert e in Bucket(edges, u);
    }
  }

  lemma PredsFromReverse(edges: Adjacency, reverse: Adjacency, v: Id)
    requires Transposed(edges, reverse)
    ensures forall u :: (u, v) in ArcsOf(edges) <==>
              exists k :: 0 <= k < |Bucket(reverse, v)| && Bucket(reverse, v)[k].source == u
  {
    forall u
      ensures (u, v) in ArcsOf(edges) <==>
              exists k :: 0 <= k < |Bucket(reverse, v)| && Bucket(reverse, v)[k].source == u
    {
      ArcsFromReverse(edges, reverse, u, v);
      if e :| e in Bucket(reverse, v) && e.source == u {
        var k :| 0 <= k < |Bucket(reverse, v)| && Bucket(reverse, v)[k] == e;
      }
    }
  }

  lemma BucketAfterAdd(m: Adjacency, k: Id, e: Edge, x: Id)
    ensures Bucket(AddTo(m, k, e), x) == if x == k then Bucket(m, k) + [e] else Bucket(m, x)
  {
  }

  lemma CountsAfterAdd(m: Adjacency, k: Id, e: Edge, x: Edge, y: Id)
    ensures multiset(Bucket(AddTo(m, k, e), y))[x] == multiset(Bucket(m, y))[x] + if y == k && x == e then 1 else 0
  {
    BucketAfterAdd(m, k, e, y);
    assert multiset(Bucket(m, k) + [e]) == multiset(Bucket(m, k)) + multiset{e};
  }

  lemma ArcsAfterAdd(edges: Adjacency, e: Edge)
    ensures ArcsOf(AddTo(edges, e.source, e)) == ArcsOf(edges) + {(e.source, e.target)}
  {
    var edges' := AddTo(edges, e.source, e);
    forall u, v
      ensures (u, v) in ArcsOf(edges') <==> (u, v) in ArcsOf(edges) + {(e.source, e.target)}
    {
      ArcsOfBucket(edges, u, v);
      ArcsOfBucket(edges', u, v);
      BucketAfterAdd(edges, e.source, e, u);
    }
  }

  /** Filing an edge under its source and its target keeps the two indexes transposed. */
  lemma AddKeepsTransposed(edges: Adjacency, reverse: Adjacency, e: Edge)
    requires Transposed(edges, reverse)
    ensures Transposed(AddTo(edges, e.source, e), AddTo(reverse, e.target, e))
    ensures forall x: Edge :: Count(AddTo(edges, e.source, e), x) == Count(edges, x) + if x == e then 1 else 0
  {
    var edges' := AddTo(edges, e.source, e);
    var reverse' := AddTo(reverse, e.target, e);
    forall x: Edge
      ensures Count(edges', x) == Count(edges, x) + if x == e then 1 else 0
      ensures Count(edges', x) == multiset(Bucket(reverse', x.target))[x]
    {
      CountsAfterAdd(edges, e.source, e, x, x.source);
      CountsAfterAdd(reverse, e.target, e, x, x.target);
    }
    forall u: Id, x: Edge | u in edges' && x in edges'[u] ensures x.source == u {
      BucketAfterAdd(edges, e.source, e, u);
      assert x in Bucket(edges', u);
    }
    forall v: Id, x: Edge | v in reverse' && x in reverse'[v] ensures x.target == v {
      BucketAfterAdd(reverse, e.target, e, v);
      assert x in Bucket(reverse', v);
    }
  }

  // --- counting the edges into a vertex -------------------------------------------------

  ghost function CountTo(es: seq<Edge>, v: Id): nat {
    if es == [] then 0
    else CountTo(es[..|es| - 1], v) + if es[|es| - 1].target == v then 1 else 0
  }

  lemma CountToStep(es: seq<Edge>, i: nat, v: Id)
    requires i < |es|
    ensures CountTo(es[..i + 1], v) == CountTo(es[..i], v) + if es[i].target == v then 1 else 0
  {
    assert es[..i + 1][..i] == es[..i];
  }

  lemma {:induction false} CountToPrefix(es: seq<Edge>, i: nat, v: Id)
    requires i <= |es|
    ensures CountTo(es[..i], v) <= CountTo(es, v)
    decreases |es|
  {
    if i == |es| {
      assert es[..i] == es;
    } else {
      var n := |es| - 1;
      CountToPrefix(es[..n], i, v);
      assert es[..n][..i] == es[..i];
    }
  }

  lemma {:induction false} CountToZero(es: seq<Edge>, v: Id)
    ensures CountTo(es, v) == 0 <==> forall e | e in es :: e.target != v
  {
    if es != [] {
      var n := |es| - 1;
      CountToZero(es[..n], v);
      assert es == es[..n] + [es[n]];
    }
  }

  /** The edges into `v` from the sources in `S`, counted with multiplicity. */
  ghost function InFrom(edges: Adjacency, S: set<Id>, v: Id): nat
  {
    if S == {} then 0
    else var u :| u in S; CountTo(Bucket(edges, u), v) + InFrom(edges, S - {u}, v)
  }

  lemma {:induction false} InFromRemove(edges: Adjacency, S: set<Id>, u: Id, v: Id)
    requires u in S
    ensures InFrom(edges, S, v) == CountTo(Bucket(edges, u), v) + InFrom(edges, S - {u}, v)
    decreases |S|
  {
    var w :| w in S && InFrom(edges, S, v) == CountTo(Bucket(edges, w), v) + InFrom(edges, S - {w}, v);
    if w != u {
      InFromRemove(edges, S - {w}, u, v);
      InFromRemove(edges, S - {u}, w, v);
      assert S - {w} - {u} == S - {u} - {w};
    }
  }

  lemma {:induction false} InFromZero(edges: Adjacency, S: set<Id>, v: Id)
    ensures InFrom(edges, S, v) == 0 <==> forall u | u in S :: (u, v) !in ArcsOf(edges)
    decreases |S|
  {
    if S != {} {
      var u :| u in S;
      InFromRemove(edges, S, u, v);
      InFromZero(edges, S - {u}, v);
      CountToZero(Bucket(edges, u), v);
      ArcsOfBucket(edges, u, v);
      assert S == (S - {u}) + {u};
    }
  }

  // --- lists of edges ---------------------------------------------------------------------

  /** `list` is a part of `es`, in the same order. */
  ghost predicate PartOf(es: seq<Edge>, list: seq<Edge>, pos: seq<nat>) {
    && |pos| == |list| && Increasing(pos)
    && forall k | 0 <= k < |list| :: pos[k] < |es| && es[pos[k]] == list[k]
  }

  lemma PartGoesOn(es: seq<Edge>, i: nat, list: seq<Edge>, pos: seq<nat>)
    requires i < |es| && PartOf(es[..i], list, pos)
    ensures PartOf(es, list, pos) && PartOf(es[..i + 1], list, pos)
    ensures PartOf(es[..i + 1], list + [es[i]], pos + [i])
  {
  }

  /** The edges of one source stand together, in the order of its bucket. */
  ghost predicate ByBuckets(from: Adjacency, list: seq<Edge>) {
    Together(list) && exists pos: seq<nat> :: InPlaces(from, list, pos)
  }

  ghost predicate InPlaces(from: Adjacency, list: seq<Edge>, pos: seq<nat>) {
    && |pos| == |list|
    && (forall k | 0 <= k < |list| ::
          pos[k] < |Bucket(from, list[k].source)| && Bucket(from, list[k].source)[pos[k]] == list[k])
    && forall a, b | 0 <= a < b < |list| && list[a].source == list[b].source :: pos[a] < pos[b]
  }

  ghost predicate Together(list: seq<Edge>) {
    forall a, b, c | 0 <= a < b < c < |list| && list[a].source == list[c].source :: list[b].source == list[a].source
  }

  lemma TogetherOn(list: seq<Edge>, u: Id, found: seq<Edge>)
    requires Together(list) && (forall k | 0 <= k < |list| :: list[k].source != u)
    requires forall k | 0 <= k < |found| :: found[k].source == u
    ensures Together(list + found)
  {
    var all := list + found;
    forall a, b, c | 0 <= a < b < c < |all| && all[a].source == all[c].source ensures all[b].source == all[a].source {
      assert c >= |list| ==> all[c] == found[c - |list|];
    }
  }

  lemma AddBucket(from: Adjacency, list: seq<Edge>, u: Id, found: seq<Edge>, pos: seq<nat>)
    requires ByBuckets(from, list) && PartOf(Bucket(from, u), found, pos)
    requires (forall e | e in Bucket(from, u) :: e.source == u) && forall e | e in list :: e.source != u
    ensures ByBuckets(from, list + found)
  {
    var before: seq<nat> :| InPlaces(from, list, before);
    assert forall k | 0 <= k < |found| :: found[k] in Bucket(from, u);
    assert forall k | 0 <= k < |list| :: list[k] in list;
    TogetherOn(list, u, found);
    assert InPlaces(from, list + found, before + pos);
  }
}
