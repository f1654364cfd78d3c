/** The two tables of the graph store, and how they relate to a graph's maps. */
module StoreTables {
  import opened Order
  import opened Edges

  datatype NodeRow = NodeRow(path: string, kind: string, hash: int64, size: int64)

  /** `int64(h)`: the bit pattern read as two's complement. */
  function AsSigned(h: uint64): int64 {
    if h < 0x8000_0000_0000_0000 then h else h - 0x1_0000_0000_0000_0000
  }

  /** `uint64(h)`. */
  function AsUnsigned(h: int64): uint64 {
    if h >= 0 then h else h + 0x1_0000_0000_0000_0000
  }

  function RowOf(n: Node): NodeRow {
    NodeRow(n.path, n.kind, AsSigned(n.hash), n.size)
  }

  function NodeOf(id: Id, row: NodeRow): Node {
    Node(id, row.path, row.kind, AsUnsigned(row.hash), row.size)
  }

  function BoolToInt(b: bool): int {
    if b then 1 else 0
  }

  /** The flag of the first edge of `es` with the given key. */
  ghost predicate FirstFlag(es: seq<Edge>, key: EdgeKey, flag: int) {
    exists k :: 0 <= k < |es| && KeyOf(es[k]) == key && flag == BoolToInt(es[k].dynamic)
      && forall j | 0 <= j < k :: KeyOf(es[j]) != key
  }

  ghost predicate NodesSaved(nodes: map<Id, Node>, nodeRows: map<Id, NodeRow>) {
    nodeRows == map id | id in nodes :: RowOf(nodes[id])
  }

  ghost predicate EdgesSaved(edges: Adjacency, edgeRows: map<EdgeKey, int>) {
    && edgeRows.Keys == EdgeKeys(edges)
    && forall key | key in edgeRows :: FirstFlag(Bucket(edges, key.0), key, edgeRows[key])
  }

  ghost predicate NodesLoaded(nodeRows: map<Id, NodeRow>, nodes: map<Id, Node>) {
    nodes == map id | id in nodeRows :: NodeOf(id, nodeRows[id])
  }

  /** The edge a row stands for. */
  function EdgeOf(key: EdgeKey, flag: int): Edge {
    Edge(key.0, key.1, key.2, flag != 0)
  }

  /** One edge per row, nothing else. */
  ghost predicate EdgesLoaded(edgeRows: map<EdgeKey, int>, edges: Adjacency) {
    && SourcesMatch(edges)
    && forall e: Edge {:trigger Count(edges, e)} :: Count(edges, e) ==
         if KeyOf(e) in edgeRows && e == EdgeOf(KeyOf(e), edgeRows[KeyOf(e)]) then 1 else 0
  }

  // --- the columns ------------------------------------------------------------------------

  /** The same 64 bits, read without and with a sign. */
  predicate SameBits(u: uint64, s: int64) {
    (u - s) % 0x1_0000_0000_0000_0000 == 0
  }

  /** The columns of a node row. */
  predicate NodeColumns(n: Node, row: NodeRow) {
    row.path == n.path && row.kind == n.kind && row.size == n.size && SameBits(n.hash, row.hash)
  }

  /** The node table as `Save` leaves it, or as `Load` reads it, column by column. */
  ghost predicate NodeTable(nodes: map<Id, Node>, nodeRows: map<Id, NodeRow>) {
    nodes.Keys == nodeRows.Keys && forall id | id in nodes :: nodes[id].id == id && NodeColumns(nodes[id], nodeRows[id])
  }

  /** Each row has the source, target and type of an edge, and the flag of the first such edge as 0 or 1. */
  ghost predicate EdgeTable(edges: Adjacency, edgeRows: map<EdgeKey, int>) {
    && (forall u, e | u in edges && e in edges[u] :: (e.source, e.target, e.kind) in edgeRows)
    && forall key | key in edgeRows ::
         exists k :: 0 <= k < |Bucket(edges, key.0)| && FirstColumns(Bucket(edges, key.0), k, key, edgeRows[key])
  }

  ghost predicate FirstColumns(es: seq<Edge>, k: nat, key: EdgeKey, flag: int) {
    && k < |es| && SameColumns(es[k], key) && flag == (if es[k].dynamic then 1 else 0)
    && forall j | 0 <= j < k :: !SameColumns(es[j], key)
  }

  predicate SameColumns(e: Edge, key: EdgeKey) {
    e.source == key.0 && e.target == key.1 && e.kind == key.2
  }

  /** One edge for each row: the row's columns, and dynamic unless the flag is 0. */
  ghost predicate EdgesRead(edgeRows: map<EdgeKey, int>, edges: Adjacency) {
    forall e: Edge {:trigger Count(edges, e)} :: Count(edges, e) ==
      if (e.source, e.target, e.kind) in edgeRows && e.dynamic == (edgeRows[(e.source, e.target, e.kind)] != 0)
      then 1 else 0
  }

  lemma SavedColumns(nodes: map<Id, Node>, nodeRows: map<Id, NodeRow>, edges: Adjacency, edgeRows: map<EdgeKey, int>)
    requires (forall id | id in nodes :: nodes[id].id == id) && NodesSaved(nodes, nodeRows)
    requires SourcesMatch(edges) && EdgesSaved(edges, edgeRows)
    ensures NodeTable(nodes, nodeRows) && EdgeTable(edges, edgeRows)
  {
    forall u, e | u in edges && e in edges[u] ensures (e.source, e.target, e.kind) in edgeRows {
      assert KeyOf(e) in EdgeKeys(edges);
    }
    forall key | key in edgeRows
      ensures exists k :: 0 <= k < |Bucket(edges, key.0)| && FirstColumns(Bucket(edges, key.0), k, key, edgeRows[key])
    {
      var es := Bucket(edges, key.0);
      var k :| 0 <= k < |es| && KeyOf(es[k]) == key && edgeRows[key] == BoolToInt(es[k].dynamic)
        && forall j | 0 <= j < k :: KeyOf(es[j]) != key;
      assert FirstColumns(es, k, key, edgeRows[key]);
    }
  }

  lemma LoadedColumns(nodeRows: map<Id, NodeRow>, nodes: map<Id, Node>, edgeRows: map<EdgeKey, int>, edges: Adjacency)
    requires NodesLoaded(nodeRows, nodes) && EdgesLoaded(edgeRows, edges)
    ensures NodeTable(nodes, nodeRows) && EdgesRead(edgeRows, edges)
  {
  }

  /** `Load` after `Save` rebuilds every node. */
  lemma NodesRoundTrip(nodes: map<Id, Node>, nodeRows: map<Id, NodeRow>, nodes': map<Id, Node>)
    requires forall id | id in nodes :: nodes[id].id == id
    requires NodesSaved(nodes, nodeRows) && NodesLoaded(nodeRows, nodes')
    ensures nodes' == nodes
  {
    forall id | id in nodes ensures nodes'[id] == nodes[id] {
      assert AsUnsigned(AsSigned(nodes[id].hash)) == nodes[id].hash;
    }
  }

  lemma KeysMeanArcs(edges: Adjacency)
    requires SourcesMatch(edges)
    ensures ArcsOf(edges) == set key | key in EdgeKeys(edges) :: (key.0, key.1)
  {
    forall u, v | (u, v) in ArcsOf(edges)
      ensures exists key :: key in EdgeKeys(edges) && (key.0, key.1) == (u, v)
    {
      var x, e :| x in edges && e in edges[x] && (x, e.target) == (u, v);
      var key := KeyOf(e);
      assert key in EdgeKeys(edges) && (key.0, key.1) == (u, v);
    }
    forall key | key in EdgeKeys(edges) ensures (key.0, key.1) in ArcsOf(edges) {
      var u, e :| u in edges && e in edges[u] && KeyOf(e) == key;
      assert e in Bucket(edges, key.0);
    }
  }

  lemma LoadedKeys(edgeRows: map<EdgeKey, int>, edges: Adjacency)
    requires EdgesLoaded(edgeRows, edges)
    ensures EdgeKeys(edges) == edgeRows.Keys
  {
    forall key | key in EdgeKeys(edges) ensures key in edgeRows {
      var u, e :| u in edges && e in edges[u] && KeyOf(e) == key;
      assert Count(edges, e) > 0;
    }
    forall key | key in edgeRows ensures key in EdgeKeys(edges) {
      var e := EdgeOf(key, edgeRows[key]);
      assert KeyOf(e) == key;
      assert Count(edges, e) == 1;
      assert e in Bucket(edges, e.source);
    }
  }

  /** `Load` after `Save` keeps the edge keys, hence which ids are joined. */
  lemma EdgesRoundTrip(edges: Adjacency, edgeRows: map<EdgeKey, int>, edges': Adjacency)
    requires SourcesMatch(edges) && EdgesSaved(edges, edgeRows) && EdgesLoaded(edgeRows, edges')
    ensures EdgeKeys(edges') == EdgeKeys(edges) && ArcsOf(edges') == ArcsOf(edges)
    ensures forall e: Edge ::
              Count(edges', e) == if FirstFlag(Bucket(edges, e.source), KeyOf(e), BoolToInt(e.dynamic)) then 1 else 0
  {
    LoadedKeys(edgeRows, edges');
    KeysMeanArcs(edges);
    KeysMeanArcs(edges');
    forall e: Edge
      ensures Count(edges', e) ==
              if FirstFlag(Bucket(edges, e.source), KeyOf(e), BoolToInt(e.dynamic)) then 1 else 0
    {
      FlagIsRow(edges, edgeRows, e);
    }
  }

  lemma FirstFlagUnique(es: seq<Edge>, key: EdgeKey, a: int, b: int)
    requires FirstFlag(es, key, a) && FirstFlag(es, key, b)
    ensures a == b
  {
  }

  lemma FlagIsRow(edges: Adjacency, edgeRows: map<EdgeKey, int>, e: Edge)
    requires SourcesMatch(edges) && EdgesSaved(edges, edgeRows)
    ensures FirstFlag(Bucket(edges, e.source), KeyOf(e), BoolToInt(e.dynamic))
      <==> KeyOf(e) in edgeRows && e == EdgeOf(KeyOf(e), edgeRows[KeyOf(e)])
  {
    var es, key := Bucket(edges, e.source), KeyOf(e);
    if FirstFlag(es, key, BoolToInt(e.dynamic)) {
      var k :| 0 <= k < |es| && KeyOf(es[k]) == key && BoolToInt(e.dynamic) == BoolToInt(es[k].dynamic)
        && forall j | 0 <= j < k :: KeyOf(es[j]) != key;
      assert es[k] in edges[e.source];
      assert key in EdgeKeys(edges);
      FirstFlagUnique(es, key, BoolToInt(e.dynamic), edgeRows[key]);
    }
  }

  lemma LoadedFlag(edgeRows: map<EdgeKey, int>, edges: Adjacency, key: EdgeKey, flag: int)
    requires EdgesLoaded(edgeRows, edges) && key in edgeRows
    requires FirstFlag(Bucket(edges, key.0), key, flag)
    ensures (flag != 0) == (edgeRows[key] != 0) && (flag == 0 || flag == 1)
  {
    var es := Bucket(edges, key.0);
    var k :| 0 <= k < |es| && KeyOf(es[k]) == key && flag == BoolToInt(es[k].dynamic)
      && forall j | 0 <= j < k :: KeyOf(es[j]) != key;
    var e := es[k];
    assert e in Bucket(edges, e.source);
    assert Count(edges, e) > 0;
  }

  lemma SecondFlagSame(
    edges: Adjacency, edgeRows: map<EdgeKey, int>, edges': Adjacency, edgeRows': map<EdgeKey, int>, key: EdgeKey)
    requires EdgesSaved(edges, edgeRows) && EdgesLoaded(edgeRows, edges') && EdgesSaved(edges', edgeRows')
    requires key in edgeRows && key in edgeRows'
    ensures edgeRows'[key] == edgeRows[key]
  {
    FlagIsBit(Bucket(edges, key.0), key, edgeRows[key]);
    LoadedFlag(edgeRows, edges', key, edgeRows'[key]);
  }

  lemma FlagIsBit(es: seq<Edge>, key: EdgeKey, flag: int)
    requires FirstFlag(es, key, flag)
    ensures flag == 0 || flag == 1
  {
  }

  /** The rows in `done` have been read: one edge for each. */
  ghost predicate RowsRead(edgeRows: map<EdgeKey, int>, done: set<EdgeKey>, edges: Adjacency)
    requires done <= edgeRows.Keys
  {
    forall e: Edge {:trigger Count(edges, e)} :: Count(edges, e) ==
      if KeyOf(e) in done && e == EdgeOf(KeyOf(e), edgeRows[KeyOf(e)]) then 1 else 0
  }

  lemma ReadOneRow(edgeRows: map<EdgeKey, int>, done: set<EdgeKey>, edges: Adjacency, reverse: Adjacency, key: EdgeKey)
    requires key in edgeRows && key !in done && done <= edgeRows.Keys
    requires Transposed(edges, reverse) && RowsRead(edgeRows, done, edges)
    ensures var e := EdgeOf(key, edgeRows[key]);
            && Transposed(AddTo(edges, e.source, e), AddTo(reverse, e.target, e))
            && RowsRead(edgeRows, done + {key}, AddTo(edges, e.source, e))
  {
    var e := EdgeOf(key, edgeRows[key]);
    AddKeepsTransposed(edges, reverse, e);
    assert KeyOf(e) == key;
  }
}
