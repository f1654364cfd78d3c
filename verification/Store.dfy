/**
 The graph store: `Save` replaces both tables in one transaction, `Load` rebuilds a graph from
 their rows in whatever order the database returns them.
 */
module Store {
  import opened Order
  import opened Edges
  import opened StoreTables
  import opened Graph

  class Store {
    var nodeRows: map<Id, NodeRow>
    var edgeRows: map<EdgeKey, int>

    constructor ()
      ensures nodeRows == map[] && edgeRows == map[]
    {
      nodeRows, edgeRows := map[], map[];
    }

    method Save(g: Graph)
      requires g.Valid()
      modifies this
      ensures NodesSaved(g.nodes, nodeRows)
      ensures EdgesSaved(g.edges, edgeRows)
      ensures NodeTable(g.nodes, nodeRows) && EdgeTable(g.edges, edgeRows)
    {
      nodeRows := InsertNodes(g.nodes);
      edgeRows := InsertEdges(g.edges);
      SavedColumns(g.nodes, nodeRows, g.edges, edgeRows);
    }

    method Load() returns (g: Graph)
      ensures fresh(g) && g.Valid()
      ensures NodesLoaded(nodeRows, g.nodes)
      ensures EdgesLoaded(edgeRows, g.edges)
      ensures NodeTable(g.nodes, nodeRows) && EdgesRead(edgeRows, g.edges)
    {
      g := new Graph();
      var ids := nodeRows.Keys;
      while ids != {}
        invariant ids <= nodeRows.Keys
        invariant g.nodes == map id | id in nodeRows.Keys - ids :: NodeOf(id, nodeRows[id])
        invariant g.edges == map[] && g.reverse == map[]
        decreases ids
      {
        var id :| id in ids;
        g.nodes := g.nodes[id := NodeOf(id, nodeRows[id])];
        ids := ids - {id};
      }
      g.edges, g.reverse := ReadEdges(edgeRows);
      LoadedColumns(nodeRows, g.nodes, edgeRows, g.edges);
    }

    method Clear()
      modifies this
      ensures nodeRows == map[] && edgeRows == map[]
    {
      nodeRows, edgeRows := map[], map[];
    }
  }

  /** The inserts into the emptied node table. */
  method InsertNodes(nodes: map<Id, Node>) returns (nodeRows: map<Id, NodeRow>)
    requires forall id | id in nodes :: nodes[id].id == id
    ensures NodesSaved(nodes, nodeRows)
  {
    nodeRows := map[];
    var ids := nodes.Keys;
    while ids != {}
      invariant ids <= nodes.Keys
      invariant nodeRows == map id | id in nodes.Keys - ids :: RowOf(nodes[id])
      decreases ids
    {
      var id :| id in ids;
      var n := nodes[id];
      nodeRows := nodeRows[n.id := RowOf(n)];
      ids := ids - {id};
    }
  }

  /** The `INSERT OR IGNORE`s into the emptied edge table. */
  method InsertEdges(edges: Adjacency) returns (edgeRows: map<EdgeKey, int>)
    requires SourcesMatch(edges)
    ensures EdgesSaved(edges, edgeRows)
  {
    edgeRows := map[];
    var sources := edges.Keys;
    while sources != {}
      invariant sources <= edges.Keys
      invariant forall key | key in edgeRows :: key.0 in edges.Keys - sources && key in EdgeKeys(edges)
      invariant forall key | key in edgeRows :: FirstFlag(Bucket(edges, key.0), key, edgeRows[key])
      invariant forall u, e | u in edges.Keys - sources && e in edges[u] :: KeyOf(e) in edgeRows
      decreases sources
    {
      var u :| u in sources;
      assert forall e | e in edges[u] :: KeyOf(e) in EdgeKeys(edges);
      edgeRows := InsertBucket(edgeRows, edges[u], u);
      sources := sources - {u};
    }
  }

  method InsertBucket(before: map<EdgeKey, int>, es: seq<Edge>, u: Id) returns (edgeRows: map<EdgeKey, int>)
    requires forall e | e in es :: e.source == u
    requires forall key | key in before :: key.0 != u
    ensures edgeRows.Keys == before.Keys + set e | e in es :: KeyOf(e)
    ensures forall key | key in before :: edgeRows[key] == before[key]
    ensures forall key | key in edgeRows && key !in before :: FirstFlag(es, key, edgeRows[key])
  {
    edgeRows := before;
    var i := 0;
    while i < |es|
      invariant 0 <= i <= |es|
      invariant forall key | key in before :: key in edgeRows && edgeRows[key] == before[key]
      invariant forall j | 0 <= j < i :: KeyOf(es[j]) in edgeRows
      invariant forall key | key in edgeRows && key !in before ::
                  FirstFlag(es, key, edgeRows[key]) && exists j :: 0 <= j < i && KeyOf(es[j]) == key
    {
      var key := KeyOf(es[i]);
      assert es[i] in es;
      if key !in edgeRows {
        edgeRows := edgeRows[key := BoolToInt(es[i].dynamic)];
        assert FirstFlag(es, key, edgeRows[key]);
      }
      i := i + 1;
    }
  }

  /** The loop over the edge rows: each row is filed under its source and its target. */
  method ReadEdges(edgeRows: map<EdgeKey, int>) returns (edges: Adjacency, reverse: Adjacency)
    ensures Transposed(edges, reverse) && EdgesLoaded(edgeRows, edges)
  {
    edges, reverse := map[], map[];
    var keys := edgeRows.Keys;
    while keys != {}
      invariant keys <= edgeRows.Keys
      invariant Transposed(edges, reverse)
      invariant RowsRead(edgeRows, edgeRows.Keys - keys, edges)
      decreases keys
    {
      var key :| key in keys;
      var e := EdgeOf(key, edgeRows[key]);
      ReadOneRow(edgeRows, edgeRows.Keys - keys, edges, reverse, key);
      assert edgeRows.Keys - keys + {key} == edgeRows.Keys - (keys - {key});
      edges, reverse := AddTo(edges, e.source, e), AddTo(reverse, e.target, e);
      keys := keys - {key};
    }
    assert edgeRows.Keys - keys == edgeRows.Keys;
  }
}
