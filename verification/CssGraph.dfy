/** The tracker's imports loaded into a dependency graph, and the two searches side by side. */
module CssGraph {
  import opened Order
  import opened Digraph
  import opened Edges
  import opened Graph
  import opened Css

  const CSS_IMPORT := "css-import"

  /** One edge for each import of each tracked file, in any order of the files. */
  method LoadImports(tracker: Tracker) returns (g: Graph)
    requires tracker.Valid()
    ensures fresh(g) && g.Valid() && ArcsOf(g.edges) == ImportArcs(tracker.files)
  {
    g := new Graph();
    var rest := tracker.files.Keys;
    while rest != {}
      invariant fresh(g) && g.Valid() && rest <= tracker.files.Keys
      invariant ArcsOf(g.edges)
             == set p, imp | p in tracker.files.Keys - rest && imp in tracker.files[p].imports :: (p, imp)
      decreases rest
    {
      var p :| p in rest;
      AddImports(g, p, tracker.files[p].imports);
      rest := rest - {p};
    }
  }

  method AddImports(g: Graph, p: Id, imports: seq<Id>)
    requires g.Valid()
    modifies g
    ensures g.Valid() && ArcsOf(g.edges) == old(ArcsOf(g.edges)) + set imp | imp in imports :: (p, imp)
  {
    for i := 0 to |imports|
      invariant g.Valid() && ArcsOf(g.edges) == old(ArcsOf(g.edges)) + set imp | imp in imports[..i] :: (p, imp)
    {
      assert imports[..i + 1] == imports[..i] + [imports[i]];
      g.AddEdge(p, imports[i], CSS_IMPORT, false);
    }
    assert imports[..|imports|] == imports;
  }

  /** On the loaded graph the reverse index gives what the scan over all files gives, in order. */
  method AffectedBothWays(tracker: Tracker, path: Id) returns (fromTracker: seq<Id>, fromGraph: seq<Id>)
    requires tracker.Valid()
    ensures Sort(fromTracker) == fromGraph
    ensures Distinct(fromTracker) && forall x :: x in fromTracker <==> Reaches(ImportArcs(tracker.files), x, path)
  {
    var g := LoadImports(tracker);
    fromTracker := tracker.AffectedFiles(path);
    fromGraph := g.AffectedNodes(path);
    TrackerAgreesWithGraph(tracker.files, g.edges, path, fromTracker, fromGraph);
  }
}
