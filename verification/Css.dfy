/**
 The CSS dependency tracker. It keeps no reverse index: dependents are found by scanning every
 tracked file. Reading a file and extracting its imports is not part of this model.
 */
module Css {
  import opened Order
  import opened Digraph
  import opened Edges

  datatype File = File(path: Id, imports: seq<Id>)

  /** A tracked file points at each of its imports. */
  ghost function ImportArcs(files: map<Id, File>): Arcs {
    set p, imp | p in files && imp in files[p].imports :: (p, imp)
  }

  class Tracker {
    var files: map<Id, File>

    ghost predicate Valid()
      reads this
    {
      forall p | p in files :: files[p].path == p
    }

    constructor ()
      ensures Valid() && files == map[]
    {
      files := map[];
    }

    /** Record a file whose imports have been extracted; tracking a path again replaces it. */
    method TrackFile(path: Id, imports: seq<Id>)
      requires Valid()
      modifies this
      ensures Valid() && files == old(files)[path := File(path, imports)]
    {
      files := files[path := File(path, imports)];
    }

    method GetDependents(path: Id) returns (result: seq<Id>)
      requires Valid()
      ensures Distinct(result)
      ensures forall p :: p in result <==> (p, path) in ImportArcs(files)
    {
      result := [];
      var paths := files.Keys;
      while paths != {}
        invariant paths <= files.Keys
        invariant Distinct(result)
        invariant forall p :: p in result <==> p in files.Keys - paths && path in files[p].imports
        decreases paths
      {
        var p :| p in paths;
        var ft := files[p];
        ImportsMeansIn(ft.imports, path);
        if Imports(ft.imports, path) {
          assert forall i | 0 <= i < |result| :: result[i] in result;
          result := result + [ft.path];
        }
        paths := paths - {p};
      }
    }

    method AffectedFiles(path: Id) returns (result: seq<Id>)
      requires Valid()
      ensures Distinct(result)
      ensures forall x :: x in result <==> Reaches(ImportArcs(files), x, path)
    {
      ghost var arcs := ImportArcs(files);
      var affected, queue := {path}, [path];
      SpreadStart(arcs, path);
      while queue != []
        invariant Spreading(arcs, path, affected, queue)
        decreases Vertices(arcs, path) - (affected - Elems(queue))
      {
        var deps := GetDependents(queue[0]);
        affected, queue := AddDependents(deps, arcs, path, affected, queue);
      }
      SpreadDone(arcs, path, affected);
      result := AnyOrder(affected);
    }
  }

  /** The inner loop of `GetDependents`, which stops at the first match. */
  predicate Imports(imports: seq<Id>, path: Id) {
    imports != [] && (imports[0] == path || Imports(imports[1..], path))
  }

  lemma {:induction false} ImportsMeansIn(imports: seq<Id>, path: Id)
    ensures Imports(imports, path) <==> path in imports
  {
    if imports != [] {
      ImportsMeansIn(imports[1..], path);
    }
  }

  /** Take the front of the queue and add its unseen dependents. */
  method AddDependents(deps: seq<Id>, ghost arcs: Arcs, ghost start: Id, before: set<Id>, waiting: seq<Id>)
    returns (affected: set<Id>, queue: seq<Id>)
    requires Spreading(arcs, start, before, waiting) && waiting != []
    requires forall u :: u in deps <==> (u, waiting[0]) in arcs
    ensures Spreading(arcs, start, affected, queue)
    ensures Vertices(arcs, start) - (affected - Elems(queue)) < Vertices(arcs, start) - (before - Elems(waiting))
  {
    ExpandStart(arcs, start, before, waiting);
    affected, queue := before, waiting[1..];
    var i := 0;
    while i < |deps|
      invariant 0 <= i <= |deps|
      invariant Expanding(arcs, start, affected, queue, waiting[0])
      invariant affected - Elems(queue) == before - Elems(waiting[1..])
      invariant forall k | 0 <= k < i :: deps[k] in affected
    {
      var dep := deps[i];
      if dep !in affected {
        assert dep in deps;
        ExpandAdd(arcs, start, affected, queue, waiting[0], dep);
        affected := affected + {dep};
        queue := queue + [dep];
      }
      i := i + 1;
    }
    ExpandDone(arcs, start, affected, queue, waiting[0]);
    SpreadShrinks(arcs, start, before, waiting, affected, queue);
  }

  /**
   The scan over all files and the graph's reverse index agree: on a graph that holds the
   tracker's imports as edges, both searches name the same files.
   */
  lemma TrackerAgreesWithGraph(
    files: map<Id, File>, edges: Adjacency, path: Id, fromTracker: seq<Id>, fromGraph: seq<Id>)
    requires ArcsOf(edges) == ImportArcs(files)
    requires forall x :: x in fromTracker <==> Reaches(ImportArcs(files), x, path)
    requires forall x :: x in fromGraph <==> Reaches(ArcsOf(edges), x, path)
    requires Distinct(fromTracker) && Distinct(fromGraph) && Sorted(fromGraph)
    ensures Sort(fromTracker) == fromGraph
  {
    SortFacts(fromTracker);
    assert Elems(fromTracker) == Elems(fromGraph);
    SortedListingUnique(Sort(fromTracker), fromGraph);
  }
}
