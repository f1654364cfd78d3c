/** The incremental build engine: snapshots of file hashes, and what changed since. */
module Engine {
  import opened Order
  import opened Digraph
  import opened Edges
  import opened Graph
  import opened Changes

  class Engine {
    const graph: Graph
    var baseHashes: map<Id, uint64>

    constructor ()
      ensures baseHashes == map[] && fresh(graph)
      ensures graph.Valid() && graph.nodes == map[] && graph.edges == map[]
    {
      graph := new Graph();
      baseHashes := map[];
    }

    /** Later entries win; paths the snapshot already knows are kept. */
    method Snapshot(files: seq<File>)
      modifies this`baseHashes
      ensures baseHashes == old(baseHashes) + LastHashes(files)
    {
      var i := 0;
      while i < |files|
        invariant 0 <= i <= |files|
        invariant baseHashes == old(baseHashes) + LastHashes(files[..i])
      {
        assert files[..i + 1][..i] == files[..i];
        baseHashes := baseHashes[files[i].path := files[i].hash];
        i := i + 1;
      }
      assert files[..i] == files;
    }

    method ComputeChanges(current: seq<File>) returns (changes: seq<Change>)
      ensures IsChangeList(baseHashes, current, changes)
      ensures TellsAll(baseHashes, current, changes)
    {
      changes := [];
      var seen: set<Id> := {};
      var i := 0;
      while i < |current|
        invariant 0 <= i <= |current|
        invariant changes == Updates(baseHashes, current[..i])
        invariant seen == PathsOf(current[..i])
      {
        var f := current[i];
        assert current[..i + 1][..i] == current[..i];
        seen := seen + {f.path};
        if f.path !in baseHashes {
          changes := changes + [Created(f.path, f.hash)];
        } else if baseHashes[f.path] != f.hash {
          changes := changes + [Modified(f.path, baseHashes[f.path], f.hash)];
        }
        i := i + 1;
      }
      assert current[..i] == current;
      var deleted := DeletedPaths(seen);
      changes := changes + deleted;
      ChangeListTells(baseHashes, current, changes);
    }

    /** The loop over the snapshot, in any order. */
    method DeletedPaths(seen: set<Id>) returns (deleted: seq<Change>)
      ensures IsDeletions(baseHashes, seen, deleted)
    {
      deleted := [];
      var paths := AnyOrder(baseHashes.Keys);
      var i := 0;
      while i < |paths|
        invariant 0 <= i <= |paths|
        invariant Distinct(deleted)
        invariant forall c :: c in deleted <==>
                    c.Deleted? && c.path in paths[..i] && c.path !in seen && c.oldHash == baseHashes[c.path]
      {
        var p := paths[i];
        assert p in paths;
        assert paths[..i + 1] == paths[..i] + [p];
        if p !in seen {
          assert forall k | 0 <= k < |deleted| :: deleted[k] in deleted;
          assert p !in paths[..i];
          deleted := deleted + [Deleted(p, baseHashes[p])];
        }
        i := i + 1;
      }
      assert paths[..i] == paths;
    }

    method AffectedFiles(changes: seq<Change>) returns (result: seq<Id>)
      requires graph.Valid()
      ensures Distinct(result)
      ensures forall x :: x in result <==>
                exists k :: 0 <= k < |changes| && Reaches(ArcsOf(graph.edges), x, changes[k].path)
    {
      var affected: set<Id> := {};
      var i := 0;
      while i < |changes|
        invariant 0 <= i <= |changes|
        invariant forall x :: x in affected <==>
                    exists k :: 0 <= k < i && Reaches(ArcsOf(graph.edges), x, changes[k].path)
      {
        ReachesSelf(ArcsOf(graph.edges), changes[i].path);
        var dependents := graph.AffectedNodes(changes[i].path);
        affected := affected + {changes[i].path} + Elems(dependents);
        i := i + 1;
      }
      result := AnyOrder(affected);
    }

    method Clear()
      modifies this, graph
      ensures baseHashes == map[]
      ensures graph.Valid() && graph.nodes == map[] && graph.edges == map[]
    {
      baseHashes := map[];
      graph.Clear();
    }
  }
}
