/** Snapshots and change lists as values, and when applying the changes reproduces the files. */
module Changes {
  import opened Order
  import opened Edges

  datatype File = File(path: Id, hash: uint64)

  datatype Change =
    | Created(path: Id, newHash: uint64)
    | Modified(path: Id, oldHash: uint64, newHash: uint64)
    | Deleted(path: Id, oldHash: uint64)

  /** The hash each path ends up with when the list is stored entry by entry. */
  function LastHashes(files: seq<File>): map<Id, uint64> {
    if files == [] then map[]
    else
      var last := files[|files| - 1];
      LastHashes(files[..|files| - 1])[last.path := last.hash]
  }

  function PathsOf(files: seq<File>): set<Id> {
    set f | f in files :: f.path
  }

  /** The created and modified entries, in the order of the files. */
  function Updates(base: map<Id, uint64>, files: seq<File>): seq<Change> {
    if files == [] then []
    else
      var last := files[|files| - 1];
      Updates(base, files[..|files| - 1]) +
      if last.path !in base then [Created(last.path, last.hash)]
      else if base[last.path] != last.hash then [Modified(last.path, base[last.path], last.hash)]
      else []
  }

  /** A deletion for every snapshot path that was not seen, each once. */
  ghost predicate IsDeletions(base: map<Id, uint64>, seen: set<Id>, deleted: seq<Change>) {
    && Distinct(deleted)
    && forall c :: c in deleted <==> c.Deleted? && c.path in base && c.path !in seen && c.oldHash == base[c.path]
  }

  ghost predicate IsChangeList(base: map<Id, uint64>, current: seq<File>, changes: seq<Change>) {
    var updates := Updates(base, current);
    && |updates| <= |changes| && changes[..|updates|] == updates
    && IsDeletions(base, PathsOf(current), changes[|updates|..])
  }

  /** What has to be said of an entry that differs from the snapshot. */
  ghost predicate Tells(base: map<Id, uint64>, f: File, c: Change) {
    if f.path !in base then c == Created(f.path, f.hash)
    else base[f.path] != f.hash && c == Modified(f.path, base[f.path], f.hash)
  }

  /** `pos` names the entries that differ from the snapshot, in order. */
  ghost predicate Positions(base: map<Id, uint64>, files: seq<File>, pos: seq<nat>) {
    Increasing(pos) && forall i :: i in pos <==> 0 <= i < |files| && Differs(base, files[i])
  }

  /** The first changes are about the entries at `pos`, one each. */
  ghost predicate TellsEach(base: map<Id, uint64>, files: seq<File>, pos: seq<nat>, changes: seq<Change>) {
    |pos| <= |changes| && forall k | 0 <= k < |pos| :: pos[k] < |files| && Tells(base, files[pos[k]], changes[k])
  }

  /**
   First each differing entry has its change, in the order of the files; then each path that the
   snapshot has and the files lack has its deletion, with the old hash.
   */
  ghost predicate TellsAll(base: map<Id, uint64>, files: seq<File>, changes: seq<Change>) {
    exists pos: seq<nat> ::
      && Positions(base, files, pos) && TellsEach(base, files, pos, changes)
      && IsDeletions(base, PathsOf(files), changes[|pos|..])
  }

  lemma {:induction false} UpdatesTell(base: map<Id, uint64>, files: seq<File>) returns (pos: seq<nat>)
    ensures Positions(base, files, pos) && |pos| == |Updates(base, files)|
    ensures TellsEach(base, files, pos, Updates(base, files))
  {
    pos := [];
    if files != [] {
      var n := |files| - 1;
      var before := UpdatesTell(base, files[..n]);
      PositionsStep(base, files, before);
      TellsStep(base, files, before);
      pos := if Differs(base, files[n]) then before + [n] else before;
    }
  }

  lemma TellsStep(base: map<Id, uint64>, files: seq<File>, before: seq<nat>)
    requires files != [] && |before| == |Updates(base, files[..|files| - 1])|
    requires TellsEach(base, files[..|files| - 1], before, Updates(base, files[..|files| - 1]))
    ensures var n := |files| - 1;
            var pos := if Differs(base, files[n]) then before + [n] else before;
            TellsEach(base, files, pos, Updates(base, files)) && |pos| == |Updates(base, files)|
  {
    var n := |files| - 1;
    forall k | 0 <= k < |before| ensures Tells(base, files[before[k]], Updates(base, files)[k]) {
      assert files[..n][before[k]] == files[before[k]];
    }
  }

  lemma PositionsStep(base: map<Id, uint64>, files: seq<File>, before: seq<nat>)
    requires files != [] && Positions(base, files[..|files| - 1], before)
    ensures var n := |files| - 1; Positions(base, files, if Differs(base, files[n]) then before + [n] else before)
  {
    var n := |files| - 1;
    var pos := if Differs(base, files[n]) then before + [n] else before;
    assert forall k | 0 <= k < |before| :: before[k] in before;
    forall i ensures i in pos <==> 0 <= i < |files| && Differs(base, files[i]) {
      assert i in pos <==> i in before || (i == n && Differs(base, files[n]));
      assert 0 <= i < n ==> files[..n][i] == files[i];
    }
  }

  lemma ChangeListTells(base: map<Id, uint64>, files: seq<File>, changes: seq<Change>)
    requires IsChangeList(base, files, changes)
    ensures TellsAll(base, files, changes)
  {
    var pos := UpdatesTell(base, files);
    var updates := Updates(base, files);
    forall k | 0 <= k < |pos| ensures Tells(base, files[pos[k]], changes[k]) {
      assert changes[..|updates|][k] == updates[k];
    }
    assert TellsEach(base, files, pos, changes);
  }

  /** What kind of change is reported of what. */
  lemma KindsOfChange(base: map<Id, uint64>, files: seq<File>, changes: seq<Change>, c: Change)
    requires TellsAll(base, files, changes)
    ensures c in changes <==>
      match c
      case Created(p, h) => p !in base && File(p, h) in files
      case Modified(p, o, h) => p in base && base[p] == o != h && File(p, h) in files
      case Deleted(p, o) => p in base && base[p] == o && p !in PathsOf(files)
  {
    var pos: seq<nat> :|
      && Positions(base, files, pos) && TellsEach(base, files, pos, changes)
      && IsDeletions(base, PathsOf(files), changes[|pos|..]);
    var told, deleted := changes[..|pos|], changes[|pos|..];
    assert changes == told + deleted;
    if k :| 0 <= k < |pos| && told[k] == c {
      assert Tells(base, files[pos[k]], changes[k]);
    }
    if i :| 0 <= i < |files| && Tells(base, files[i], c) {
      ToldOf(base, files, pos, changes, i, c);
    }
  }

  lemma ToldOf(base: map<Id, uint64>, files: seq<File>, pos: seq<nat>, changes: seq<Change>, i: nat, c: Change)
    requires Positions(base, files, pos) && TellsEach(base, files, pos, changes)
    requires i < |files| && Tells(base, files[i], c)
    ensures c in changes[..|pos|]
  {
    assert i in pos;
    var k :| 0 <= k < |pos| && pos[k] == i;
    assert changes[..|pos|][k] == changes[k] == c;
  }

  /** Carry out one change on a table of hashes. */
  function Apply(base: map<Id, uint64>, c: Change): map<Id, uint64> {
    match c
    case Created(p, h) => base[p := h]
    case Modified(p, _, h) => base[p := h]
    case Deleted(p, _) => base - {p}
  }

  function ApplyAll(base: map<Id, uint64>, changes: seq<Change>): map<Id, uint64> {
    if changes == [] then base
    else Apply(ApplyAll(base, changes[..|changes| - 1]), changes[|changes| - 1])
  }

  lemma {:induction false} ApplyConcat(base: map<Id, uint64>, a: seq<Change>, b: seq<Change>)
    ensures ApplyAll(base, a + b) == ApplyAll(ApplyAll(base, a), b)
  {
    if b == [] {
      assert a + b == a;
    } else {
      var n := |b| - 1;
      ApplyConcat(base, a, b[..n]);
      assert (a + b)[..|a + b| - 1] == a + b[..n];
    }
  }

  lemma {:induction false} LastHashesPaths(files: seq<File>)
    ensures LastHashes(files).Keys == PathsOf(files)
  {
    if files != [] {
      var n := |files| - 1;
      LastHashesPaths(files[..n]);
      assert files == files[..n] + [files[n]];
    }
  }

  /** The entries for `p` that differ from the snapshot, in order. */
  ghost predicate LastDiffering(base: map<Id, uint64>, files: seq<File>, p: Id, h: uint64) {
    exists k :: 0 <= k < |files| && files[k] == File(p, h) && Differs(base, files[k])
      && forall j | k < j < |files| && files[j].path == p :: !Differs(base, files[j])
  }

  ghost predicate Differs(base: map<Id, uint64>, f: File) {
    f.path !in base || base[f.path] != f.hash
  }

  ghost predicate NoneDiffers(base: map<Id, uint64>, files: seq<File>, p: Id) {
    forall k | 0 <= k < |files| && files[k].path == p :: !Differs(base, files[k])
  }

  /** What the updates leave for a path: its last differing entry, else the snapshot's. */
  lemma {:induction false} UpdatesEffect(base: map<Id, uint64>, files: seq<File>, p: Id)
    ensures var after := ApplyAll(base, Updates(base, files));
            && (NoneDiffers(base, files, p) ==> (p in after <==> p in base) && (p in base ==> after[p] == base[p]))
            && (!NoneDiffers(base, files, p) ==> p in after && LastDiffering(base, files, p, after[p]))
  {
    if files != [] {
      var n := |files| - 1;
      var init, last := files[..n], files[n];
      UpdatesEffect(base, init, p);
      UpdatesStep(base, init, last);
      assert files == init + [last];
      DifferingStep(base, init, last, p);
    }
  }

  lemma UpdatesStep(base: map<Id, uint64>, init: seq<File>, last: File)
    ensures ApplyAll(base, Updates(base, init + [last])) ==
            if Differs(base, last) then ApplyAll(base, Updates(base, init))[last.path := last.hash]
            else ApplyAll(base, Updates(base, init))
  {
    assert (init + [last])[..|init|] == init;
    var updates := Updates(base, init);
    if Differs(base, last) {
      var c := if last.path !in base then Created(last.path, last.hash)
               else Modified(last.path, base[last.path], last.hash);
      assert Updates(base, init + [last]) == updates + [c];
      assert (updates + [c])[..|updates|] == updates;
    } else {
      assert Updates(base, init + [last]) == updates;
    }
  }

  lemma DifferingStep(base: map<Id, uint64>, init: seq<File>, last: File, p: Id)
    ensures NoneDiffers(base, init + [last], p)
      <==> NoneDiffers(base, init, p) && (last.path == p ==> !Differs(base, last))
    ensures last.path == p && Differs(base, last) ==> LastDiffering(base, init + [last], p, last.hash)
    ensures !(last.path == p && Differs(base, last)) ==>
              forall h | LastDiffering(base, init, p, h) :: LastDiffering(base, init + [last], p, h)
  {
    var files := init + [last];
    assert files[|init|] == last;
    assert forall k | 0 <= k < |init| :: files[k] == init[k];
    if last.path == p && Differs(base, last) {
      assert files[|init|] == File(p, last.hash);
    } else {
      forall h | LastDiffering(base, init, p, h) ensures LastDiffering(base, files, p, h) {
        var k :| 0 <= k < |init| && init[k] == File(p, h) && Differs(base, init[k])
          && forall j | k < j < |init| && init[j].path == p :: !Differs(base, init[j]);
        assert files[k] == File(p, h);
      }
    }
  }

  lemma {:induction false} DeletionsEffect(base: map<Id, uint64>, deleted: seq<Change>)
    requires forall c | c in deleted :: c.Deleted?
    ensures ApplyAll(base, deleted) == base - set c | c in deleted :: c.path
  {
    if deleted != [] {
      var n := |deleted| - 1;
      DeletionsEffect(base, deleted[..n]);
      assert deleted == deleted[..n] + [deleted[n]];
      var before := set c | c in deleted[..n] :: c.path;
      assert (set c | c in deleted :: c.path) == before + {deleted[n].path};
      assert deleted[n] in deleted;
      assert base - before - {deleted[n].path} == base - (before + {deleted[n].path});
    }
  }

  lemma {:induction false} LastHashesAt(files: seq<File>, p: Id)
    requires p in PathsOf(files)
    ensures p in LastHashes(files)
    ensures exists k :: 0 <= k < |files| && files[k] == File(p, LastHashes(files)[p])
              && forall j | k < j < |files| :: files[j].path != p
  {
    var n := |files| - 1;
    if files[n].path == p {
      assert files[n] == File(p, LastHashes(files)[p]);
    } else {
      assert files == files[..n] + [files[n]];
      LastHashesAt(files[..n], p);
      var k :| 0 <= k < n && files[..n][k] == File(p, LastHashes(files[..n])[p])
        && forall j | k < j < n :: files[..n][j].path != p;
      assert files[k] == File(p, LastHashes(files)[p]);
      forall j | k < j < |files| ensures files[j].path != p {
        if j < n { assert files[j] == files[..n][j]; }
      }
    }
  }

  /** A path whose final entry is back at the snapshot's hash never differed on the way. */
  ghost predicate NoRevertedEntry(base: map<Id, uint64>, files: seq<File>) {
    forall p | p in PathsOf(files) && p in base && p in LastHashes(files) && LastHashes(files)[p] == base[p] ::
      NoneDiffers(base, files, p)
  }

  /**
   Applying the changes to the snapshot yields exactly the current files (the last entry of each
   path) if and only if no path is listed with a differing hash and then again with the old one.
   */
  lemma ChangesReproduceIff(base: map<Id, uint64>, current: seq<File>, changes: seq<Change>)
    requires IsChangeList(base, current, changes)
    ensures ApplyAll(base, changes) == LastHashes(current) <==> NoRevertedEntry(base, current)
  {
    var updates := Updates(base, current);
    var deleted := changes[|updates|..];
    var mid := ApplyAll(base, updates);
    assert changes == updates + deleted;
    ApplyConcat(base, updates, deleted);
    DeletionsEffect(mid, deleted);
    var gone := set c | c in deleted :: c.path;
    LastHashesPaths(current);
    GoneExactly(base, current, deleted);
    assert ApplyAll(base, changes) == mid - gone;
    forall p ensures p in mid - gone <==> p in PathsOf(current) {
      UpdatesEffect(base, current, p);
      MidPaths(base, current, p);
    }
    assert (mid - gone).Keys == LastHashes(current).Keys;
    forall p | p in PathsOf(current)
      ensures mid[p] == LastHashes(current)[p] <==>
              (p in base && LastHashes(current)[p] == base[p] ==> NoneDiffers(base, current, p))
    {
      UpdatesEffect(base, current, p);
      PathReproducedIff(base, current, p);
    }
    if NoRevertedEntry(base, current) {
      assert forall p | p in PathsOf(current) :: (mid - gone)[p] == LastHashes(current)[p];
    } else {
      var p :| p in PathsOf(current) && p in base && LastHashes(current)[p] == base[p]
        && !NoneDiffers(base, current, p);
      assert (mid - gone)[p] != LastHashes(current)[p];
    }
  }

  lemma GoneExactly(base: map<Id, uint64>, current: seq<File>, deleted: seq<Change>)
    requires IsDeletions(base, PathsOf(current), deleted)
    ensures (set c | c in deleted :: c.path) == base.Keys - PathsOf(current)
  {
    forall p | p in base.Keys - PathsOf(current) ensures p in set c | c in deleted :: c.path {
      assert Deleted(p, base[p]) in deleted;
    }
  }

  lemma MidPaths(base: map<Id, uint64>, current: seq<File>, p: Id)
    ensures p in PathsOf(current) && p !in base ==> !NoneDiffers(base, current, p)
    ensures p !in PathsOf(current) ==> NoneDiffers(base, current, p)
  {
    if p in PathsOf(current) {
      var f :| f in current && f.path == p;
      var k :| 0 <= k < |current| && current[k] == f;
      if p !in base { assert Differs(base, current[k]); }
    } else {
      forall k | 0 <= k < |current| ensures current[k].path != p {
        assert current[k] in current;
      }
    }
  }

  lemma PathReproducedIff(base: map<Id, uint64>, current: seq<File>, p: Id)
    requires p in PathsOf(current)
    ensures var after := ApplyAll(base, Updates(base, current));
            && p in after && p in LastHashes(current)
            && (after[p] == LastHashes(current)[p] <==>
                (p in base && LastHashes(current)[p] == base[p] ==> NoneDiffers(base, current, p)))
  {
    UpdatesEffect(base, current, p);
    MidPaths(base, current, p);
    LastHashesAt(current, p);
    var after := ApplyAll(base, Updates(base, current));
    var k :| 0 <= k < |current| && current[k] == File(p, LastHashes(current)[p])
      && forall j | k < j < |current| :: current[j].path != p;
    if !NoneDiffers(base, current, p) {
      var m :| 0 <= m < |current| && current[m] == File(p, after[p]) && Differs(base, current[m])
        && forall j | m < j < |current| && current[j].path == p :: !Differs(base, current[j]);
      assert m <= k;
    } else {
      assert !Differs(base, current[k]);
    }
  }

  /** The scanner never lists a path twice; then the changes always reproduce the files. */
  lemma {:induction false} DistinctPathsReproduced(base: map<Id, uint64>, current: seq<File>, changes: seq<Change>)
    requires IsChangeList(base, current, changes)
    requires forall i, j | 0 <= i < j < |current| :: current[i].path != current[j].path
    ensures ApplyAll(base, changes) == LastHashes(current)
  {
    LastHashesPaths(current);
    forall p | p in PathsOf(current) && p in base && LastHashes(current)[p] == base[p]
      ensures NoneDiffers(base, current, p)
    {
      LastHashesAt(current, p);
    }
    ChangesReproduceIff(base, current, changes);
  }

  lemma {:induction false} UpdatesSource(base: map<Id, uint64>, files: seq<File>, c: Change)
    ensures c in Updates(base, files) ==> !c.Deleted?
    ensures c in Updates(base, files) && !c.Deleted? ==>
              exists k :: 0 <= k < |files| && files[k] == File(c.path, c.newHash) && Differs(base, files[k])
  {
    if files != [] {
      var n := |files| - 1;
      UpdatesSource(base, files[..n], c);
      if c in Updates(base, files[..n]) {
        var k :| 0 <= k < n && files[..n][k] == File(c.path, c.newHash) && Differs(base, files[..n][k]);
        assert files[k] == files[..n][k];
      } else if c in Updates(base, files) {
        assert files[n] == File(c.path, c.newHash) && Differs(base, files[n]);
      }
    }
  }

  lemma {:induction false} UpdatesDistinct(base: map<Id, uint64>, files: seq<File>)
    requires forall i, j | 0 <= i < j < |files| :: files[i].path != files[j].path
    ensures forall i, j | 0 <= i < j < |Updates(base, files)| ::
              Updates(base, files)[i].path != Updates(base, files)[j].path
  {
    if files != [] {
      var n := |files| - 1;
      var init := Updates(base, files[..n]);
      UpdatesDistinct(base, files[..n]);
      forall i | 0 <= i < |init| ensures init[i].path != files[n].path {
        UpdatesSource(base, files[..n], init[i]);
      }
    }
  }

  /** With distinct paths there is at most one change per path. */
  lemma OneChangePerPath(base: map<Id, uint64>, current: seq<File>, changes: seq<Change>)
    requires IsChangeList(base, current, changes)
    requires forall i, j | 0 <= i < j < |current| :: current[i].path != current[j].path
    ensures forall i, j | 0 <= i < j < |changes| :: changes[i].path != changes[j].path
  {
    var updates := Updates(base, current);
    var deleted := changes[|updates|..];
    UpdatesDistinct(base, current);
    forall i, j | 0 <= i < j < |changes| ensures changes[i].path != changes[j].path {
      if j < |updates| {
        assert changes[i] == updates[i] && changes[j] == updates[j];
      } else {
        assert changes[j] == deleted[j - |updates|] && changes[j] in deleted;
        if i < |updates| {
          assert changes[i] == updates[i];
          UpdatesSource(base, current, updates[i]);
        } else {
          assert changes[i] == deleted[i - |updates|] && changes[i] in deleted;
        }
      }
    }
  }

  /** No two entries for one path have different hashes. */
  ghost predicate OneHashPerPath(files: seq<File>) {
    forall i, j | 0 <= i < |files| && 0 <= j < |files| && files[i].path == files[j].path ::
      files[i].hash == files[j].hash
  }

  /**
   `Snapshot` merges: comparing the same files against it afterwards yields exactly the deletions of
   older snapshot paths that are not among the files, iff no path is listed with two hashes.
   */
  lemma AfterSnapshotOnlyDeletions(older: map<Id, uint64>, files: seq<File>, changes: seq<Change>)
    requires IsChangeList(older + LastHashes(files), files, changes)
    ensures IsDeletions(older, PathsOf(files), changes) <==> OneHashPerPath(files)
  {
    var base := older + LastHashes(files);
    LastHashesPaths(files);
    SnapshotShowsLast(older, files);
    NoUpdates(base, files);
    if Updates(base, files) == [] {
      assert changes[0..] == changes;
    } else {
      UpdatesSource(base, files, changes[0]);
      assert changes[..|Updates(base, files)|][0] == changes[0];
    }
  }

  /** Nothing differs from the merged snapshot iff each entry has the hash of the last one of its path. */
  lemma SnapshotShowsLast(older: map<Id, uint64>, files: seq<File>)
    ensures (forall k | 0 <= k < |files| :: !Differs(older + LastHashes(files), files[k])) <==> OneHashPerPath(files)
  {
    var base := older + LastHashes(files);
    LastHashesPaths(files);
    forall k | 0 <= k < |files|
      ensures files[k].path in LastHashes(files)
      ensures !Differs(base, files[k]) <==> LastHashes(files)[files[k].path] == files[k].hash
      ensures OneHashPerPath(files) ==> LastHashes(files)[files[k].path] == files[k].hash
    {
      assert files[k] in files;
      LastHashesAt(files, files[k].path);
    }
  }

  lemma {:induction false} NoUpdates(base: map<Id, uint64>, files: seq<File>)
    ensures Updates(base, files) == [] <==> forall k | 0 <= k < |files| :: !Differs(base, files[k])
  {
    if files != [] {
      var n := |files| - 1;
      NoUpdates(base, files[..n]);
      assert files == files[..n] + [files[n]];
      assert Differs(base, files[n]) <==> files[n].path !in base || base[files[n].path] != files[n].hash;
    }
  }

  /** The failing family in its smallest form: a path listed as changed, then as before. */
  lemma RevertedEntryIsLost(changes: seq<Change>)
    requires IsChangeList(map["p" := 1], [File("p", 2), File("p", 1)], changes)
    ensures ApplyAll(map["p" := 1], changes) != LastHashes([File("p", 2), File("p", 1)])
  {
    var base: map<Id, uint64>, files := map["p" := 1], [File("p", 2), File("p", 1)];
    assert files[0].path == "p" && Differs(base, files[0]);
    assert !NoneDiffers(base, files, "p");
    assert "p" in PathsOf(files) by { assert files[0] in files; }
    LastHashesAt(files, "p");
    ChangesReproduceIff(base, files, changes);
  }
}
