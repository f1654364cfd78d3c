/** In which order the scanner lists files: those in the root first, those of one directory as it lists them. */
module ScanOrder {
  import opened Order
  import opened ScanTree
  import opened ScanPool
  import opened ScanPoolSteps

  /** `f` and `g` are entries of this listing, `f` the earlier one. */
  ghost predicate Earlier(es: seq<DirEntry>, f: Path, g: Path) {
    && f != [] && g != []
    && exists j, k :: 0 <= j < k < |es| && es[j].name == BaseName(f) && es[k].name == BaseName(g)
  }

  /** Files of the same directory come in the order of its listing. */
  ghost predicate InListingOrder(t: Tree, files: seq<Path>) {
    forall dir, a, b | 0 <= a < b < |files| && IsIn(files[a], dir) && IsIn(files[b], dir) ::
      Earlier(Listing(t, dir), files[a], files[b])
  }

  ghost predicate IsIn(f: Path, dir: Path) {
    f != [] && ParentOf(f) == dir
  }

  ghost predicate FilesInOrder(c: Config, s: State) {
    RootFiles(c.patterns, Listing(c.tree, [])) <= s.files && InListingOrder(c.tree, s.files)
  }

  lemma StartInOrder(c: Config)
    requires ValidTree(c.tree)
    ensures FilesInOrder(c, Start(c))
  {
    var es := Listing(c.tree, []);
    var files := RootFiles(c.patterns, es);
    ListedInOrder(c.patterns, [], es);
    var pos: seq<nat> :| Increasing(pos) && NamesAt(files, [], es, pos);
    forall dir, a, b | 0 <= a < b < |files| && IsIn(files[a], dir) && IsIn(files[b], dir)
      ensures Earlier(Listing(c.tree, dir), files[a], files[b])
    {
      assert files[a] == [] + [es[pos[a]].name] && files[b] == [] + [es[pos[b]].name];
      assert dir == [];
    }
  }

  /** What is listed of a directory that is being walked comes before the entry the walk has come to. */
  lemma ListedBefore(c: Config, s: State, w: nat, f: Path)
    requires ValidTree(c.tree) && Inv(c, s) && Enabled(c, s, Entry(w))
    requires f in s.files && IsIn(f, s.workers[w].dir)
    ensures exists j :: 0 <= j < s.workers[w].next && Listing(c.tree, s.workers[w].dir)[j].name == BaseName(f)
  {
    var dir, n := s.workers[w].dir, s.workers[w].next;
    var es := Listing(c.tree, dir);
    PlacesNonEmpty(c, s, dir);
    assert Listed(c, s, f) && s.places[dir] == With(w);
    ListingDistinct(c, dir);
    FilesInExactly(c.patterns, dir, es[..n]);
  }

  lemma EntryInOrder(c: Config, s: State, w: nat)
    requires ValidTree(c.tree) && Inv(c, s) && Enabled(c, s, Entry(w)) && FilesInOrder(c, s)
    ensures FilesInOrder(c, Next(c, s, Entry(w)))
  {
    var s', dir, n := Next(c, s, Entry(w)), s.workers[w].dir, s.workers[w].next;
    var es := Listing(c.tree, dir);
    var g := dir + [es[n].name];
    if s'.files != s.files {
      assert s'.files == s.files + [g];
      forall a | 0 <= a < |s.files| && IsIn(s.files[a], dir) ensures Earlier(es, s.files[a], g) {
        ListedBefore(c, s, w, s.files[a]);
      }
      assert ParentOf(g) == dir;
    }
  }

  lemma StepKeepsOrder(c: Config, s: State, step: Step)
    requires ValidTree(c.tree) && Inv(c, s) && Enabled(c, s, step) && FilesInOrder(c, s)
    ensures FilesInOrder(c, Next(c, s, step))
  {
    if step.Entry? { EntryInOrder(c, s, step.w); }
  }

  lemma {:induction false} RunInListingOrder(c: Config, steps: seq<Step>, states: seq<State>, n: nat)
    requires ValidTree(c.tree) && c.workers > 0 && Run(c, steps, states) && n <= |steps|
    ensures FilesInOrder(c, states[n])
  {
    if n == 0 {
      StartInOrder(c);
    } else {
      RunInListingOrder(c, steps, states, n - 1);
      RunKeepsInv(c, steps, states, n - 1);
      StepKeepsOrder(c, states[n - 1], steps[n - 1]);
    }
  }

  /** However the workers' walks are interleaved. */
  lemma FilesComeInOrder(c: Config, s: State)
    requires ValidTree(c.tree) && c.workers > 0 && Reachable(c, s)
    ensures RootFiles(c.patterns, Listing(c.tree, [])) <= s.files && InListingOrder(c.tree, s.files)
  {
    var steps, states :| Run(c, steps, states) && states[|steps|] == s;
    RunInListingOrder(c, steps, states, |steps|);
  }
}
