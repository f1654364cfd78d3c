/** One stage of one client: what every stage keeps. The cache class is proved to take these stages. */
module CacheStages {
  import opened Order
  import opened HeapEntries
  import opened CacheModel
  import opened CacheInvariants
  import opened CacheActions

  ghost predicate Stage(max: nat, a: Action, w: World, w': World) {
    match a
    case BeginGet(client, path) => Begun(client, path, w, w')
    case TouchGet(client) => TouchedBy(client, w, w')
    case ReadGet(client) => ReadBy(client, w, w')
    case _ => w' == w.(core := w'.core) && Changed(max, a, w.core, w'.core)
  }

  /** What clients hold can still be touched, and if it is not from before a `Clear`, is for their path. */
  ghost predicate HeldOk(pending: Pending, c: Core) {
    forall k | k in pending ::
      && (pending[k].item in c.store || pending[k].item in c.stale)
      && (pending[k].item in c.store ==> pending[k].item in c.owner && c.owner[pending[k].item] == pending[k].path)
  }

  ghost predicate WorldOk(w: World) {
    CacheOk(w.core) && HeldOk(w.pending, w.core)
  }

  /** Entries keep their contents, but for one that is cached; `Clear` makes them stale. */
  ghost predicate Remembered(c: Core, c': Core) {
    && (forall r | r in c.store ::
          || (r in c'.stale && r !in c'.store && c'.stale[r].value == c.store[r].value)
          || (r in c'.store && r in c.owner && r in c'.owner && c'.owner[r] == c.owner[r]
              && (CachedAs(c'.items, c'.owner, r) == None ==> c'.store[r].value == c.store[r].value)))
    && forall r | r in c.stale :: r in c'.stale && r !in c'.store && c'.stale[r].value == c.stale[r].value
  }

  lemma SettledRemembers(c: Core, c': Core)
    requires CacheOk(c) && CacheOk(c') && Settled(c, c')
    ensures Remembered(c, c')
  {
  }

  lemma TouchRemembers(c: Core, c': Core, r: Ref)
    requires CacheOk(c) && CacheOk(c') && TouchDone(c, c', r, true)
    ensures Remembered(c, c')
  {
  }

  lemma PutRemembers(max: nat, c: Core, c': Core, p: Id, value: Parsed)
    requires CacheOk(c) && CacheOk(c') && PutDone(max, c, c', p, value)
    ensures Remembered(c, c')
  {
  }

  lemma ClearRemembers(c: Core)
    requires CacheOk(c)
    ensures Remembered(c, Cleared(c)) && CacheOk(Cleared(c))
  {
    AfterClear(c);
  }

  lemma SameRemembers(c: Core)
    requires CacheOk(c)
    ensures Remembered(c, c)
  {
  }

  lemma ChangeRemembers(max: nat, a: Action, c: Core, c': Core)
    requires CacheOk(c) && Changed(max, a, c, c')
    ensures Remembered(c, c')
  {
    match a
    case PutFile(p, r, h) => PutRemembers(max, c, c', p, Parsed(r, h));
    case ClearAll => ClearRemembers(c);
    case _ => SettledRemembers(c, c');
  }

  lemma StageRemembers(max: nat, a: Action, w: World, w': World)
    requires CacheOk(w.core) && Stage(max, a, w, w')
    ensures Remembered(w.core, w'.core) && CacheOk(w'.core)
  {
    match a
    case BeginGet(_, _) => SameRemembers(w.core);
    case TouchGet(client) =>
      if CanTouch(w.pending, client) {
        TouchRemembers(w.core, w'.core, w.pending[client].item);
      } else {
        SameRemembers(w.core);
      }
    case ReadGet(_) => SameRemembers(w.core);
    case _ => ChangeRemembers(max, a, w.core, w'.core);
  }

  /** How a `Get` gets from one stage to the next. */
  lemma StagePending(max: nat, a: Action, w: World, w': World, client: nat)
    requires Stage(max, a, w, w') && client in w'.pending
    ensures client in w.pending ==>
              w'.pending[client].path == w.pending[client].path && w'.pending[client].item == w.pending[client].item
    ensures client !in w.pending ==>
              && w'.core == w.core && w'.pending[client].path in w.core.items
              && a == BeginGet(client, w'.pending[client].path)
              && w'.pending[client].item == w.core.items[w'.pending[client].path]
  {
  }

  lemma StageKeepsOk(max: nat, a: Action, w: World, w': World)
    requires WorldOk(w) && Stage(max, a, w, w')
    ensures WorldOk(w')
  {
    StageRemembers(max, a, w, w');
    forall k | k in w'.pending ensures HeldAs(w'.pending[k], w'.core) {
      StagePending(max, a, w, w', k);
      if k in w.pending {
        HeldStays(w.pending[k], w'.pending[k], w.core, w'.core);
      } else {
        NowHeld(w'.core, w'.pending[k]);
      }
    }
  }

  ghost predicate HeldAs(l: Lookup, c: Core) {
    && (l.item in c.store || l.item in c.stale)
    && (l.item in c.store ==> l.item in c.owner && c.owner[l.item] == l.path)
  }

  lemma HeldStays(l: Lookup, l': Lookup, c: Core, c': Core)
    requires HeldAs(l, c) && Remembered(c, c') && l'.item == l.item && l'.path == l.path
    ensures HeldAs(l', c')
  {
  }

  lemma NowHeld(c: Core, l: Lookup)
    requires CacheOk(c) && l.path in c.items && l.item == c.items[l.path]
    ensures HeldAs(l, c) && l.path in c.view && ResultOf(c.store, c.stale, l.item) == c.view[l.path].result
  {
    assert ShownAs(c.store[l.item], c.view[l.path]);
  }

  /** The client is in a `Get`, and can read its entry. */
  ghost predicate Holds(w: World, client: nat) {
    client in w.pending && HeldAs(w.pending[client], w.core)
  }

  /** What the client would read now. */
  ghost function Reads(w: World, client: nat): Result
    requires Holds(w, client)
  {
    ResultOf(w.core.store, w.core.stale, w.pending[client].item)
  }

  /** An entry whose result has changed is cached, and shown with the new result. */
  lemma StillCached(c: Core, c': Core, l: Lookup)
    requires HeldAs(l, c) && CacheOk(c') && Remembered(c, c')
    requires HeldAs(l, c')
    ensures ResultOf(c'.store, c'.stale, l.item) == ResultOf(c.store, c.stale, l.item)
            || (l.path in c'.view && c'.view[l.path].result == ResultOf(c'.store, c'.stale, l.item))
  {
    if l.item in c'.store && CachedAs(c'.items, c'.owner, l.item) != None {
      assert ShownAs(c'.store[l.item], c'.view[l.path]);
    }
  }

  /** A `Get` goes on: either its entry's result is as it was, or it is cached and shown now. */
  lemma GetGoesOn(max: nat, a: Action, w: World, w': World, client: nat)
    requires WorldOk(w) && Stage(max, a, w, w') && Holds(w, client) && client in w'.pending
    ensures Holds(w', client) && w'.pending[client].path == w.pending[client].path
    ensures var p := w.pending[client].path;
            Reads(w', client) == Reads(w, client)
            || (p in w'.core.view && w'.core.view[p].result == Reads(w', client))
  {
    StagePending(max, a, w, w', client);
    StageRemembers(max, a, w, w');
    HeldStays(w.pending[client], w'.pending[client], w.core, w'.core);
    HeldStays(w.pending[client], w.pending[client], w.core, w'.core);
    StillCached(w.core, w'.core, w.pending[client]);
  }

  lemma StageIsOp(max: nat, a: Action, w: World, w': World)
    requires WorldOk(w) && Stage(max, a, w, w')
    ensures Step(max, w.core.view, OpOf(a, w), w'.core.view)
  {
    match a
    case TouchGet(client) =>
      if CanTouch(w.pending, client) {
        TouchIsOp(max, w.core, w'.core, w.pending[client].item);
      }
    case _ =>
  }

  lemma TouchIsOp(max: nat, c: Core, c': Core, r: Ref)
    requires CacheOk(c) && TouchDone(c, c', r, true) && (r in c.store || r in c.stale)
    ensures match CachedAs(c.items, c.owner, r)
            case None => c'.view == c.view
            case Some(p) => Step(max, c.view, Get(p), c'.view)
  {
  }

  lemma StageAnswers(max: nat, a: Action, w: World, w': World)
    requires Stage(max, a, w, w')
    ensures w.answers <= w'.answers && |w'.answers| <= |w.answers| + 1
  {
  }

  /** The clients that have touched their entry and not read it yet. */
  ghost function Unread(pending: Pending): set<nat> {
    set k | k in pending && pending[k].touched
  }

  /** How many answers were nothing, or were not. */
  ghost function Empty(answers: seq<Answer>): nat {
    if answers == [] then 0
    else Empty(answers[..|answers| - 1]) + if answers[|answers| - 1].result == None then 1 else 0
  }

  lemma EmptyOneMore(answers: seq<Answer>, a: Answer)
    ensures Empty(answers + [a]) == Empty(answers) + if a.result == None then 1 else 0
  {
    assert (answers + [a])[..|answers|] == answers;
  }

  ghost predicate Tallied(w: World) {
    && w.misses == Empty(w.answers)
    && w.hits + Empty(w.answers) == |w.answers| + |Unread(w.pending)|
  }

  lemma StageCounts(max: nat, a: Action, w: World, w': World)
    requires Stage(max, a, w, w') && Tallied(w)
    ensures Tallied(w')
  {
    UnreadAfter(max, a, w, w');
    StageAnswers(max, a, w, w');
    if |w'.answers| > |w.answers| {
      var last := w'.answers[|w.answers|];
      assert w'.answers == w.answers + [last];
      EmptyOneMore(w.answers, last);
    }
  }

  lemma UnreadAfter(max: nat, a: Action, w: World, w': World)
    requires Stage(max, a, w, w')
    ensures Unread(w'.pending) ==
            if a.TouchGet? && CanTouch(w.pending, a.client) then Unread(w.pending) + {a.client}
            else if a.ReadGet? then Unread(w.pending) - {a.client}
            else Unread(w.pending)
  {
  }
}
