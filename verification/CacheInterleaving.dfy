/** The cache class takes the stages, whatever order the clients' operations come in. */
module CacheInterleaving {
  import opened Order
  import opened Edges
  import opened CacheModel
  import opened CacheInvariants
  import opened ParseCache
  import opened CacheActions
  import opened CacheStages
  import opened CacheRuns
  import opened CacheLists

  /** How things stand: the cache's variables, the `Get`s going on and those that have returned. */
  ghost function At(cache: ParseCache, pending: Pending, answers: seq<Answer>): World
    reads cache, cache.order
  {
    World(cache.Now(), pending, answers, cache.hits, cache.misses)
  }

  /** The first stage of a `Get`, which is also the last if the path is not cached. */
  method Begin(cache: ParseCache, client: nat, path: Id, before: Pending, answers0: seq<Answer>)
    returns (pending: Pending, answers: seq<Answer>)
    requires cache.Valid()
    modifies cache`misses
    ensures cache.Valid()
    ensures Stage(cache.maxSize, BeginGet(client, path), old(At(cache, before, answers0)), At(cache, pending, answers))
  {
    pending, answers := before, answers0;
    if client !in before {
      var item := cache.Lookup(path);
      if item == None {
        cache.Miss();
        answers := answers0 + [Answer(client, path, None)];
      } else {
        pending := before[client := Lookup(path, item.value, false)];
      }
    }
  }

  /** The second stage: an access to whatever path the entry is still cached under, or nothing. */
  method Touch(cache: ParseCache, client: nat, before: Pending, ghost answers: seq<Answer>)
    returns (pending: Pending, panicked: bool)
    requires cache.Valid() && HeldOk(before, cache.Now())
    modifies cache, cache.order
    ensures cache.Valid() && cache.order == old(cache.order)
    ensures Tried(cache.maxSize, TouchGet(client),
                  old(At(cache, before, answers)), At(cache, pending, answers), panicked)
  {
    pending, panicked := before, false;
    if CanTouch(before, client) {
      panicked := TouchHeld(cache, client, before, answers);
      if !panicked { pending := OnceTouched(before, client); }
    }
  }

  function OnceTouched(pending: Pending, client: nat): Pending
    requires client in pending
  {
    pending[client := pending[client].(touched := true)]
  }

  /** The second stage of a `Get` that is waiting for it. */
  method TouchHeld(cache: ParseCache, client: nat, pending: Pending, ghost answers: seq<Answer>)
    returns (panicked: bool)
    requires cache.Valid() && CanTouch(pending, client)
    requires pending[client].item in cache.order.store || pending[client].item in cache.stale
    modifies cache`hits, cache`view, cache`stale, cache.order`items, cache.order`store
    ensures cache.Valid()
    ensures Tried(cache.maxSize, TouchGet(client), old(At(cache, pending, answers)),
                  At(cache, if panicked then pending else OnceTouched(pending, client), answers), panicked)
  {
    ghost var w := At(cache, pending, answers);
    var inRange := cache.Touch(pending[client].item);
    panicked := !inRange;
    ghost var now := At(cache, if panicked then pending else OnceTouched(pending, client), answers);
    TouchIsStage(cache.maxSize, client, w, now, inRange);
  }

  lemma TouchIsStage(max: nat, client: nat, w: World, w': World, inRange: bool)
    requires CacheOk(w'.core) && CanTouch(w.pending, client)
    requires w.pending[client].item in w.core.store <==> w.pending[client].item !in w.core.stale
    requires TouchDone(w.core, w'.core, w.pending[client].item, inRange)
    requires w'.pending == if inRange then OnceTouched(w.pending, client) else w.pending
    requires w'.answers == w.answers && w'.hits == w.hits + 1 && w'.misses == w.misses
    ensures Tried(max, TouchGet(client), w, w', !inRange)
  {
  }

  /** The last stage: the result is read from the entry, with no lock held. */
  method Read(cache: ParseCache, client: nat, before: Pending, answers0: seq<Answer>)
    returns (pending: Pending, answers: seq<Answer>)
    requires cache.Valid() && HeldOk(before, cache.Now())
    ensures Stage(cache.maxSize, ReadGet(client), At(cache, before, answers0), At(cache, pending, answers))
  {
    pending, answers := before, answers0;
    if CanRead(before, client) {
      var result := cache.Read(before[client].item);
      pending := before - {client};
      answers := answers0 + [Answer(client, before[client].path, Some(result))];
    }
  }

  /** The operations that are one stage. */
  method Change(cache: ParseCache, action: Action, ghost pending: Pending, ghost answers: seq<Answer>)
    requires cache.Valid() && !action.BeginGet? && !action.TouchGet? && !action.ReadGet?
    modifies cache, cache.order
    ensures cache.Valid() && (cache.order == old(cache.order) || fresh(cache.order))
    ensures Tried(cache.maxSize, action, old(At(cache, pending, answers)), At(cache, pending, answers), false)
  {
    if action.ClearAll? {
      ghost var w := At(cache, pending, answers);
      cache.Clear();
      ClearIsStage(cache.maxSize, w, At(cache, pending, answers));
    } else {
      ChangeEntries(cache, action, pending, answers);
    }
  }

  method ChangeEntries(cache: ParseCache, action: Action, ghost pending: Pending, ghost answers: seq<Answer>)
    requires cache.Valid() && (action.PutFile? || action.RemoveFile? || action.InvalidateFiles?)
    modifies cache`items, cache`owner, cache`view, cache.order
    ensures cache.Valid()
    ensures Tried(cache.maxSize, action, old(At(cache, pending, answers)), At(cache, pending, answers), false)
  {
    ghost var w := At(cache, pending, answers);
    match action {
      case PutFile(path, result, hash) =>
        cache.Put(path, result, hash);
        PutIsStage(cache.maxSize, w, At(cache, pending, answers), path, result, hash);
      case RemoveFile(path) =>
        var _ := cache.Remove(path);
        RemoveIsStage(cache.maxSize, w, At(cache, pending, answers), path);
      case InvalidateFiles(hashes) =>
        var _ := cache.Invalidate(hashes);
        InvalidateIsStage(cache.maxSize, w, At(cache, pending, answers), hashes);
    }
  }

  lemma PutIsStage(max: nat, w: World, w': World, p: Id, r: Result, h: uint64)
    requires w' == w.(core := w'.core) && CacheOk(w'.core) && PutDone(max, w.core, w'.core, p, Parsed(r, h))
    ensures Tried(max, PutFile(p, r, h), w, w', false)
  {
  }

  lemma RemoveIsStage(max: nat, w: World, w': World, p: Id)
    requires w' == w.(core := w'.core) && CacheOk(w'.core) && Settled(w.core, w'.core)
    requires Step(max, w.core.view, Remove(p), w'.core.view)
    requires if p in w.core.items then DroppedAt(w.core, w'.core, p) else w'.core == w.core
    ensures Tried(max, RemoveFile(p), w, w', false)
  {
  }

  lemma InvalidateIsStage(max: nat, w: World, w': World, hashes: map<Id, uint64>)
    requires w' == w.(core := w'.core) && CacheOk(w'.core) && Settled(w.core, w'.core)
    requires Step(max, w.core.view, Invalidate(hashes), w'.core.view) && DroppedInTurn(w.core, w'.core)
    ensures Tried(max, InvalidateFiles(hashes), w, w', false)
  {
  }

  lemma ClearIsStage(max: nat, w: World, w': World)
    requires w' == w.(core := w'.core) && CacheOk(w'.core) && w'.core == Cleared(w.core)
    ensures Tried(max, ClearAll, w, w', false)
  {
  }

  /** One stage of one client. */
  method Act(cache: ParseCache, action: Action, before: Pending, answers0: seq<Answer>)
    returns (pending: Pending, answers: seq<Answer>, panicked: bool)
    requires cache.Valid() && HeldOk(before, cache.Now())
    modifies cache, cache.order
    ensures cache.Valid() && (cache.order == old(cache.order) || fresh(cache.order))
    ensures Tried(cache.maxSize, action, old(At(cache, before, answers0)), At(cache, pending, answers), panicked)
  {
    pending, answers, panicked := before, answers0, false;
    match action {
      case BeginGet(client, path) => pending, answers := Begin(cache, client, path, before, answers0);
      case TouchGet(client) =>
        pending, panicked := Touch(cache, client, before, answers0);
      case ReadGet(client) => pending, answers := Read(cache, client, before, answers0);
      case _ => Change(cache, action, before, answers0);
    }
  }

  /** The first `i` actions are carried out on the cache. */
  ghost predicate Going(
    cache: ParseCache, actions: seq<Action>, trace: seq<World>, i: nat,
    pending: Pending, answers: seq<Answer>, panicked: bool)
    reads cache, cache.order
  {
    cache.Valid() && InRun(cache.maxSize, actions, trace, i, pending, answers, At(cache, pending, answers), panicked)
  }

  /** One more action of a list. */
  method Advance(
    cache: ParseCache, actions: seq<Action>, ghost trace0: seq<World>, i: nat, before: Pending, answers0: seq<Answer>)
    returns (pending: Pending, answers: seq<Answer>, ghost trace: seq<World>, panicked: bool)
    requires i < |actions| && Going(cache, actions, trace0, i, before, answers0, false)
    modifies cache, cache.order
    ensures cache.order == old(cache.order) || fresh(cache.order)
    ensures Going(cache, actions, trace, if panicked then i else i + 1, pending, answers, panicked)
  {
    ghost var w := At(cache, before, answers0);
    pending, answers, panicked := Act(cache, actions[i], before, answers0);
    ghost var now := At(cache, pending, answers);
    InRunGoesOn(cache.maxSize, actions, trace0, i, w, pending, answers, now, panicked);
    trace := if panicked then trace0 else trace0 + [now];
  }

  /**
   Whatever the order of the stages, `Clear` included, the cache goes through a run of the actions,
   up to the first touch that panics, and through all of them if none does.
   */
  method Interleave(maxSize: int, actions: seq<Action>)
    returns (cache: ParseCache, pending: Pending, answers: seq<Answer>, ghost trace: seq<World>)
    ensures fresh(cache) && cache.Valid() && cache.maxSize == if maxSize <= 0 then 10000 else maxSize
    ensures CarriedOut(cache.maxSize, actions, trace, At(cache, pending, answers))
    ensures trace[|trace| - 1].pending == pending && trace[|trace| - 1].answers == answers
  {
    cache := new ParseCache(maxSize);
    pending, answers, trace := map[], [], [FirstWorld];
    InRunStart(cache.maxSize, actions);
    var i, panicked := 0, false;
    while i < |actions| && !panicked
      invariant 0 <= i <= |actions| && fresh(cache) && fresh(cache.order)
      invariant Going(cache, actions, trace, i, pending, answers, panicked)
      decreases |actions| - i, !panicked
    {
      pending, answers, trace, panicked := Advance(cache, actions, trace, i, pending, answers);
      if !panicked { i := i + 1; }
    }
    InRunEnd(cache.maxSize, actions, trace, i, pending, answers, At(cache, pending, answers), panicked);
  }
}
