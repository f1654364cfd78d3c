/**
 Any number of clients use one cache at once, each operation in stages that may interleave: what
 one stage does to the cache, to the `Get`s going on and to those that have returned.
 */
module CacheActions {
  import opened Order
  import opened Edges
  import opened HeapEntries
  import opened CacheModel
  import opened CacheInvariants

  datatype Action =
    | BeginGet(client: nat, path: Id)
    | TouchGet(client: nat)
    | ReadGet(client: nat)
    | PutFile(path: Id, result: Result, hash: uint64)
    | RemoveFile(path: Id)
    | InvalidateFiles(hashes: map<Id, uint64>)
    | ClearAll

  /** A client has looked `path` up, found `item`, and perhaps touched it, but not read it yet. */
  datatype Lookup = Lookup(path: Id, item: Ref, touched: bool)

  type Pending = map<nat, Lookup>

  /** A `Get` of `path` has returned this. */
  datatype Answer = Answer(client: nat, path: Id, result: Option<Result>)

  datatype World = World(core: Core, pending: Pending, answers: seq<Answer>, hits: nat, misses: nat)

  const FirstWorld := World(EmptyCore(0), map[], [], 0, 0)

  predicate CanTouch(pending: Pending, client: nat) {
    client in pending && !pending[client].touched
  }

  predicate CanRead(pending: Pending, client: nat) {
    client in pending && pending[client].touched
  }

  /** This touch indexes past the heap slice: its entry is from before a `Clear`. */
  predicate Panics(a: Action, w: World) {
    && a.TouchGet? && CanTouch(w.pending, a.client)
    && w.pending[a.client].item in w.core.stale
    && !SlotInRange(w.core.stale[w.pending[a.client].item].index, |w.core.view|)
  }

  /** What a stage is for the cache model. */
  function OpOf(a: Action, w: World): Op {
    match a
    case BeginGet(_, _) => Idle
    case TouchGet(client) =>
      if !CanTouch(w.pending, client) then Idle
      else
        (match CachedAs(w.core.items, w.core.owner, w.pending[client].item)
         case None => Idle
         case Some(p) => Get(p))
    case ReadGet(_) => Idle
    case PutFile(p, r, h) => Put(p, r, h)
    case RemoveFile(p) => Remove(p)
    case InvalidateFiles(hashes) => Invalidate(hashes)
    case ClearAll => Clear
  }

  // --- one stage --------------------------------------------------------------------------

  /** A client that is not in a `Get` starts one; without an entry it returns at once. */
  ghost predicate Begun(client: nat, path: Id, w: World, w': World) {
    if client in w.pending then w' == w
    else if path in w.core.items then
      w' == w.(pending := w.pending[client := Lookup(path, w.core.items[path], false)])
    else
      w' == w.(answers := w.answers + [Answer(client, path, None)], misses := w.misses + 1)
  }

  ghost predicate TouchedBy(client: nat, w: World, w': World) {
    if !CanTouch(w.pending, client) then w' == w
    else
      && TouchDone(w.core, w'.core, w.pending[client].item, true) && CacheOk(w'.core)
      && w' == w.(core := w'.core, hits := w.hits + 1,
                  pending := w.pending[client := w.pending[client].(touched := true)])
  }

  ghost predicate ReadBy(client: nat, w: World, w': World) {
    if !CanRead(w.pending, client) then w' == w
    else
      var l := w.pending[client];
      && (l.item in w.core.store || l.item in w.core.stale)
      && w' == w.(pending := w.pending - {client}, answers := w.answers +
                  [Answer(client, l.path, Some(ResultOf(w.core.store, w.core.stale, l.item)))])
  }

  /** The operations that are one stage. */
  ghost predicate Changed(max: nat, a: Action, c: Core, c': Core) {
    && CacheOk(c')
    && match a
       case PutFile(p, r, h) => PutDone(max, c, c', p, Parsed(r, h))
       case RemoveFile(p) =>
         && Settled(c, c') && Step(max, c.view, Remove(p), c'.view)
         && if p in c.items then DroppedAt(c, c', p) else c' == c
       case InvalidateFiles(hashes) =>
         Settled(c, c') && Step(max, c.view, Invalidate(hashes), c'.view) && DroppedInTurn(c, c')
       case ClearAll => c' == Cleared(c)
       case _ => false
  }
}
