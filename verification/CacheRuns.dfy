/** What holds over every run of stages, whatever their order: above all what each `Get` returns. */
module CacheRuns {
  import opened Order
  import opened CacheModel
  import opened CacheInvariants
  import opened CacheActions
  import opened CacheStages

  /** Action `i` is carried out between these worlds. */
  ghost predicate StageAt(max: nat, actions: seq<Action>, trace: seq<World>, i: nat)
    requires i < |actions| && i + 1 < |trace|
  {
    !Panics(actions[i], trace[i]) && Stage(max, actions[i], trace[i], trace[i + 1])
  }

  ghost predicate OkAt(trace: seq<World>, n: nat) {
    n < |trace| && WorldOk(trace[n])
  }

  /** The stages carried out, and how things stood before each and at the end. */
  ghost predicate StageRun(max: nat, actions: seq<Action>, trace: seq<World>) {
    && |trace| == |actions| + 1 && trace[0] == FirstWorld
    && forall i | 0 <= i < |actions| :: StageAt(max, actions, trace, i)
  }

  lemma RunStart(max: nat)
    ensures StageRun(max, [], [FirstWorld]) && WorldOk(FirstWorld)
  {
  }

  lemma RunAppend(max: nat, actions: seq<Action>, trace: seq<World>, a: Action, w0: World, w: World)
    requires StageRun(max, actions, trace) && w0 == trace[|actions|]
    requires !Panics(a, w0) && Stage(max, a, w0, w)
    ensures StageRun(max, actions + [a], trace + [w])
  {
    var more, longer := actions + [a], trace + [w];
    forall i | 0 <= i < |more| ensures StageAt(max, more, longer, i) {
      if i < |actions| {
        assert StageAt(max, actions, trace, i);
        SameStage(max, actions, trace, more, longer, i);
      } else {
        LastStage(max, actions, trace, a, w0, w);
      }
    }
  }

  lemma LastStage(max: nat, actions: seq<Action>, trace: seq<World>, a: Action, w0: World, w: World)
    requires |trace| == |actions| + 1 && w0 == trace[|actions|] && !Panics(a, w0) && Stage(max, a, w0, w)
    ensures StageAt(max, actions + [a], trace + [w], |actions|)
  {
  }

  lemma SameStage(max: nat, actions: seq<Action>, trace: seq<World>, other: seq<Action>, there: seq<World>, i: nat)
    requires i < |actions| && i + 1 < |trace| && i < |other| && i + 1 < |there|
    requires other[i] == actions[i] && there[i] == trace[i] && there[i + 1] == trace[i + 1]
    requires StageAt(max, actions, trace, i)
    ensures StageAt(max, other, there, i)
  {
  }

  /** What is known of each stage. */
  lemma StageFacts(max: nat, actions: seq<Action>, trace: seq<World>, i: nat)
    requires i < |actions| && i + 1 < |trace| && StageAt(max, actions, trace, i) && OkAt(trace, i)
    ensures OkAt(trace, i + 1)
    ensures Step(max, trace[i].core.view, OpOf(actions[i], trace[i]), trace[i + 1].core.view)
    ensures trace[i].answers <= trace[i + 1].answers && |trace[i + 1].answers| <= |trace[i].answers| + 1
  {
    var a, w, w' := actions[i], trace[i], trace[i + 1];
    StageKeepsOk(max, a, w, w');
    StageIsOp(max, a, w, w');
    StageAnswers(max, a, w, w');
  }

  lemma {:induction false} RunKeepsOk(max: nat, actions: seq<Action>, trace: seq<World>, n: nat)
    requires StageRun(max, actions, trace) && n <= |actions|
    ensures OkAt(trace, n)
  {
    if n > 0 {
      var i := n - 1;
      RunKeepsOk(max, actions, trace, i);
      assert StageAt(max, actions, trace, i);
      StageFacts(max, actions, trace, i);
      assert OkAt(trace, n);
    } else {
      FirstOk(trace[0]);
    }
  }

  lemma FirstOk(w: World)
    requires w == FirstWorld
    ensures WorldOk(w)
  {
  }

  lemma RunSteps(max: nat, actions: seq<Action>, trace: seq<World>, i: nat)
    requires StageRun(max, actions, trace) && i < |actions|
    ensures Step(max, trace[i].core.view, OpOf(actions[i], trace[i]), trace[i + 1].core.view)
  {
    RunKeepsOk(max, actions, trace, i);
    assert StageAt(max, actions, trace, i);
    StageFacts(max, actions, trace, i);
  }

  lemma RunAnswers(max: nat, actions: seq<Action>, trace: seq<World>, i: nat)
    requires StageRun(max, actions, trace) && i < |actions|
    ensures trace[i].answers <= trace[i + 1].answers && |trace[i + 1].answers| <= |trace[i].answers| + 1
  {
    RunKeepsOk(max, actions, trace, i);
    assert StageAt(max, actions, trace, i);
    StageFacts(max, actions, trace, i);
  }

  function Ops(actions: seq<Action>, trace: seq<World>): (ops: seq<Op>)
    requires |trace| == |actions| + 1
  {
    seq(|actions|, i requires 0 <= i < |actions| => OpOf(actions[i], trace[i]))
  }

  function Views(trace: seq<World>): (views: seq<View>) {
    seq(|trace|, i requires 0 <= i < |trace| => trace[i].core.view)
  }

  /** Every interleaving is a run of the cache model, so what holds over all of these holds here. */
  lemma InterleavingIsModelRun(max: nat, actions: seq<Action>, trace: seq<World>)
    requires StageRun(max, actions, trace)
    ensures Run(max, Ops(actions, trace), Views(trace))
  {
    var ops, views := Ops(actions, trace), Views(trace);
    forall i | 0 <= i < |ops| ensures Step(max, views[i], ops[i], views[i + 1]) {
      RunSteps(max, actions, trace, i);
    }
  }

  // --- what a `Get` returns ---------------------------------------------------------------

  /** The client's `Get` of `path`, still going on before action `n`, began with action `b`. */
  ghost predicate BeganAt(actions: seq<Action>, trace: seq<World>, b: nat, n: nat, client: nat, path: Id) {
    && b < n < |trace| && b < |actions| && actions[b] == BeginGet(client, path) && client !in trace[b].pending
    && forall m | b < m <= n :: client in trace[m].pending && trace[m].pending[client].path == path
  }

  ghost predicate SeenAt(trace: seq<World>, j: nat, path: Id, r: Result) {
    j < |trace| && path in trace[j].core.view && trace[j].core.view[path].result == r
  }

  /** Before action `n`, what the client would read was cached for its path at `j`, since its `Get` began. */
  ghost predicate ExplainedBy(actions: seq<Action>, trace: seq<World>, n: nat, client: nat, b: nat, j: nat) {
    && b <= j <= n < |trace| && Holds(trace[n], client)
    && BeganAt(actions, trace, b, n, client, trace[n].pending[client].path)
    && SeenAt(trace, j, trace[n].pending[client].path, Reads(trace[n], client))
  }

  ghost predicate Explained(actions: seq<Action>, trace: seq<World>, n: nat, client: nat) {
    exists b, j :: ExplainedBy(actions, trace, n, client, b, j)
  }

  lemma {:induction false} PendingExplained(
    max: nat, actions: seq<Action>, trace: seq<World>, n: nat, client: nat)
    requires StageRun(max, actions, trace) && n <= |actions| && client in trace[n].pending
    ensures Explained(actions, trace, n, client)
  {
    assert n > 0;
    if client in trace[n - 1].pending {
      PendingExplained(max, actions, trace, n - 1, client);
    }
    ExplainedNext(max, actions, trace, n - 1, client);
  }

  lemma ExplainedNext(max: nat, actions: seq<Action>, trace: seq<World>, n: nat, client: nat)
    requires StageRun(max, actions, trace) && n < |actions| && client in trace[n + 1].pending
    requires client in trace[n].pending ==> Explained(actions, trace, n, client)
    ensures Explained(actions, trace, n + 1, client)
  {
    RunKeepsOk(max, actions, trace, n);
    assert StageAt(max, actions, trace, n);
    if client in trace[n].pending {
      var b, j :| ExplainedBy(actions, trace, n, client, b, j);
      StaysExplained(max, actions, trace, n, client, b, j);
    } else {
      NowExplained(max, actions, trace, n, client);
    }
  }

  /** The client's `Get` has just begun. */
  lemma NowExplained(max: nat, actions: seq<Action>, trace: seq<World>, n: nat, client: nat)
    requires n < |actions| && n + 1 < |trace| && StageAt(max, actions, trace, n) && OkAt(trace, n)
    requires client !in trace[n].pending && client in trace[n + 1].pending
    ensures Explained(actions, trace, n + 1, client)
  {
    StagePending(max, actions[n], trace[n], trace[n + 1], client);
    NowHeld(trace[n].core, trace[n + 1].pending[client]);
    assert ExplainedBy(actions, trace, n + 1, client, n, n);
  }

  /** The client's `Get` goes on. */
  lemma StaysExplained(
    max: nat, actions: seq<Action>, trace: seq<World>, n: nat, client: nat, b: nat, j: nat)
    requires n < |actions| && n + 1 < |trace| && StageAt(max, actions, trace, n) && OkAt(trace, n)
    requires ExplainedBy(actions, trace, n, client, b, j) && client in trace[n + 1].pending
    ensures Explained(actions, trace, n + 1, client)
  {
    GetGoesOn(max, actions[n], trace[n], trace[n + 1], client);
    var j' := if Reads(trace[n + 1], client) == Reads(trace[n], client) then j else n + 1;
    ExplanationStays(actions, trace, n, client, b, j, j');
  }

  lemma ExplanationStays(
    actions: seq<Action>, trace: seq<World>, n: nat, client: nat, b: nat, j: nat, j': nat)
    requires ExplainedBy(actions, trace, n, client, b, j) && n + 1 < |trace| && j' in {j, n + 1}
    requires Holds(trace[n + 1], client) && trace[n + 1].pending[client].path == trace[n].pending[client].path
    requires SeenAt(trace, j', trace[n].pending[client].path, Reads(trace[n + 1], client))
    ensures ExplainedBy(actions, trace, n + 1, client, b, j')
  {
  }

  /** Answer `i` is given by action `e`. */
  ghost predicate GivenAt(trace: seq<World>, i: nat, e: nat) {
    e + 1 < |trace| && |trace[e].answers| == i < |trace[e + 1].answers|
  }

  /** Before view `j`, action `k` stored this result for the path, and no action in between took it away. */
  ghost predicate StoredBy(actions: seq<Action>, trace: seq<World>, k: nat, j: nat, path: Id, r: Result) {
    && k < j < |trace| == |actions| + 1 && actions[k].PutFile?
    && actions[k] == PutFile(path, r, actions[k].hash)
    && forall m | k < m < j :: Keeps(OpOf(actions[m], trace[m]), path, actions[k].hash)
  }

  /**
   The `Get` that action `e` finishes with `answer` began with action `b` of the same client. It
   returned nothing if its path was not cached then; otherwise a result that was cached for its path
   at `j`, between beginning and end, and had been stored there by action `k`, a `Put` of that path.
   */
  ghost predicate AnswerOk(actions: seq<Action>, trace: seq<World>, answer: Answer, b: nat, j: nat, k: nat, e: nat) {
    && e < |actions| < |trace|
    && match answer.result
       case None => b == e && actions[e] == BeginGet(answer.client, answer.path) && answer.path !in trace[e].core.view
       case Some(r) =>
         && actions[e] == ReadGet(answer.client) && BeganAt(actions, trace, b, e, answer.client, answer.path)
         && b <= j <= e && SeenAt(trace, j, answer.path, r) && StoredBy(actions, trace, k, j, answer.path, r)
  }

  lemma SeenWasStored(max: nat, actions: seq<Action>, trace: seq<World>, j: nat, path: Id, r: Result) returns (k: nat)
    requires StageRun(max, actions, trace) && SeenAt(trace, j, path, r)
    ensures StoredBy(actions, trace, k, j, path, r)
  {
    InterleavingIsModelRun(max, actions, trace);
    var ops, views := Ops(actions, trace), Views(trace);
    CachedIsLatestPut(max, ops, views, j, path);
    k :| LastStoredAt(ops, j, path, views[j][path], k);
    assert Stores(ops[k], path, r, views[j][path].hash) && ops[k] == OpOf(actions[k], trace[k]);
    forall m | k < m < j ensures Keeps(OpOf(actions[m], trace[m]), path, actions[k].hash) {
      assert Keeps(ops[m], path, views[j][path].hash);
    }
  }

  lemma AnswerExplained(max: nat, actions: seq<Action>, trace: seq<World>, e: nat) returns (b: nat, j: nat, k: nat)
    requires StageRun(max, actions, trace) && e < |actions| && |trace[e].answers| < |trace[e + 1].answers|
    ensures |trace[e + 1].answers| == |trace[e].answers| + 1
    ensures AnswerOk(actions, trace, trace[e + 1].answers[|trace[e].answers|], b, j, k, e)
  {
    assert StageAt(max, actions, trace, e);
    RunKeepsOk(max, actions, trace, e);
    var w := trace[e];
    if actions[e].BeginGet? {
      b, j, k := e, e, e;
    } else {
      var client := actions[e].client;
      PendingExplained(max, actions, trace, e, client);
      b, j :| ExplainedBy(actions, trace, e, client, b, j);
      k := SeenWasStored(max, actions, trace, j, w.pending[client].path, Reads(w, client));
    }
  }

  lemma {:induction false} AnswerGiven(
    max: nat, actions: seq<Action>, trace: seq<World>, n: nat, i: nat)
    returns (e: nat)
    requires StageRun(max, actions, trace) && n <= |actions| && i < |trace[n].answers|
    ensures e < n && GivenAt(trace, i, e) && trace[e + 1].answers[i] == trace[n].answers[i]
  {
    assert n > 0;
    RunAnswers(max, actions, trace, n - 1);
    if i < |trace[n - 1].answers| {
      e := AnswerGiven(max, actions, trace, n - 1, i);
    } else {
      e := n - 1;
    }
  }

  /** In every interleaving every `Get` returned what its path had, and was given by a `Put` of the run. */
  lemma AnswersExplained(max: nat, actions: seq<Action>, trace: seq<World>, i: nat)
    requires StageRun(max, actions, trace) && i < |trace[|actions|].answers|
    ensures exists b, j, k, e ::
              GivenAt(trace, i, e) && AnswerOk(actions, trace, trace[|actions|].answers[i], b, j, k, e)
  {
    var e := AnswerGiven(max, actions, trace, |actions|, i);
    var b, j, k := AnswerExplained(max, actions, trace, e);
  }

  /** A `Get` that returned nothing is a miss; any other is a hit, and so is a touched one still to be read. */
  lemma {:induction false} HitsAndMisses(max: nat, actions: seq<Action>, trace: seq<World>, n: nat)
    requires StageRun(max, actions, trace) && n <= |actions|
    ensures Tallied(trace[n])
  {
    if n > 0 {
      HitsAndMisses(max, actions, trace, n - 1);
      CountsStay(max, actions, trace, n - 1);
    } else {
      assert Unread(map[]) == {};
    }
  }

  lemma CountsStay(max: nat, actions: seq<Action>, trace: seq<World>, i: nat)
    requires StageRun(max, actions, trace) && i < |actions| && Tallied(trace[i])
    ensures Tallied(trace[i + 1])
  {
    assert StageAt(max, actions, trace, i);
    StageCounts(max, actions[i], trace[i], trace[i + 1]);
  }
}
