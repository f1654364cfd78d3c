/** Carrying out a list of actions, as far as it goes. */
module CacheLists {
  import opened CacheModel
  import opened CacheActions
  import opened CacheStages
  import opened CacheRuns

  /** Trying to carry out an action: it panics, or is the stage it should be. */
  ghost predicate Tried(max: nat, a: Action, w: World, w': World, panicked: bool) {
    && (panicked <==> Panics(a, w))
    && if panicked then w'.pending == w.pending && w'.answers == w.answers else Stage(max, a, w, w')
  }

  /** The first `i` actions are carried out, and the next one would panic if `panicked`. */
  ghost predicate InRun(
    max: nat, actions: seq<Action>, trace: seq<World>, i: nat,
    pending: Pending, answers: seq<Answer>, now: World, panicked: bool)
  {
    && i <= |actions| && StageRun(max, actions[..i], trace)
    && trace[i].pending == pending && trace[i].answers == answers
    && (if panicked then i < |actions| && Panics(actions[i], trace[i])
        else trace[i] == now && HeldOk(pending, now.core))
  }

  lemma InRunStart(max: nat, actions: seq<Action>)
    ensures InRun(max, actions, [FirstWorld], 0, map[], [], FirstWorld, false)
  {
    RunStart(max);
  }

  lemma InRunGoesOn(
    max: nat, actions: seq<Action>, trace: seq<World>, i: nat, w: World,
    pending: Pending, answers: seq<Answer>, now: World, panicked: bool)
    requires InRun(max, actions, trace, i, w.pending, w.answers, w, false) && i < |actions|
    requires Tried(max, actions[i], w, now, panicked) && now.pending == pending && now.answers == answers
    ensures if panicked then InRun(max, actions, trace, i, pending, answers, now, true)
            else InRun(max, actions, trace + [now], i + 1, pending, answers, now, false)
  {
    if !panicked {
      InRunSucceeds(max, actions, trace, i, w, now);
    }
  }

  lemma InRunSucceeds(max: nat, actions: seq<Action>, trace: seq<World>, i: nat, w: World, now: World)
    requires i < |actions| && StageRun(max, actions[..i], trace) && trace[i] == w
    requires !Panics(actions[i], w) && Stage(max, actions[i], w, now)
    ensures InRun(max, actions, trace + [now], i + 1, now.pending, now.answers, now, false)
  {
    NextPrefix(actions, trace, i, now);
    NowOk(max, actions, trace, i, now);
    RunGrows(max, actions[..i], trace, actions[i], w, now, actions[..i + 1]);
    InRunAt(max, actions, trace + [now], i + 1, now);
  }

  lemma NextPrefix(actions: seq<Action>, trace: seq<World>, i: nat, now: World)
    requires i < |actions| && |trace| == i + 1
    ensures actions[..i + 1] == actions[..i] + [actions[i]] && |actions[..i]| == i && (trace + [now])[i + 1] == now
  {
  }

  lemma InRunAt(max: nat, actions: seq<Action>, trace: seq<World>, i: nat, now: World)
    requires i <= |actions| && StageRun(max, actions[..i], trace) && trace[i] == now && HeldOk(now.pending, now.core)
    ensures InRun(max, actions, trace, i, now.pending, now.answers, now, false)
  {
  }

  lemma RunGrows(max: nat, done: seq<Action>, trace: seq<World>, a: Action, w: World, now: World, more: seq<Action>)
    requires StageRun(max, done, trace) && w == trace[|done|] && more == done + [a]
    requires !Panics(a, w) && Stage(max, a, w, now)
    ensures StageRun(max, more, trace + [now])
  {
    RunAppend(max, done, trace, a, w, now);
  }

  lemma NowOk(max: nat, actions: seq<Action>, trace: seq<World>, i: nat, now: World)
    requires i < |actions| && StageRun(max, actions[..i], trace) && Stage(max, actions[i], trace[i], now)
    ensures HeldOk(now.pending, now.core)
  {
    RunKeepsOk(max, actions[..i], trace, i);
    StageKeepsOk(max, actions[i], trace[i], now);
  }

  lemma InRunEnd(
    max: nat, actions: seq<Action>, trace: seq<World>, i: nat,
    pending: Pending, answers: seq<Answer>, now: World, panicked: bool)
    requires InRun(max, actions, trace, i, pending, answers, now, panicked) && (i == |actions| || panicked)
    ensures CarriedOut(max, actions, trace, now) && trace[|trace| - 1].pending == pending
    ensures trace[|trace| - 1].answers == answers
  {
    assert actions[..|trace| - 1] == actions[..i];
  }

  /**
   The trace is a run of the actions that ends at `now`, or one of the actions before the first that
   panics.
   */
  ghost predicate CarriedOut(max: nat, actions: seq<Action>, trace: seq<World>, now: World) {
    && 0 < |trace| <= |actions| + 1 && StageRun(max, actions[..|trace| - 1], trace)
    && if |trace| == |actions| + 1 then trace[|actions|] == now
       else Panics(actions[|trace| - 1], trace[|trace| - 1])
  }
}
