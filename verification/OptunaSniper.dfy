/**
 The resume accounting of scripts/optuna_sniper.py: a study whose trials live in a database,
 launched, killed and relaunched. What Optuna is assumed to do in `optimize`: before each
 trial it fails the running trials whose heartbeat went stale and re-enqueues each at most
 once; it then takes the oldest waiting trial or creates one; a raise fails the trial and
 ends the launch, a kill leaves it running, and a timeout is looked at between trials.
 */
module OptunaSniper {
  import opened Listing

  datatype TrialState = Complete | Pruned | Fail | Running | Waiting

  /** A stored trial, and how often what it retries has been tried before. */
  datatype Trial = Trial(state: TrialState, retries: nat)

  /** `RetryFailedTrialCallback(max_retry=1)`. */
  const MAX_RETRY := 1

  datatype Outcome = Completes | Prunes | Raises | Killed | TimedOut

  /** What happens at one turn of the loop: the trials found stale, and how the turn ends. */
  datatype Slot = Slot(stale: set<nat>, outcome: Outcome)

  predicate IsAnswer(t: Trial) {
    t.state == Complete || t.state == Pruned
  }

  function One(t: Trial): nat {
    if IsAnswer(t) then 1 else 0
  }

  /** `answered`: COMPLETE and PRUNED are answered questions, everything else is still owed. */
  function Answered(trials: seq<Trial>): (n: nat)
    ensures n <= |trials|
  {
    if trials == [] then 0 else Answered(trials[..|trials| - 1]) + One(trials[|trials| - 1])
  }

  // ----------------------------------------------------------------- one turn ---

  predicate IsStale(trials: seq<Trial>, stale: set<nat>, i: nat)
    requires i < |trials|
  {
    trials[i].state == Running && i in stale
  }

  function Failed(trials: seq<Trial>, stale: set<nat>): (u: seq<Trial>)
    ensures |u| == |trials|
    ensures forall i :: 0 <= i < |u| ==>
              u[i] == if IsStale(trials, stale, i) then Trial(Fail, trials[i].retries) else trials[i]
  {
    seq(|trials|, i requires 0 <= i < |trials| =>
      if IsStale(trials, stale, i) then Trial(Fail, trials[i].retries) else trials[i])
  }

  /** The copies that the callback enqueues for the first n trials. */
  function Enqueued(trials: seq<Trial>, stale: set<nat>, n: nat): (u: seq<Trial>)
    requires n <= |trials|
    ensures forall i :: 0 <= i < |u| ==> u[i].state == Waiting && 1 <= u[i].retries <= MAX_RETRY
    ensures |u| <= n
  {
    if n == 0 then []
    else
      var before := Enqueued(trials, stale, n - 1);
      if IsStale(trials, stale, n - 1) && trials[n - 1].retries < MAX_RETRY
      then before + [Trial(Waiting, trials[n - 1].retries + 1)]
      else before
  }

  function Reaped(trials: seq<Trial>, stale: set<nat>): seq<Trial> {
    Failed(trials, stale) + Enqueued(trials, stale, |trials|)
  }

  /** The dead trials that have not been retried yet. */
  ghost function ToRetry(trials: seq<Trial>, stale: set<nat>): set<nat> {
    set i: nat | i < |trials| && trials[i].state == Running && i in stale && trials[i].retries < 1
  }

  ghost predicate AreCopies(copies: seq<Trial>, origins: seq<Trial>) {
    |copies| == |origins| && forall j :: 0 <= j < |copies| ==> copies[j] == Trial(Waiting, origins[j].retries + 1)
  }

  lemma RetrySnoc(trials: seq<Trial>, stale: set<nat>)
    requires trials != []
    ensures var n := |trials| - 1;
            ToRetry(trials, stale) ==
            ToRetry(trials[..n], stale) +
              if trials[n].state == Running && n in stale && trials[n].retries < 1 then {n} else {}
  {
  }

  lemma {:induction false} EnqueuedAre(trials: seq<Trial>, stale: set<nat>, n: nat)
    requires n <= |trials|
    ensures exists origins ::
              Lists(origins, trials[..n], ToRetry(trials[..n], stale)) && AreCopies(Enqueued(trials, stale, n), origins)
  {
    if n == 0 {
      ListsNothing<Trial>();
      assert ToRetry(trials[..0], stale) == {} && AreCopies([], []);
    } else {
      EnqueuedAre(trials, stale, n - 1);
      var copies, more := Enqueued(trials, stale, n - 1), Enqueued(trials, stale, n);
      var last := trials[n - 1];
      assert more == if last.state == Running && n - 1 in stale && last.retries < 1
                     then copies + [Trial(Waiting, last.retries + 1)] else copies;
      assert trials[..n][..n - 1] == trials[..n - 1];
      var origins :| Lists(origins, trials[..n - 1], ToRetry(trials[..n - 1], stale)) && AreCopies(copies, origins);
      OneMoreCopy(trials[..n], stale, copies, more, origins);
    }
  }

  lemma OneMoreCopy(trials: seq<Trial>, stale: set<nat>, copies: seq<Trial>, more: seq<Trial>, origins: seq<Trial>)
    requires trials != []
    requires var n := |trials| - 1;
             && Lists(origins, trials[..n], ToRetry(trials[..n], stale)) && AreCopies(copies, origins)
             && more == if trials[n].state == Running && n in stale && trials[n].retries < 1
                        then copies + [Trial(Waiting, trials[n].retries + 1)] else copies
    ensures exists all :: Lists(all, trials, ToRetry(trials, stale)) && AreCopies(more, all)
  {
    var n := |trials| - 1;
    var last := trials[n];
    var retried := last.state == Running && n in stale && last.retries < 1;
    RetrySnoc(trials, stale);
    hide Lists, ToRetry, AreCopies;
    assert trials == trials[..n] + [last];
    ListsSnoc(origins, trials[..n], ToRetry(trials[..n], stale), last, ToRetry(trials, stale), retried);
    CopiesSnoc(copies, origins, last, retried);
  }

  lemma CopiesSnoc(copies: seq<Trial>, origins: seq<Trial>, last: Trial, retried: bool)
    requires AreCopies(copies, origins)
    ensures AreCopies(if retried then copies + [Trial(Waiting, last.retries + 1)] else copies,
                      origins + if retried then [last] else [])
  {
  }

  /**
   Reaping fails every running trial whose heartbeat is stale, touches no other, and enqueues
   exactly one copy of each that was not yet a retry, in their order.
   */
  lemma ReapedIs(trials: seq<Trial>, stale: set<nat>)
    ensures var u, n := Reaped(trials, stale), |trials|;
            && |u| == n + |ToRetry(trials, stale)|
            && (forall i :: 0 <= i < n ==>
                  u[i] == if trials[i].state == Running && i in stale then Trial(Fail, trials[i].retries)
                          else trials[i])
            && exists origins :: Lists(origins, trials, ToRetry(trials, stale)) && AreCopies(u[n..], origins)
  {
    hide Lists, Enqueued, ToRetry;
    var n := |trials|;
    EnqueuedAre(trials, stale, n);
    assert trials[..n] == trials;
    var copies := Enqueued(trials, stale, n);
    var origins :| Lists(origins, trials, ToRetry(trials, stale)) && AreCopies(copies, origins);
    ListsCount(origins, trials, ToRetry(trials, stale));
    assert Reaped(trials, stale)[n..] == copies;
  }

  /** The oldest waiting trial, or the place of a new one. */
  function NextTrial(trials: seq<Trial>): (i: nat)
    ensures i <= |trials|
    ensures i < |trials| ==> trials[i].state == Waiting
    ensures forall j :: 0 <= j < i ==> trials[j].state != Waiting
  {
    if trials == [] then 0
    else
      var i := NextTrial(trials[..|trials| - 1]);
      assert forall j :: 0 <= j < |trials| - 1 ==> trials[..|trials| - 1][j] == trials[j];
      if i < |trials| - 1 || trials[|trials| - 1].state == Waiting then i else |trials|
  }

  function Ended(outcome: Outcome): TrialState
    requires outcome != TimedOut
  {
    match outcome
    case Completes => Complete
    case Prunes => Pruned
    case Raises => Fail
    case Killed => Running
  }

  /** The trial that was asked for, in the state the turn leaves it in. */
  function Tried(trials: seq<Trial>, outcome: Outcome): seq<Trial>
    requires outcome != TimedOut
  {
    var i := NextTrial(trials);
    if i < |trials| then trials[i := Trial(Ended(outcome), trials[i].retries)]
    else trials + [Trial(Ended(outcome), 0)]
  }

  /** The stored trials, and whether the loop goes on. */
  datatype Turn = Turn(trials: seq<Trial>, going: bool)

  predicate Answers(outcome: Outcome) {
    outcome == Completes || outcome == Prunes
  }

  function Turned(trials: seq<Trial>, slot: Slot): Turn {
    if slot.outcome == TimedOut then Turn(trials, false)
    else Turn(Tried(Reaped(trials, slot.stale), slot.outcome), Answers(slot.outcome))
  }

  // ------------------------------------------------------------------ a launch ---

  /** What befalls turn i; beyond what is told, a trial completes and nothing is stale. */
  function SlotAt(slots: seq<Slot>, i: nat): Slot {
    if i < |slots| then slots[i] else Slot({}, Completes)
  }

  /** `study.optimize(n_trials=n)`. */
  function Optimized(trials: seq<Trial>, n: nat, slots: seq<Slot>): Turn {
    if n == 0 then Turn(trials, true)
    else
      var before := Optimized(trials, n - 1, slots);
      if before.going then Turned(before.trials, SlotAt(slots, n - 1)) else before
  }

  function Owed(nTrials: nat, done: nat): nat {
    if done < nTrials then nTrials - done else 0
  }

  /** `max(0, n_trials - answered)` trials are run. */
  function Launched(trials: seq<Trial>, nTrials: nat, slots: seq<Slot>): Turn {
    Optimized(trials, Owed(nTrials, Answered(trials)), slots)
  }

  /** The rule the code rejects: every stored trial counts as done. */
  function LaunchedByTotal(trials: seq<Trial>, nTrials: nat, slots: seq<Slot>): Turn {
    Optimized(trials, Owed(nTrials, |trials|), slots)
  }

  /** The study as its storage holds it. */
  class Study {
    var trials: seq<Trial>

    constructor (stored: seq<Trial>)
      ensures trials == stored
    {
      trials := stored;
    }

    method Optimize(n: nat, slots: seq<Slot>) returns (going: bool)
      modifies this
      ensures Turn(trials, going) == Optimized(old(trials), n, slots)
    {
      hide Tried, Reaped, NextTrial;
      for i := 0 to n
        invariant Optimized(old(trials), i, slots) == Turn(trials, true)
      {
        var slot := SlotAt(slots, i);
        if slot.outcome == TimedOut {
          StaysEnded(old(trials), n, slots, i + 1);
          return false;
        }
        trials := Reaped(trials, slot.stale);
        trials := Tried(trials, slot.outcome);
        if !Answers(slot.outcome) {
          StaysEnded(old(trials), n, slots, i + 1);
          return false;
        }
      }
      return true;
    }

    /** The part of `main` between opening the study and summarising it. */
    method Launch(nTrials: nat, slots: seq<Slot>) returns (already: nat, answered: nat, going: bool)
      modifies this
      ensures already == |old(trials)| && answered == Answered(old(trials))
      ensures Turn(trials, going) == Launched(old(trials), nTrials, slots)
    {
      already := |trials|;
      answered := 0;
      for i := 0 to |trials|
        invariant trials == old(trials) && answered == Answered(trials[..i])
      {
        assert trials[..i + 1][..i] == trials[..i];
        if trials[i].state == Complete || trials[i].state == Pruned {
          answered := answered + 1;
        }
      }
      assert trials[..|trials|] == trials;
      going := Optimize(if nTrials > answered then nTrials - answered else 0, slots);
    }
  }

  lemma {:induction false} StaysEnded(trials: seq<Trial>, n: nat, slots: seq<Slot>, i: nat)
    requires i <= n && !Optimized(trials, i, slots).going
    ensures Optimized(trials, n, slots) == Optimized(trials, i, slots)
    decreases n
  {
    hide Turned;
    if i < n { StaysEnded(trials, n - 1, slots, i); }
  }

  // -------------------------------------------------------------------- counting ---

  lemma {:induction false} AnsweredConcat(a: seq<Trial>, b: seq<Trial>)
    ensures Answered(a + b) == Answered(a) + Answered(b)
  {
    if b == [] {
      assert a + b == a;
    } else {
      assert (a + b)[..|a + b| - 1] == a + b[..|b| - 1];
      AnsweredConcat(a, b[..|b| - 1]);
    }
  }

  lemma AnsweredUpdate(trials: seq<Trial>, i: nat, t: Trial)
    requires i < |trials|
    ensures Answered(trials[i := t]) == Answered(trials) - One(trials[i]) + One(t)
  {
    hide IsAnswer;
    AnsweredOne(trials[i]);
    AnsweredOne(t);
    AnsweredConcat(trials[..i] + [trials[i]], trials[i + 1..]);
    AnsweredConcat(trials[..i] + [t], trials[i + 1..]);
    AnsweredConcat(trials[..i], [trials[i]]);
    AnsweredConcat(trials[..i], [t]);
    assert trials == trials[..i] + [trials[i]] + trials[i + 1..];
    assert trials[i := t] == trials[..i] + [t] + trials[i + 1..];
  }

  lemma AnsweredOne(t: Trial)
    ensures Answered([t]) == One(t)
  {
    assert [t][..0] == [];
  }

  lemma {:induction false} AnsweredAgree(a: seq<Trial>, b: seq<Trial>)
    requires |a| == |b| && forall i :: 0 <= i < |a| ==> One(a[i]) == One(b[i])
    ensures Answered(a) == Answered(b)
  {
    if a != [] { AnsweredAgree(a[..|a| - 1], b[..|b| - 1]); }
  }

  lemma {:induction false} NoneAnswered(trials: seq<Trial>)
    requires forall i :: 0 <= i < |trials| ==> !IsAnswer(trials[i])
    ensures Answered(trials) == 0
  {
    if trials != [] { NoneAnswered(trials[..|trials| - 1]); }
  }

  ghost function AnsweredPlaces(trials: seq<Trial>): set<nat> {
    set i: nat | i < |trials| && (trials[i].state == Complete || trials[i].state == Pruned)
  }

  /** What is counted as answered: the completed and the pruned, each once. */
  lemma {:induction false} AnsweredAre(trials: seq<Trial>)
    ensures Answered(trials) == |AnsweredPlaces(trials)|
  {
    if trials == [] {
      assert AnsweredPlaces(trials) == {};
    } else {
      var n := |trials| - 1;
      AnsweredAre(trials[..n]);
      assert AnsweredPlaces(trials) == AnsweredPlaces(trials[..n]) + if IsAnswer(trials[n]) then {n} else {};
    }
  }

  /** The i-th trial, waiting or new, is the one in the outcome's state, and all others are as before. */
  ghost predicate Leaves(before: seq<Trial>, after: seq<Trial>, i: nat, outcome: Outcome) {
    && i < |after|
    && (if i < |before| then before[i].state == Waiting && after == before[i := after[i]]
        else after == before + [after[i]])
    && (after[i].state == Complete <==> outcome == Completes)
    && (after[i].state == Pruned <==> outcome == Prunes)
    && (after[i].state == Fail <==> outcome == Raises)
    && (after[i].state == Running <==> outcome == Killed)
  }

  /** A turn tries the oldest waiting trial, or a new one if none waits. */
  lemma TurnIs(trials: seq<Trial>, slot: Slot)
    requires slot.outcome != TimedOut
    ensures var r, reaped := Turned(trials, slot), Reaped(trials, slot.stale);
            && (r.going <==> slot.outcome == Completes || slot.outcome == Prunes)
            && exists i: nat ::
                 Leaves(reaped, r.trials, i, slot.outcome) &&
                 forall j :: 0 <= j < i && j < |reaped| ==> reaped[j].state != Waiting
  {
    hide Reaped;
    var reaped := Reaped(trials, slot.stale);
    assert Leaves(reaped, Turned(trials, slot).trials, NextTrial(reaped), slot.outcome);
  }

  // ------------------------------------------------------------ what turns keep ---

  /** No trial is lost, and none that was answered or failed is opened again. */
  ghost predicate Extends(a: seq<Trial>, b: seq<Trial>) {
    && |a| <= |b|
    && forall i :: 0 <= i < |a| ==>
         b[i].retries == a[i].retries && (IsAnswer(a[i]) || a[i].state == Fail ==> b[i] == a[i])
  }

  ghost predicate RetriedOnce(trials: seq<Trial>) {
    forall i :: 0 <= i < |trials| ==> trials[i].retries <= MAX_RETRY
  }

  lemma ReapedLaw(trials: seq<Trial>, stale: set<nat>)
    ensures var u := Reaped(trials, stale);
            && Answered(u) == Answered(trials) && Extends(trials, u)
            && (RetriedOnce(trials) ==> RetriedOnce(u))
            && (forall i: nat :: i < |u| && u[i].state == Running ==>
                i < |trials| && trials[i].state == Running && i !in stale)
  {
    hide Answered, Enqueued;
    var f, e := Failed(trials, stale), Enqueued(trials, stale, |trials|);
    AnsweredConcat(f, e);
    AnsweredAgree(trials, f);
    NoneAnswered(e);
  }

  lemma TriedLaw(trials: seq<Trial>, outcome: Outcome)
    requires outcome != TimedOut
    ensures var u := Tried(trials, outcome);
            && Answered(u) == Answered(trials) + (if Answers(outcome) then 1 else 0)
            && Extends(trials, u) && (RetriedOnce(trials) ==> RetriedOnce(u))
            && (Answers(outcome) ==>
                  forall i :: 0 <= i < |u| && u[i].state == Running ==> i < |trials| && trials[i].state == Running)
  {
    hide Answered, NextTrial;
    var i := NextTrial(trials);
    if i < |trials| {
      AnsweredUpdate(trials, i, Trial(Ended(outcome), trials[i].retries));
    } else {
      AnsweredConcat(trials, [Trial(Ended(outcome), 0)]);
      AnsweredOne(Trial(Ended(outcome), 0));
    }
  }

  lemma TurnedLaw(trials: seq<Trial>, slot: Slot)
    ensures var r := Turned(trials, slot);
            && Answered(r.trials) == Answered(trials) + (if r.going then 1 else 0)
            && Extends(trials, r.trials) && (RetriedOnce(trials) ==> RetriedOnce(r.trials))
            && (r.going ==> forall i: nat :: i < |r.trials| && r.trials[i].state == Running ==>
                  i < |trials| && trials[i].state == Running && i !in slot.stale)
  {
    hide Answered, Tried, Reaped;
    if slot.outcome != TimedOut {
      ReapedLaw(trials, slot.stale);
      TriedLaw(Reaped(trials, slot.stale), slot.outcome);
    }
  }

  ghost predicate Uninterrupted(n: nat, slots: seq<Slot>) {
    forall i :: 0 <= i < n ==> Answers(SlotAt(slots, i).outcome)
  }

  /** n turns answer at most n questions, and exactly n when nothing cuts them short. */
  lemma {:induction false} OptimizedLaw(trials: seq<Trial>, n: nat, slots: seq<Slot>)
    ensures var r := Optimized(trials, n, slots);
            && Answered(trials) <= Answered(r.trials) <= Answered(trials) + n
            && (r.going <==> Answered(r.trials) == Answered(trials) + n)
            && (Uninterrupted(n, slots) <==> r.going)
            && Extends(trials, r.trials) && (RetriedOnce(trials) ==> RetriedOnce(r.trials))
  {
    hide Answered, Turned;
    if n > 0 {
      var before := Optimized(trials, n - 1, slots);
      OptimizedLaw(trials, n - 1, slots);
      TurnedLaw(before.trials, SlotAt(slots, n - 1));
      GoesOnIff(before.trials, SlotAt(slots, n - 1));
      if before.going {
        ExtendsThen(trials, before.trials, Optimized(trials, n, slots).trials);
      }
    }
  }

  lemma GoesOnIff(trials: seq<Trial>, slot: Slot)
    ensures Turned(trials, slot).going <==> Answers(slot.outcome)
  {
    hide Tried, Reaped;
  }

  lemma ExtendsThen(a: seq<Trial>, b: seq<Trial>, c: seq<Trial>)
    requires Extends(a, b) && Extends(b, c)
    ensures Extends(a, c)
  {
  }

  // ------------------------------------------------------------------- launches ---

  /**
   A launch never loses an answered trial and never answers past n_trials; it ends with
   exactly n_trials answered if and only if nothing cut it short.
   */
  lemma LaunchLaw(trials: seq<Trial>, nTrials: nat, slots: seq<Slot>)
    requires Answered(trials) <= nTrials
    ensures var r := Launched(trials, nTrials, slots);
            && Answered(trials) <= Answered(r.trials) <= nTrials
            && Extends(trials, r.trials)
            && (Answered(r.trials) == nTrials <==> Uninterrupted(Owed(nTrials, Answered(trials)), slots))
  {
    hide Answered, Optimized;
    OptimizedLaw(trials, Owed(nTrials, Answered(trials)), slots);
  }

  /** The stored trials after a history of launches, each with its own fate. */
  function After(trials: seq<Trial>, nTrials: nat, launches: seq<seq<Slot>>): seq<Trial> {
    if launches == [] then trials
    else Launched(After(trials, nTrials, launches[..|launches| - 1]), nTrials, launches[|launches| - 1]).trials
  }

  /** Over any history of launches, kills, raises and timeouts. */
  lemma {:induction false} HistoryLaw(trials: seq<Trial>, nTrials: nat, launches: seq<seq<Slot>>)
    requires Answered(trials) <= nTrials
    ensures var after := After(trials, nTrials, launches);
            Answered(trials) <= Answered(after) <= nTrials && Extends(trials, after)
  {
    hide Answered, Launched;
    if launches != [] {
      var before := After(trials, nTrials, launches[..|launches| - 1]);
      HistoryLaw(trials, nTrials, launches[..|launches| - 1]);
      LaunchLaw(before, nTrials, launches[|launches| - 1]);
      ExtendsThen(trials, before, After(trials, nTrials, launches));
    }
  }

  /** No dead trial is ever retried more than once. */
  lemma {:induction false} HistoryRetriesOnce(trials: seq<Trial>, nTrials: nat, launches: seq<seq<Slot>>)
    requires RetriedOnce(trials)
    ensures RetriedOnce(After(trials, nTrials, launches))
  {
    hide Answered, Launched, RetriedOnce;
    if launches != [] {
      HistoryRetriesOnce(trials, nTrials, launches[..|launches| - 1]);
      LaunchRetries(After(trials, nTrials, launches[..|launches| - 1]), nTrials, launches[|launches| - 1]);
    }
  }

  lemma LaunchRetries(trials: seq<Trial>, nTrials: nat, slots: seq<Slot>)
    requires RetriedOnce(trials)
    ensures RetriedOnce(Launched(trials, nTrials, slots).trials)
  {
    hide Answered, Optimized;
    OptimizedLaw(trials, Owed(nTrials, Answered(trials)), slots);
  }

  /** Whatever came before, a launch that nothing cuts short ends with n_trials answered. */
  lemma FirstUninterruptedFinishes(trials: seq<Trial>, nTrials: nat, launches: seq<seq<Slot>>, last: seq<Slot>)
    requires Answered(trials) <= nTrials
    requires Uninterrupted(Owed(nTrials, Answered(After(trials, nTrials, launches))), last)
    ensures Answered(After(trials, nTrials, launches + [last])) == nTrials
  {
    hide Answered, Launched;
    HistoryLaw(trials, nTrials, launches);
    assert (launches + [last])[..|launches|] == launches;
    LaunchLaw(After(trials, nTrials, launches), nTrials, last);
  }

  /**
   The rejected rule ends an uninterrupted launch short of n_trials, by exactly the trials
   that were never answered as long as there are no more than n_trials of them all.
   */
  lemma RejectedRuleFallsShort(trials: seq<Trial>, nTrials: nat, slots: seq<Slot>)
    requires Answered(trials) <= nTrials && Uninterrupted(Owed(nTrials, |trials|), slots)
    ensures var short := nTrials - Answered(LaunchedByTotal(trials, nTrials, slots).trials);
            && (short == |trials| - Answered(trials) <==> |trials| <= nTrials)
            && (|trials| > nTrials ==> short == nTrials - Answered(trials))
  {
    hide Answered, Optimized;
    OptimizedLaw(trials, Owed(nTrials, |trials|), slots);
  }

  /** What the rejected rule is short of, were the next launch to run through. */
  function Shortfall(trials: seq<Trial>, nTrials: nat): int {
    nTrials - Answered(LaunchedByTotal(trials, nTrials, []).trials)
  }

  /** A killed turn answers nothing, and stores the copies it enqueued or the trial it created. */
  lemma KillStores(trials: seq<Trial>, stale: set<nat>)
    ensures var r, reaped := Turned(trials, Slot(stale, Killed)), Reaped(trials, stale);
            && !r.going && Answered(r.trials) == Answered(trials)
            && |r.trials| == |trials| + |Enqueued(trials, stale, |trials|)| +
               (if NextTrial(reaped) == |reaped| then 1 else 0)
            && (Enqueued(trials, stale, |trials|) != [] ==> NextTrial(reaped) < |reaped|)
            && NextTrial(reaped) < |r.trials| && r.trials[NextTrial(reaped)].state == Running
  {
    hide Answered;
    TurnedLaw(trials, Slot(stale, Killed));
    var reaped := Reaped(trials, stale);
    var copies := Enqueued(trials, stale, |trials|);
    if copies != [] {
      assert reaped[|trials|] == copies[0];
    }
  }

  /**
   What a kill costs the rejected rule: one trial when nothing waits to be tried, and
   otherwise as many as it re-enqueues. The rule in use loses nothing.
   */
  lemma WhatAKillCosts(trials: seq<Trial>, nTrials: nat, stale: set<nat>)
    requires var killed := Turned(trials, Slot(stale, Killed)).trials;
             |killed| <= nTrials
    ensures var killed, reaped := Turned(trials, Slot(stale, Killed)).trials, Reaped(trials, stale);
            && Shortfall(killed, nTrials) - Shortfall(trials, nTrials) ==
               (if NextTrial(reaped) == |reaped| then 1 else |Enqueued(trials, stale, |trials|)|)
            && Answered(Launched(killed, nTrials, []).trials) == nTrials
  {
    hide Answered, Turned, LaunchedByTotal, Launched, NextTrial, Reaped, Enqueued;
    var killed := Turned(trials, Slot(stale, Killed)).trials;
    KillStores(trials, stale);
    RejectedRuleFallsShort(trials, nTrials, []);
    RejectedRuleFallsShort(killed, nTrials, []);
    LaunchLaw(killed, nTrials, []);
  }

  ghost predicate NoneRunning(trials: seq<Trial>) {
    forall i :: 0 <= i < |trials| ==> trials[i].state != Running
  }

  lemma {:induction false} StaysClear(trials: seq<Trial>, n: nat, slots: seq<Slot>)
    requires n > 0 && Uninterrupted(n, slots)
    requires forall i: nat :: i < |trials| && trials[i].state == Running ==> i in SlotAt(slots, 0).stale
    ensures NoneRunning(Optimized(trials, n, slots).trials)
  {
    hide Turned;
    var before := Optimized(trials, n - 1, slots);
    OptimizedLaw(trials, n - 1, slots);
    assert Answers(SlotAt(slots, n - 1).outcome);
    GoesOnIff(before.trials, SlotAt(slots, n - 1));
    TurnedLaw(before.trials, SlotAt(slots, n - 1));
    if n > 1 {
      StaysClear(trials, n - 1, slots);
    }
  }

  /**
   The heartbeat clears every trial a dead process left running, exactly when the launch
   still owes a trial: a study with nothing owed keeps its zombies, since only a turn reaps.
   */
  lemma ZombiesClearedIffOwed(trials: seq<Trial>, nTrials: nat, slots: seq<Slot>)
    requires Answered(trials) <= nTrials && !NoneRunning(trials)
    requires Uninterrupted(Owed(nTrials, Answered(trials)), slots)
    requires forall i: nat :: i < |trials| && trials[i].state == Running ==> i in SlotAt(slots, 0).stale
    ensures NoneRunning(Launched(trials, nTrials, slots).trials) <==> Answered(trials) < nTrials
  {
    hide Answered, Turned;
    if Answered(trials) < nTrials {
      StaysClear(trials, nTrials - Answered(trials), slots);
    }
  }
}
