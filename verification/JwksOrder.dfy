/**
 The order of stored replies: when fetches that overlap can put an older key set back in
 the place of a newer one.
 */
module JwksOrder {
  import opened Wrappers
  import opened Jwks
  import opened JwksRuns

  predicate InFlight(phase: Phase) {
    phase.Requesting? || phase.Holding?
  }

  /** At most one fetch is under way. */
  ghost predicate NoOverlap(w: World) {
    forall t, u :: t in w.phases && u in w.phases && InFlight(w.phases[t]) && InFlight(w.phases[u]) ==> t == u
  }

  /** Every commit so far is of a newer reply than all commits before it. */
  ghost predicate CommitsFollowReplies(w: World) {
    && (forall i :: 0 <= i < |w.commits| ==> w.commits[i].reply < |w.served|)
    && (forall i, j :: 0 <= i < j < |w.commits| ==> w.commits[i].reply < w.commits[j].reply)
  }

  ghost predicate HeldAreNewer(w: World) {
    forall t, i :: t in w.phases && w.phases[t].Holding? && 0 <= i < |w.commits| ==>
      w.commits[i].reply < w.phases[t].reply
  }

  lemma StepKeepsOrder(cfg: Config, w: World, step: Step, w': World)
    requires Next(cfg, w, step, w') && NoOverlap(w)
    requires CommitsFollowReplies(w) && HeldAreNewer(w)
    ensures CommitsFollowReplies(w') && HeldAreNewer(w')
  {
    hide Finds, HoldsLast, RefreshAllowed;
    if step.Store? {
      assert w.phases[step.thread].Holding?;
    }
  }

  /** Where fetches never overlap, every commit is of a newer reply than all commits before it. */
  lemma {:induction false} SeparateFetchesCommitInOrder(cfg: Config, worlds: seq<World>, steps: seq<Step>, i: nat)
    requires IsRun(cfg, worlds, steps) && i <= |steps|
    requires forall k :: 0 <= k < i ==> NoOverlap(worlds[k])
    ensures CommitsFollowReplies(worlds[i]) && HeldAreNewer(worlds[i])
  {
    if i > 0 {
      hide Next, NoOverlap, CommitsFollowReplies, HeldAreNewer;
      SeparateFetchesCommitInOrder(cfg, worlds, steps, i - 1);
      StepKeepsOrder(cfg, worlds[i - 1], steps[i - 1], worlds[i]);
    }
  }

  // ---- Which sets of threads keep the order ----

  predicate OnlyThreads(steps: seq<Step>, threads: set<nat>) {
    forall i :: 0 <= i < |steps| ==> steps[i].Tick? || steps[i].thread in threads
  }

  lemma StepOfThreads(cfg: Config, w: World, step: Step, w': World, threads: set<nat>)
    requires Next(cfg, w, step, w') && (step.Tick? || step.thread in threads)
    requires w.phases.Keys <= threads
    ensures w'.phases.Keys <= threads
  {
    hide Finds, HoldsLast, RefreshAllowed;
  }

  lemma OneThreadDoesNotOverlap(w: World, threads: set<nat>)
    requires w.phases.Keys <= threads && |threads| <= 1
    ensures NoOverlap(w)
  {
    forall t, u | t in w.phases && u in w.phases ensures t == u {
      assert t in threads && u in threads;
      SubsetCardinality({t, u}, threads);
    }
  }

  lemma {:induction false} OneThreadKeepsOrder(cfg: Config, worlds: seq<World>, steps: seq<Step>,
                                               threads: set<nat>, i: nat)
    requires IsRun(cfg, worlds, steps) && OnlyThreads(steps, threads) && |threads| <= 1 && i <= |steps|
    ensures CommitsFollowReplies(worlds[i]) && HeldAreNewer(worlds[i]) && worlds[i].phases.Keys <= threads
  {
    if i > 0 {
      hide Next, NoOverlap, CommitsFollowReplies, HeldAreNewer;
      OneThreadKeepsOrder(cfg, worlds, steps, threads, i - 1);
      OneThreadDoesNotOverlap(worlds[i - 1], threads);
      StepKeepsOrder(cfg, worlds[i - 1], steps[i - 1], worlds[i]);
      StepOfThreads(cfg, worlds[i - 1], steps[i - 1], worlds[i], threads);
    }
  }

  lemma ReplyNext(cfg: Config, w: World, t: nat, entries: seq<Jwk>)
    requires PhaseOf(w, t) == Requesting(None)
    ensures Next(cfg, w, Reply(t, KeySet(entries)),
                 At(w, t, Holding(None, |w.served|)).(served := w.served + [Served(w.now, entries)]))
  {
  }

  lemma StoreNext(cfg: Config, w: World, t: nat, reply: nat, keys: Keys)
    requires PhaseOf(w, t) == Holding(None, reply) && reply < |w.served|
    requires HoldsLast(keys, w.served[reply].entries)
    ensures Next(cfg, w, Store(t, keys, w.now, w.now),
                 At(w, t, Idle).(cache := Cache(keys, Some(w.now), Some(w.now)),
                                 commits := w.commits + [Commit(reply, w.now, w.now)]))
  {
    hide HoldsLast;
  }

  /**
   Any two threads can store their replies in the opposite order, so that the cache ends up
   with the older key set although the newer one had been stored.
   */
  lemma OverlappingFetchesRestoreOldKeys(cfg: Config, t: nat, u: nat, older: seq<Jwk>, newer: seq<Jwk>)
    returns (worlds: seq<World>, steps: seq<Step>)
    requires t != u
    ensures IsRun(cfg, worlds, steps) && OnlyThreads(steps, {t, u})
    ensures var w := worlds[|steps|];
            && |w.served| == 2 && w.served[0].entries == older && w.served[1].entries == newer
            && |w.commits| == 2 && w.commits[0].reply == 1 && w.commits[1].reply == 0
            && HoldsLast(w.cache.keys, older)
  {
    hide HoldsLast, Finds, RefreshAllowed;
    var oldKeys := SomeKeysHoldLast(older);
    var newKeys := SomeKeysHoldLast(newer);
    var w0 := World(0, EMPTY, [], [], map[]);
    var w1 := At(w0, t, Requesting(None));
    var w2 := At(w1, u, Requesting(None));
    assert Next(cfg, w0, Preload(t), w1) && Next(cfg, w1, Preload(u), w2);
    hide Next;
    var w3 := At(w2, t, Holding(None, 0)).(served := w2.served + [Served(0, older)]);
    ReplyNext(cfg, w2, t, older);
    var w4 := At(w3, u, Holding(None, 1)).(served := w3.served + [Served(0, newer)]);
    ReplyNext(cfg, w3, u, newer);
    var w5 := At(w4, u, Idle).(cache := Cache(newKeys, Some(0), Some(0)), commits := w4.commits + [Commit(1, 0, 0)]);
    StoreNext(cfg, w4, u, 1, newKeys);
    var w6 := At(w5, t, Idle).(cache := Cache(oldKeys, Some(0), Some(0)), commits := w5.commits + [Commit(0, 0, 0)]);
    StoreNext(cfg, w5, t, 0, oldKeys);
    worlds := [w0, w1, w2, w3, w4, w5, w6];
    steps := [Preload(t), Preload(u), Reply(t, KeySet(older)), Reply(u, KeySet(newer)),
              Store(u, newKeys, 0, 0), Store(t, oldKeys, 0, 0)];
  }

  /** All runs of these threads store replies in the order they were served. */
  ghost predicate KeepOrder(cfg: Config, threads: set<nat>) {
    forall worlds, steps :: IsRun(cfg, worlds, steps) && OnlyThreads(steps, threads) ==>
      CommitsFollowReplies(worlds[|steps|])
  }

  /** A set of threads keeps the order of replies in all its runs if and only if it is at most one thread. */
  lemma OrderIsKeptExactly(cfg: Config, threads: set<nat>)
    ensures KeepOrder(cfg, threads) <==> |threads| <= 1
  {
    hide IsRun;
    if |threads| <= 1 {
      forall worlds, steps | IsRun(cfg, worlds, steps) && OnlyThreads(steps, threads)
        ensures |worlds| == |steps| + 1 && CommitsFollowReplies(worlds[|steps|])
      {
        RunLength(cfg, worlds, steps);
        OneThreadKeepsOrder(cfg, worlds, steps, threads, |steps|);
      }
    } else {
      var t :| t in threads;
      assert |threads - {t}| == |threads| - 1;
      var u :| u in threads - {t};
      var worlds, steps := OverlappingFetchesRestoreOldKeys(cfg, t, u, [], []);
      RunLength(cfg, worlds, steps);
      assert !CommitsFollowReplies(worlds[|steps|]);
    }
  }

  lemma RunLength(cfg: Config, worlds: seq<World>, steps: seq<Step>)
    requires IsRun(cfg, worlds, steps)
    ensures |worlds| == |steps| + 1
  {
  }

  // ---- Which worlds can still go wrong ----

  /** Held replies are distinct, and none has been stored. */
  ghost predicate HeldAreDistinct(w: World) {
    && (forall i :: 0 <= i < |w.commits| ==> w.commits[i].reply < |w.served|)
    && (forall t :: t in w.phases && w.phases[t].Holding? ==> w.phases[t].reply < |w.served|)
    && (forall t, i :: t in w.phases && w.phases[t].Holding? && 0 <= i < |w.commits| ==>
          w.commits[i].reply != w.phases[t].reply)
    && (forall t, u :: t in w.phases && u in w.phases && w.phases[t].Holding? && w.phases[u].Holding? && t != u ==>
          w.phases[t].reply != w.phases[u].reply)
  }

  lemma StepKeepsDistinct(cfg: Config, w: World, step: Step, w': World)
    requires Next(cfg, w, step, w') && HeldAreDistinct(w)
    ensures HeldAreDistinct(w')
  {
    hide Finds, HoldsLast, RefreshAllowed;
    if step.Store? {
      assert w.phases[step.thread].Holding?;
    }
  }

  lemma {:induction false} RunsKeepDistinct(cfg: Config, worlds: seq<World>, steps: seq<Step>, i: nat)
    requires IsRun(cfg, worlds, steps) && i <= |steps|
    ensures HeldAreDistinct(worlds[i])
  {
    if i > 0 {
      hide Next, HeldAreDistinct;
      RunsKeepDistinct(cfg, worlds, steps, i - 1);
      StepKeepsDistinct(cfg, worlds[i - 1], steps[i - 1], worlds[i]);
    }
  }

  /** The fetches under way go on, and nothing new is started. */
  predicate Finishes(step: Step) {
    step.Tick? || step.Reply? || step.Store?
  }

  ghost predicate Continues(cfg: Config, w: World, worlds: seq<World>, steps: seq<Step>) {
    && |worlds| == |steps| + 1 && worlds[0] == w
    && (forall i :: 0 <= i < |steps| ==> Next(cfg, worlds[i], steps[i], worlds[i + 1]))
    && (forall i :: 0 <= i < |steps| ==> Finishes(steps[i]))
  }

  /** The fetches under way can be stored in an order that puts an older reply after a newer one. */
  ghost predicate CanGoWrong(cfg: Config, w: World) {
    exists worlds, steps :: Continues(cfg, w, worlds, steps) && !CommitsFollowReplies(worlds[|steps|])
  }

  /** Two fetches are under way, or one holds a reply that is older than a stored one. */
  ghost predicate AtRisk(w: World) {
    !NoOverlap(w) || !HeldAreNewer(w)
  }

  lemma StepKeepsSafe(cfg: Config, w: World, step: Step, w': World)
    requires Next(cfg, w, step, w') && Finishes(step)
    requires CommitsFollowReplies(w) && !AtRisk(w)
    ensures CommitsFollowReplies(w') && !AtRisk(w')
  {
    StepKeepsOrder(cfg, w, step, w');
    hide Finds, HoldsLast, RefreshAllowed, CommitsFollowReplies, HeldAreNewer;
    if !step.Tick? {
      assert step.thread in w.phases;
    }
  }

  lemma {:induction false} SafeStaysInOrder(cfg: Config, w: World, worlds: seq<World>, steps: seq<Step>, i: nat)
    requires Continues(cfg, w, worlds, steps) && i <= |steps|
    requires CommitsFollowReplies(w) && !AtRisk(w)
    ensures CommitsFollowReplies(worlds[i]) && !AtRisk(worlds[i])
  {
    if i > 0 {
      hide Next, CommitsFollowReplies, AtRisk;
      SafeStaysInOrder(cfg, w, worlds, steps, i - 1);
      StepKeepsSafe(cfg, worlds[i - 1], steps[i - 1], worlds[i]);
    }
  }

  /** A held reply can be stored at once. */
  lemma HeldCanBeStored(cfg: Config, w: World, t: nat) returns (step: Step, w': World)
    requires PhaseOf(w, t).Holding? && PhaseOf(w, t).reply < |w.served|
    ensures Next(cfg, w, step, w') && Finishes(step)
    ensures w'.commits == w.commits + [Commit(PhaseOf(w, t).reply, w.now, w.now)] && w'.served == w.served
    ensures forall u :: u != t ==> PhaseOf(w', u) == PhaseOf(w, u)
  {
    var keys := SomeKeysHoldLast(w.served[PhaseOf(w, t).reply].entries);
    hide HoldsLast;
    var kid := PhaseOf(w, t).forKid;
    step := Store(t, keys, w.now, w.now);
    w' := At(w, t, if kid.Some? then Refreshed(kid.value) else Idle)
          .(cache := Cache(keys, Some(w.now), Some(w.now)),
            commits := w.commits + [Commit(PhaseOf(w, t).reply, w.now, w.now)]);
  }

  lemma ContinuesAfter(cfg: Config, w: World, step: Step, w': World, worlds: seq<World>, steps: seq<Step>)
    requires Next(cfg, w, step, w') && Finishes(step) && Continues(cfg, w', worlds, steps)
    ensures Continues(cfg, w, [w] + worlds, [step] + steps)
    ensures ([w] + worlds)[|[step] + steps|] == worlds[|steps|]
  {
  }

  lemma GoesWrongAfter(cfg: Config, w: World, step: Step, w': World)
    requires Next(cfg, w, step, w') && Finishes(step) && CanGoWrong(cfg, w')
    ensures CanGoWrong(cfg, w)
  {
    hide Next, CommitsFollowReplies;
    var worlds, steps :| Continues(cfg, w', worlds, steps) && !CommitsFollowReplies(worlds[|steps|]);
    ContinuesAfter(cfg, w, step, w', worlds, steps);
  }

  lemma WrongAlready(cfg: Config, w: World)
    requires !CommitsFollowReplies(w)
    ensures CanGoWrong(cfg, w)
  {
    var steps: seq<Step> := [];
    assert Continues(cfg, w, [w], steps) && !CommitsFollowReplies([w][|steps|]);
  }

  lemma OlderHeldGoesWrong(cfg: Config, w: World, t: nat, i: nat)
    requires PhaseOf(w, t).Holding? && PhaseOf(w, t).reply < |w.served|
    requires i < |w.commits| && w.commits[i].reply > PhaseOf(w, t).reply
    ensures CanGoWrong(cfg, w)
  {
    var step, w' := HeldCanBeStored(cfg, w, t);
    assert w'.commits[i] == w.commits[i] && w'.commits[|w.commits|].reply == PhaseOf(w, t).reply;
    WrongAlready(cfg, w');
    GoesWrongAfter(cfg, w, step, w');
  }

  /** Two fetches under way: let both be answered, then store the newer reply first. */
  lemma {:induction false} OverlapGoesWrong(cfg: Config, w: World, t: nat, u: nat)
    requires HeldAreDistinct(w) && t != u && InFlight(PhaseOf(w, t)) && InFlight(PhaseOf(w, u))
    ensures CanGoWrong(cfg, w)
    decreases (if PhaseOf(w, t).Requesting? then 1 else 0) + (if PhaseOf(w, u).Requesting? then 1 else 0)
  {
    hide CanGoWrong, HeldAreDistinct, Finds, HoldsLast;
    if PhaseOf(w, t).Requesting? || PhaseOf(w, u).Requesting? {
      var first, other := if PhaseOf(w, t).Requesting? then t else u, if PhaseOf(w, t).Requesting? then u else t;
      var w' := At(w, first, Holding(PhaseOf(w, first).forKid, |w.served|)).(served := w.served + [Served(w.now, [])]);
      StepKeepsDistinct(cfg, w, Reply(first, KeySet([])), w');
      OverlapGoesWrong(cfg, w', first, other);
      GoesWrongAfter(cfg, w, Reply(first, KeySet([])), w');
    } else {
      BothHeld(w, t, u);
      var older, newer := if PhaseOf(w, t).reply < PhaseOf(w, u).reply then t else u,
                          if PhaseOf(w, t).reply < PhaseOf(w, u).reply then u else t;
      var step, w' := HeldCanBeStored(cfg, w, newer);
      OlderHeldGoesWrong(cfg, w', older, |w.commits|);
      GoesWrongAfter(cfg, w, step, w');
    }
  }

  lemma BothHeld(w: World, t: nat, u: nat)
    requires HeldAreDistinct(w) && t != u && PhaseOf(w, t).Holding? && PhaseOf(w, u).Holding?
    ensures PhaseOf(w, t).reply < |w.served| && PhaseOf(w, u).reply < |w.served|
    ensures PhaseOf(w, t).reply != PhaseOf(w, u).reply
  {
  }

  /**
   In any world that a run reaches with its commits in order, finishing the fetches under
   way can store an older reply after a newer one if and only if two fetches are under way
   or one of them holds a reply older than a stored one.
   */
  lemma GoesWrongExactly(cfg: Config, worlds: seq<World>, steps: seq<Step>, i: nat)
    requires IsRun(cfg, worlds, steps) && i <= |steps| && CommitsFollowReplies(worlds[i])
    ensures CanGoWrong(cfg, worlds[i]) <==> AtRisk(worlds[i])
  {
    hide Next, CommitsFollowReplies;
    var w := worlds[i];
    RunsKeepDistinct(cfg, worlds, steps, i);
    if !NoOverlap(w) {
      var t, u :| t in w.phases && u in w.phases && InFlight(w.phases[t]) && InFlight(w.phases[u]) && t != u;
      OverlapGoesWrong(cfg, w, t, u);
    } else if !HeldAreNewer(w) {
      var t, k :| && t in w.phases && w.phases[t].Holding? && 0 <= k < |w.commits|
                  && w.commits[k].reply >= w.phases[t].reply;
      OlderHeldGoesWrong(cfg, w, t, k);
    } else if CanGoWrong(cfg, w) {
      var worlds', steps' :| Continues(cfg, w, worlds', steps') && !CommitsFollowReplies(worlds'[|steps'|]);
      SafeStaysInOrder(cfg, w, worlds', steps', |steps'|);
    }
  }
}
