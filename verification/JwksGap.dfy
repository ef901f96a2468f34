/**
 The distance between refreshes that failed lookups force: what the guard in front of them
 makes of it when requests fail or calls overlap.
 */
module JwksGap {
  import opened Wrappers
  import opened Jwks
  import opened JwksRuns
  import opened JwksOrder

  /** Step i is a guard that lets its thread's request start. */
  ghost predicate Starts(worlds: seq<World>, steps: seq<Step>, i: int) {
    && 0 <= i < |steps| < |worlds| && steps[i].Guard?
    && PhaseOf(worlds[i + 1], steps[i].thread).Requesting?
  }

  /** Any two forced refreshes start at least the minimum delay apart. */
  ghost predicate KeepsGap(cfg: Config, worlds: seq<World>, steps: seq<Step>) {
    forall i, j :: i < j && Starts(worlds, steps, i) && Starts(worlds, steps, j) ==>
      worlds[j].now - worlds[i].now >= cfg.minRefreshDelay
  }

  predicate StoredBetween(steps: seq<Step>, i: nat, j: nat)
    requires j <= |steps|
  {
    exists k :: i <= k < j && steps[k].Store?
  }

  lemma StepKeepsCommits(cfg: Config, w: World, step: Step, w': World)
    requires Next(cfg, w, step, w')
    ensures w.now <= w'.now && w.commits <= w'.commits
    ensures |w'.commits| == |w.commits| + if step.Store? then 1 else 0
    ensures step.Store? ==> w'.commits[|w.commits|].refreshed >= w.now
  {
    hide Finds, HoldsLast, RefreshAllowed;
  }

  /** Commits are only added, by stores, and no earlier than the clock of any world before. */
  lemma {:induction false} CommitsSince(cfg: Config, worlds: seq<World>, steps: seq<Step>, i: nat, j: nat)
    requires IsRun(cfg, worlds, steps) && i <= j <= |steps|
    ensures worlds[i].now <= worlds[j].now && worlds[i].commits <= worlds[j].commits
    ensures |worlds[i].commits| < |worlds[j].commits| <==> StoredBetween(steps, i, j)
    ensures forall k :: |worlds[i].commits| <= k < |worlds[j].commits| ==>
              worlds[j].commits[k].refreshed >= worlds[i].now
  {
    if i < j {
      hide Next;
      CommitsSince(cfg, worlds, steps, i, j - 1);
      StepKeepsCommits(cfg, worlds[j - 1], steps[j - 1], worlds[j]);
      assert StoredBetween(steps, i, j) <==> StoredBetween(steps, i, j - 1) || steps[j - 1].Store?;
    }
  }

  /**
   Within the minimum delay of a forced refresh, the guard lets another one start if and
   only if no refresh, of whatever call, has been stored in between.
   */
  lemma StartsAgainExactly(cfg: Config, worlds: seq<World>, steps: seq<Step>, i: nat, j: nat)
    requires IsRun(cfg, worlds, steps) && Starts(worlds, steps, i)
    requires i < j < |steps| && steps[j].Guard? && worlds[j].now - worlds[i].now < cfg.minRefreshDelay
    ensures Starts(worlds, steps, j) <==> !StoredBetween(steps, i, j)
  {
    hide Next;
    CommitsSince(cfg, worlds, steps, i, j);
    GuardKeepsDistanceToCommits(cfg, worlds, steps, i);
    GuardKeepsDistanceToCommits(cfg, worlds, steps, j);
    var earlier, later := worlds[i].commits, worlds[j].commits;
    if StoredBetween(steps, i, j) {
      assert later[|earlier|] in later;
    } else {
      assert later == earlier;
    }
  }

  // ---- Which sets of threads keep the gap ----

  predicate NoneFails(steps: seq<Step>) {
    forall i :: 0 <= i < |steps| && steps[i].Reply? ==> steps[i].response.KeySet?
  }

  lemma StepStaysInFlight(cfg: Config, w: World, step: Step, w': World, t: nat)
    requires Next(cfg, w, step, w') && InFlight(PhaseOf(w, t))
    requires step.Reply? ==> step.response.KeySet?
    ensures InFlight(PhaseOf(w', t)) || step.Store?
  {
    hide Finds, HoldsLast, RefreshAllowed;
  }

  /** A request that does not fail is under way until a refresh is stored. */
  lemma {:induction false} InFlightUntilStored(cfg: Config, worlds: seq<World>, steps: seq<Step>, t: nat, i: nat, j: nat)
    requires IsRun(cfg, worlds, steps) && NoneFails(steps)
    requires i <= j <= |steps| && InFlight(PhaseOf(worlds[i], t))
    ensures InFlight(PhaseOf(worlds[j], t)) || StoredBetween(steps, i, j)
  {
    if i < j {
      hide Next;
      InFlightUntilStored(cfg, worlds, steps, t, i, j - 1);
      if InFlight(PhaseOf(worlds[j - 1], t)) {
        StepStaysInFlight(cfg, worlds[j - 1], steps[j - 1], worlds[j], t);
      }
    }
  }

  lemma OneThreadKeepsGap(cfg: Config, worlds: seq<World>, steps: seq<Step>, threads: set<nat>)
    requires IsRun(cfg, worlds, steps) && OnlyThreads(steps, threads) && NoneFails(steps) && |threads| <= 1
    ensures KeepsGap(cfg, worlds, steps)
  {
    forall i, j | i < j && Starts(worlds, steps, i) && Starts(worlds, steps, j)
      ensures worlds[j].now - worlds[i].now >= cfg.minRefreshDelay
    {
      var t := steps[i].thread;
      SubsetCardinality({t, steps[j].thread}, threads);
      assert steps[j].thread == t;
      assert Next(cfg, worlds[j], steps[j], worlds[j + 1]);
      InFlightUntilStored(cfg, worlds, steps, t, i + 1, j);
      if worlds[j].now - worlds[i].now < cfg.minRefreshDelay {
        StartsAgainExactly(cfg, worlds, steps, i, j);
      }
    }
  }

  lemma NoDelayKeepsGap(cfg: Config, worlds: seq<World>, steps: seq<Step>)
    requires IsRun(cfg, worlds, steps) && cfg.minRefreshDelay <= 0
    ensures KeepsGap(cfg, worlds, steps)
  {
    forall i, j | i < j && Starts(worlds, steps, i) && Starts(worlds, steps, j)
      ensures worlds[j].now - worlds[i].now >= cfg.minRefreshDelay
    {
      CommitsSince(cfg, worlds, steps, i, j);
    }
  }

  ghost predicate AllAt(worlds: seq<World>, time: int) {
    forall i :: 0 <= i < |worlds| ==> worlds[i].now == time
  }

  /** A missed lookup in an empty cache, and the guard behind it. */
  lemma ColdStart(cfg: Config, w: World, t: nat)
    ensures w.cache == EMPTY && PhaseOf(w, t) == Idle ==> Next(cfg, w, Look(t, "k", None), At(w, t, Missed("k")))
    ensures w.cache == EMPTY && PhaseOf(w, t) == Missed("k") ==> Next(cfg, w, Guard(t), At(w, t, Requesting(Some("k"))))
  {
  }

  /** Any two threads that miss at the same time both start a request, and none need fail. */
  lemma OverlappingCallsBothStart(cfg: Config, t: nat, u: nat, time: int) returns (worlds: seq<World>, steps: seq<Step>)
    requires t != u
    ensures IsRun(cfg, worlds, steps) && OnlyThreads(steps, {t, u}) && NoneFails(steps) && AllAt(worlds, time)
    ensures |steps| == 4 && Starts(worlds, steps, 2) && Starts(worlds, steps, 3)
  {
    var w0 := World(time, EMPTY, [], [], map[]);
    var w1 := At(w0, t, Missed("k"));
    var w2 := At(w1, u, Missed("k"));
    var w3 := At(w2, t, Requesting(Some("k")));
    var w4 := At(w3, u, Requesting(Some("k")));
    ColdStart(cfg, w0, t);
    ColdStart(cfg, w1, u);
    ColdStart(cfg, w2, t);
    ColdStart(cfg, w3, u);
    hide Next;
    worlds, steps := [w0, w1, w2, w3, w4], [Look(t, "k", None), Look(u, "k", None), Guard(t), Guard(u)];
  }

  /** All runs of these threads in which no request fails keep the gap. */
  ghost predicate SuccessesKeepGap(cfg: Config, threads: set<nat>) {
    forall worlds, steps :: IsRun(cfg, worlds, steps) && OnlyThreads(steps, threads) && NoneFails(steps) ==>
      KeepsGap(cfg, worlds, steps)
  }

  /** Where no request fails, a set of threads keeps the gap if and only if it is at most one or there is no delay. */
  lemma GapIsKeptExactly(cfg: Config, threads: set<nat>)
    ensures SuccessesKeepGap(cfg, threads) <==> |threads| <= 1 || cfg.minRefreshDelay <= 0
  {
    hide IsRun;
    forall worlds, steps | IsRun(cfg, worlds, steps) && OnlyThreads(steps, threads) && NoneFails(steps)
      ensures |threads| <= 1 || cfg.minRefreshDelay <= 0 ==> KeepsGap(cfg, worlds, steps)
    {
      if cfg.minRefreshDelay <= 0 {
        NoDelayKeepsGap(cfg, worlds, steps);
      } else if |threads| <= 1 {
        OneThreadKeepsGap(cfg, worlds, steps, threads);
      }
    }
    if |threads| > 1 {
      var t :| t in threads;
      assert |threads - {t}| == |threads| - 1;
      var u :| u in threads - {t};
      var worlds, steps := OverlappingCallsBothStart(cfg, t, u, 0);
      assert OnlyThreads(steps, threads);
      assert worlds[3].now - worlds[2].now == 0;
    }
  }

  // ---- Failing requests ----

  /** One call of the thread that fails: a missed lookup, the guard and a request without a key set. */
  lemma FailingCall(cfg: Config, t: nat, failure: Response, worlds: seq<World>, steps: seq<Step>, time: int)
    returns (worlds': seq<World>, steps': seq<Step>)
    requires IsRun(cfg, worlds, steps) && AllAt(worlds, time) && !failure.KeySet?
    requires worlds[|steps|].cache == EMPTY && PhaseOf(worlds[|steps|], t) == Idle
    ensures IsRun(cfg, worlds', steps') && AllAt(worlds', time)
    ensures worlds'[|steps'|].cache == EMPTY && PhaseOf(worlds'[|steps'|], t) == Idle
    ensures worlds <= worlds' && steps' == steps + [Look(t, "k", None), Guard(t), Reply(t, failure)]
    ensures Starts(worlds', steps', |steps| + 1)
  {
    var w0 := worlds[|steps|];
    var w1 := At(w0, t, Missed("k"));
    var w2 := At(w1, t, Requesting(Some("k")));
    var w3 := At(w2, t, Idle);
    ColdStart(cfg, w0, t);
    ColdStart(cfg, w1, t);
    assert Next(cfg, w2, Reply(t, failure), w3);
    hide Next;
    worlds' := worlds + [w1, w2, w3];
    steps' := steps + [Look(t, "k", None), Guard(t), Reply(t, failure)];
  }

  /**
   Failed refreshes do not count as attempts: a single thread can start any number of
   requests at one instant, whatever the minimum delay.
   */
  lemma {:induction false} FailuresAreNotThrottled(cfg: Config, t: nat, failure: Response, n: nat, time: int)
    returns (worlds: seq<World>, steps: seq<Step>)
    requires !failure.KeySet?
    ensures IsRun(cfg, worlds, steps) && OnlyThreads(steps, {t}) && AllAt(worlds, time)
    ensures worlds[|steps|].cache == EMPTY && PhaseOf(worlds[|steps|], t) == Idle
    ensures |steps| == 3 * n && forall i :: 0 <= i < |steps| && i % 3 == 1 ==> Starts(worlds, steps, i)
  {
    if n == 0 {
      worlds, steps := [World(time, EMPTY, [], [], map[])], [];
    } else {
      hide IsRun, AllAt;
      var before, earlier := FailuresAreNotThrottled(cfg, t, failure, n - 1, time);
      assert |before| == |earlier| + 1 by {
        RunLength(cfg, before, earlier);
      }
      worlds, steps := FailingCall(cfg, t, failure, before, earlier, time);
      forall i | 0 <= i < |steps| && i % 3 == 1 ensures Starts(worlds, steps, i) {
        if i < |earlier| {
          assert Starts(before, earlier, i);
        }
      }
    }
  }

  ghost predicate AllKeepGap(cfg: Config, threads: set<nat>) {
    forall worlds, steps :: IsRun(cfg, worlds, steps) && OnlyThreads(steps, threads) ==> KeepsGap(cfg, worlds, steps)
  }

  /** Where requests may fail, only a delay of nothing is ever kept, even by a single thread. */
  lemma GapUnderFailuresExactly(cfg: Config, threads: set<nat>)
    ensures AllKeepGap(cfg, threads) <==> threads == {} || cfg.minRefreshDelay <= 0
  {
    hide IsRun;
    forall worlds, steps | IsRun(cfg, worlds, steps) && OnlyThreads(steps, threads)
      ensures threads == {} || cfg.minRefreshDelay <= 0 ==> KeepsGap(cfg, worlds, steps)
    {
      if cfg.minRefreshDelay <= 0 {
        NoDelayKeepsGap(cfg, worlds, steps);
      }
    }
    if t :| t in threads {
      var worlds, steps := FailuresAreNotThrottled(cfg, t, NetworkError, 2, 0);
      RunLength(cfg, worlds, steps);
      assert OnlyThreads(steps, threads) && Starts(worlds, steps, 1) && Starts(worlds, steps, 4);
      assert worlds[4].now - worlds[1].now == 0;
    }
  }
}
