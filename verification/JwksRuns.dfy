/**
 Overlapping calls on one key source. Each call is a thread of atomic steps: a lookup
 under the read lock, the guard, the request to the endpoint, the commit under the write
 lock and the second lookup. Any interleaving of any number of threads is a run.
 */
module JwksRuns {
  import opened Wrappers
  import opened Jwks

  /** A reply of the endpoint that decoded to a key set. */
  datatype Served = Served(at: int, entries: seq<Jwk>)

  /** The store of one served reply into the cache. */
  datatype Commit = Commit(reply: nat, fetched: int, refreshed: int)

  /** Where a thread is. The kid is None in a preload. */
  datatype Phase =
    | Idle
    | Missed(kid: string)
    | Requesting(forKid: Option<string>)
    | Holding(forKid: Option<string>, reply: nat)
    | Refreshed(kid: string)

  datatype World = World(now: int, cache: Cache, served: seq<Served>, commits: seq<Commit>, phases: map<nat, Phase>)

  datatype Step =
    | Tick(until: int)
    | Look(thread: nat, kid: string, found: Option<PublicKey>)
    | Preload(thread: nat)
    | Guard(thread: nat)
    | Reply(thread: nat, response: Response)
    | Store(thread: nat, keys: Keys, fetched: int, refreshed: int)
    | LookAgain(thread: nat, found: Option<PublicKey>)

  function PhaseOf(w: World, thread: nat): Phase {
    if thread in w.phases then w.phases[thread] else Idle
  }

  function At(w: World, thread: nat, phase: Phase): World {
    w.(phases := w.phases[thread := phase])
  }

  ghost predicate Init(w: World) {
    w.cache == EMPTY && w.served == [] && w.commits == [] && w.phases == map[]
  }

  ghost predicate Next(cfg: Config, w: World, step: Step, w': World) {
    match step
    case Tick(until) =>
      w.now <= until && w' == w.(now := until)
    case Look(t, kid, found) =>
      && PhaseOf(w, t) == Idle
      && Finds(cfg, w.cache, kid, w.now, found)
      && w' == At(w, t, if found.Some? then Idle else Missed(kid))
    case Preload(t) =>
      PhaseOf(w, t) == Idle && w' == At(w, t, Requesting(None))
    case Guard(t) =>
      && PhaseOf(w, t).Missed?
      && w' == At(w, t, if RefreshAllowed(cfg, w.cache, w.now) then Requesting(Some(PhaseOf(w, t).kid)) else Idle)
    case Reply(t, response) =>
      && PhaseOf(w, t).Requesting?
      && w' == if response.KeySet?
               then At(w, t, Holding(PhaseOf(w, t).forKid, |w.served|))
                    .(served := w.served + [Served(w.now, response.entries)])
               else At(w, t, Idle)
    case Store(t, keys, fetched, refreshed) =>
      && PhaseOf(w, t).Holding? && PhaseOf(w, t).reply < |w.served|
      && w.now <= fetched <= refreshed
      && HoldsLast(keys, w.served[PhaseOf(w, t).reply].entries)
      && var kid := PhaseOf(w, t).forKid;
         w' == At(w, t, if kid.Some? then Refreshed(kid.value) else Idle)
               .(now := refreshed,
                 cache := Cache(keys, Some(fetched), Some(refreshed)),
                 commits := w.commits + [Commit(PhaseOf(w, t).reply, fetched, refreshed)])
    case LookAgain(t, found) =>
      && PhaseOf(w, t).Refreshed?
      && Finds(cfg, w.cache, PhaseOf(w, t).kid, w.now, found)
      && w' == At(w, t, Idle)
  }

  ghost predicate IsRun(cfg: Config, worlds: seq<World>, steps: seq<Step>) {
    && |worlds| == |steps| + 1
    && Init(worlds[0])
    && forall i :: 0 <= i < |steps| ==> Next(cfg, worlds[i], steps[i], worlds[i + 1])
  }

  lemma ExtendRun(cfg: Config, worlds: seq<World>, steps: seq<Step>, step: Step, w: World)
    requires IsRun(cfg, worlds, steps) && Next(cfg, worlds[|steps|], step, w)
    ensures IsRun(cfg, worlds + [w], steps + [step])
  {
  }

  // ---- An undisturbed call is a run of one thread ----

  /** These steps, all of one thread but for the passing of time, lead from the first world to the last. */
  ghost predicate Leads(cfg: Config, worlds: seq<World>, steps: seq<Step>, thread: nat) {
    && |worlds| == |steps| + 1
    && (forall i :: 0 <= i < |steps| ==> Next(cfg, worlds[i], steps[i], worlds[i + 1]))
    && (forall i :: 0 <= i < |steps| ==> steps[i].Tick? || steps[i].thread == thread)
  }

  ghost predicate Misses(cfg: Config, c: Cache, kid: string, now: int) {
    !exists key :: Finds(cfg, c, kid, now, Some(key))
  }

  lemma MissedLookup(cfg: Config, c: Cache, kid: string, now: int)
    requires Misses(cfg, c, kid, now)
    ensures Finds(cfg, c, kid, now, None)
  {
    if c.keys != map[] {
      var some :| some in c.keys;
      assert c.keys[some] in c.keys.Values;
      assert !Finds(cfg, c, kid, now, Some(c.keys[some]));
    }
    if kid in c.keys {
      assert !Finds(cfg, c, kid, now, Some(c.keys[kid]));
    }
  }

  /** The step is a lookup of this kid, the first or the second of a call. */
  ghost predicate LooksUp(w: World, step: Step, kid: string) {
    (step.Look? && step.kid == kid) || (step.LookAgain? && PhaseOf(w, step.thread) == Refreshed(kid))
  }

  function FoundBy(step: Step): Option<PublicKey> {
    if step.Look? || step.LookAgain? then step.found else None
  }

  ghost predicate NothingFound(steps: seq<Step>) {
    forall i :: 0 <= i < |steps| ==> FoundBy(steps[i]) == None
  }

  /** A successful call ends with the lookup that finds its key, and nothing is found otherwise. */
  ghost predicate Returns(worlds: seq<World>, steps: seq<Step>, kid: string, found: Option<PublicKey>)
    requires |worlds| == |steps| + 1
  {
    if found.None? then NothingFound(steps)
    else
      && steps != [] && NothingFound(steps[..|steps| - 1])
      && LooksUp(worlds[|steps| - 1], steps[|steps| - 1], kid) && FoundBy(steps[|steps| - 1]) == found
  }

  /** From the missed lookup through the guard. */
  lemma MissAndGuard(cfg: Config, w: World, t: nat, kid: string, clock: Clock)
    returns (worlds: seq<World>, steps: seq<Step>)
    requires PhaseOf(w, t) == Idle && w.now <= clock.first <= clock.guard
    requires Misses(cfg, w.cache, kid, clock.first)
    ensures Leads(cfg, worlds, steps, t) && worlds[0] == w && NothingFound(steps)
    ensures var last := worlds[|steps|];
            && last.cache == w.cache && last.now == clock.guard
            && PhaseOf(last, t) == if RefreshAllowed(cfg, w.cache, clock.guard) then Requesting(Some(kid)) else Idle
  {
    MissedLookup(cfg, w.cache, kid, clock.first);
    hide Finds, RefreshAllowed;
    var w1 := w.(now := clock.first);
    var w2 := At(w1, t, Missed(kid));
    var w3 := w2.(now := clock.guard);
    var w4 := At(w3, t, if RefreshAllowed(cfg, w.cache, clock.guard) then Requesting(Some(kid)) else Idle);
    worlds := [w, w1, w2, w3, w4];
    steps := [Tick(clock.first), Look(t, kid, None), Tick(clock.guard), Guard(t)];
    assert Next(cfg, w2, steps[2], w3) && Next(cfg, w3, steps[3], w4);
  }

  /** From the reply of the endpoint to the second lookup. */
  lemma StoreAndLookAgain(cfg: Config, w: World, t: nat, kid: string, clock: Clock, entries: seq<Jwk>,
                          after: Cache, found: Option<PublicKey>)
    returns (worlds: seq<World>, steps: seq<Step>)
    requires PhaseOf(w, t) == Requesting(Some(kid))
    requires w.now <= clock.fetched <= clock.refreshed <= clock.second
    requires Stores(after, entries, clock.fetched, clock.refreshed) && Finds(cfg, after, kid, clock.second, found)
    ensures Leads(cfg, worlds, steps, t) && worlds[0] == w
    ensures PhaseOf(worlds[|steps|], t) == Idle && worlds[|steps|].cache == after
    ensures Returns(worlds, steps, kid, found)
  {
    hide Finds, HoldsLast;
    var reply := |w.served|;
    var w1 := At(w, t, Holding(Some(kid), reply)).(served := w.served + [Served(w.now, entries)]);
    var w2 := At(w1, t, Refreshed(kid)).(now := clock.refreshed, cache := after,
      commits := w.commits + [Commit(reply, clock.fetched, clock.refreshed)]);
    var w3 := w2.(now := clock.second);
    var w4 := At(w3, t, Idle);
    worlds := [w, w1, w2, w3, w4];
    steps := [Reply(t, KeySet(entries)), Store(t, after.keys, clock.fetched, clock.refreshed),
              Tick(clock.second), LookAgain(t, found)];
    assert Next(cfg, w, steps[0], w1) && Next(cfg, w1, steps[1], w2);
    assert Next(cfg, w2, steps[2], w3) && Next(cfg, w3, steps[3], w4);
  }

  lemma LeadsOn(cfg: Config, worlds: seq<World>, steps: seq<Step>, worlds': seq<World>, steps': seq<Step>, t: nat)
    requires Leads(cfg, worlds, steps, t) && Leads(cfg, worlds', steps', t) && worlds[|steps|] == worlds'[0]
    ensures Leads(cfg, worlds + worlds'[1..], steps + steps', t)
    ensures forall i :: 0 <= i <= |steps'| ==> (worlds + worlds'[1..])[|steps| + i] == worlds'[i]
    ensures (worlds + worlds'[1..])[0] == worlds[0]
  {
    hide Next;
  }

  lemma ReturnsOn(worlds: seq<World>, steps: seq<Step>, worlds': seq<World>, steps': seq<Step>,
                  kid: string, found: Option<PublicKey>)
    requires |worlds| == |steps| + 1 && |worlds'| == |steps'| + 1 && worlds[|steps|] == worlds'[0]
    requires NothingFound(steps) && Returns(worlds', steps', kid, found)
    ensures Returns(worlds + worlds'[1..], steps + steps', kid, found)
  {
    hide LooksUp, FoundBy;
    var all := steps + steps';
    assert forall i :: |steps| <= i < |all| ==> all[i] == steps'[i - |steps|];
    if found.Some? {
      assert all[..|all| - 1] == steps + steps'[..|steps'| - 1];
      assert (worlds + worlds'[1..])[|all| - 1] == worlds'[|steps'| - 1];
    }
  }

  /**
   Every call of the key source that nothing interferes with is a run of one thread, which
   ends idle with the cache that the call leaves and whose last lookup finds the key that
   the call returns.
   */
  lemma CallIsARun(cfg: Config, w: World, t: nat, kid: string, clock: Clock, response: Response,
                   after: Cache, r: Result<PublicKey, Error>)
    returns (worlds: seq<World>, steps: seq<Step>)
    requires PhaseOf(w, t) == Idle
    requires w.now <= clock.first <= clock.guard <= clock.fetched <= clock.refreshed <= clock.second
    requires Call(cfg, w.cache, kid, clock, response, after, r)
    ensures Leads(cfg, worlds, steps, t) && worlds[0] == w
    ensures PhaseOf(worlds[|steps|], t) == Idle && worlds[|steps|].cache == after
    ensures Returns(worlds, steps, kid, if r.Ok? then Some(r.value) else None)
  {
    hide Finds, HoldsLast, RefreshAllowed;
    if !Misses(cfg, w.cache, kid, clock.first) {
      var w1 := w.(now := clock.first);
      worlds, steps := [w, w1, At(w1, t, Idle)], [Tick(clock.first), Look(t, kid, Some(r.value))];
    } else {
      worlds, steps := MissAndGuard(cfg, w, t, kid, clock);
      if RefreshAllowed(cfg, w.cache, clock.guard) {
        var last := worlds[|steps|];
        var found := if r.Ok? then Some(r.value) else None;
        var worlds', steps';
        if response.KeySet? {
          worlds', steps' := StoreAndLookAgain(cfg, last, t, kid, clock, response.entries, after, found);
        } else {
          worlds', steps' := [last, At(last, t, Idle)], [Reply(t, response)];
        }
        LeadsOn(cfg, worlds, steps, worlds', steps', t);
        ReturnsOn(worlds, steps, worlds', steps', kid, found);
        worlds, steps := worlds + worlds'[1..], steps + steps';
      }
    }
  }

  // ---- What every interleaving keeps ----

  /** The cache is what the last commit stored, and commits happen in clock order. */
  ghost predicate Consistent(w: World) {
    && (if w.commits == [] then w.cache == EMPTY else
          var last := w.commits[|w.commits| - 1];
          && last.reply < |w.served|
          && Stores(w.cache, w.served[last.reply].entries, last.fetched, last.refreshed))
    && (forall i :: 0 <= i < |w.commits| ==>
          && w.commits[i].reply < |w.served| && w.served[w.commits[i].reply].at <= w.commits[i].fetched
          && w.commits[i].fetched <= w.commits[i].refreshed <= w.now)
    && (forall i, j :: 0 <= i < j < |w.commits| ==> w.commits[i].refreshed <= w.commits[j].refreshed)
    && (forall i :: 0 <= i < |w.served| ==> w.served[i].at <= w.now)
  }

  lemma StepKeepsConsistency(cfg: Config, w: World, step: Step, w': World)
    requires Consistent(w) && Next(cfg, w, step, w')
    ensures Consistent(w')
  {
    if step.Store? {
      StoreKeepsConsistency(cfg, w, step, w');
    } else if step.Reply? {
      ReplyKeepsConsistency(cfg, w, step, w');
    } else {
      hide Finds, HoldsLast, RefreshAllowed;
    }
  }

  lemma ReplyKeepsConsistency(cfg: Config, w: World, step: Step, w': World)
    requires Consistent(w) && Next(cfg, w, step, w') && step.Reply?
    ensures Consistent(w')
  {
    hide Finds, HoldsLast, RefreshAllowed;
    assert w.served <= w'.served && w'.commits == w.commits && w'.cache == w.cache && w'.now == w.now;
    assert forall i :: |w.served| <= i < |w'.served| ==> w'.served[i].at == w.now;
    hide Next, Stores;
  }

  lemma StoreKeepsConsistency(cfg: Config, w: World, step: Step, w': World)
    requires Consistent(w) && Next(cfg, w, step, w') && step.Store?
    ensures Consistent(w')
  {
    hide HoldsLast;
    assert w'.commits == w.commits + [Commit(PhaseOf(w, step.thread).reply, step.fetched, step.refreshed)];
  }

  lemma {:induction false} RunsAreConsistent(cfg: Config, worlds: seq<World>, steps: seq<Step>, i: nat)
    requires IsRun(cfg, worlds, steps) && i <= |steps|
    ensures Consistent(worlds[i])
  {
    if i > 0 {
      hide Next, Consistent;
      RunsAreConsistent(cfg, worlds, steps, i - 1);
      StepKeepsConsistency(cfg, worlds[i - 1], steps[i - 1], worlds[i]);
    }
  }

  /**
   The key belongs to the last supported signing entry with this kid in the last commit,
   which is no older than the cache may be.
   */
  ghost predicate IsCurrent(cfg: Config, w: World, kid: string, key: PublicKey) {
    && w.commits != []
    && var last := w.commits[|w.commits| - 1];
       && last.reply < |w.served|
       && w.now - last.fetched <= cfg.cacheTTL
       && w.served[last.reply].at <= last.fetched
       && exists i :: IsLast(w.served[last.reply].entries, kid, i)
                   && Some(key) == SigningKey(w.served[last.reply].entries[i])
  }

  /** The current keys are what a live cache holds. */
  lemma CurrentIsCached(cfg: Config, w: World, kid: string, key: PublicKey)
    requires Consistent(w)
    ensures IsCurrent(cfg, w, kid, key) <==>
            IsLive(cfg, w.cache, w.now) && kid in w.cache.keys && w.cache.keys[kid] == key
  {
    hide SigningKey;
    if IsCurrent(cfg, w, kid, key) {
      var entries := w.served[w.commits[|w.commits| - 1].reply].entries;
      var i :| IsLast(entries, kid, i) && Some(key) == SigningKey(entries[i]);
      HoldsLastIsExact(w.cache.keys, entries, kid, i);
    }
  }

  /** Without a kid any current key will do. */
  ghost predicate IsCurrentFor(cfg: Config, w: World, kid: string, key: PublicKey) {
    if kid == "" then exists k :: IsCurrent(cfg, w, k, key) else IsCurrent(cfg, w, kid, key)
  }

  lemma CurrentForIsCached(cfg: Config, w: World, kid: string, key: PublicKey)
    requires Consistent(w)
    ensures IsCurrentFor(cfg, w, kid, key) <==>
            && IsLive(cfg, w.cache, w.now)
            && if kid == "" then key in w.cache.keys.Values else kid in w.cache.keys && w.cache.keys[kid] == key
  {
    hide IsCurrent, Consistent, IsLive;
    CurrentIsCached(cfg, w, kid, key);
    if kid == "" {
      if k :| IsCurrent(cfg, w, k, key) {
        CurrentIsCached(cfg, w, k, key);
      }
      if key in w.cache.keys.Values {
        var k :| k in w.cache.keys && w.cache.keys[k] == key;
        CurrentIsCached(cfg, w, k, key);
      }
    }
  }

  /** What a lookup may find: a key that is current for its kid, and nothing only if there is none. */
  lemma FindsExactly(cfg: Config, w: World, kid: string, found: Option<PublicKey>)
    requires Consistent(w)
    ensures Finds(cfg, w.cache, kid, w.now, found) <==>
            if found.Some? then IsCurrentFor(cfg, w, kid, found.value) else forall key :: !IsCurrentFor(cfg, w, kid, key)
  {
    hide IsCurrentFor, Consistent, IsLive;
    var keys := w.cache.keys;
    if found.Some? {
      CurrentForIsCached(cfg, w, kid, found.value);
    } else if k :| k in keys && (kid == "" || k == kid) {
      CurrentForIsCached(cfg, w, kid, keys[k]);
      assert keys[k] in keys.Values;
    } else {
      forall key ensures !IsCurrentFor(cfg, w, kid, key) {
        CurrentForIsCached(cfg, w, kid, key);
      }
    }
    if found.None? && !IsLive(cfg, w.cache, w.now) {
      forall key ensures !IsCurrentFor(cfg, w, kid, key) {
        CurrentForIsCached(cfg, w, kid, key);
      }
    }
  }

  /** In every interleaving, a key that either lookup returns is current for the kid it was asked for. */
  lemma ReturnedKeysAreCurrent(cfg: Config, worlds: seq<World>, steps: seq<Step>, i: nat, kid: string, key: PublicKey)
    requires IsRun(cfg, worlds, steps) && i < |steps|
    requires LooksUp(worlds[i], steps[i], kid) && FoundBy(steps[i]) == Some(key)
    ensures IsCurrentFor(cfg, worlds[i], kid, key)
  {
    hide Finds, IsCurrent, Consistent;
    RunsAreConsistent(cfg, worlds, steps, i);
    assert Next(cfg, worlds[i], steps[i], worlds[i + 1]);
    FindsExactly(cfg, worlds[i], kid, Some(key));
  }

  /**
   After any run, the key that an undisturbed call returns is current, for the kid it was
   asked for, at the call's last lookup.
   */
  lemma CalledKeysAreCurrent(cfg: Config, worlds: seq<World>, steps: seq<Step>, t: nat, kid: string, clock: Clock,
                             response: Response, after: Cache, r: Result<PublicKey, Error>)
    returns (worlds': seq<World>, steps': seq<Step>)
    requires IsRun(cfg, worlds, steps) && PhaseOf(worlds[|steps|], t) == Idle
    requires worlds[|steps|].now <= clock.first <= clock.guard <= clock.fetched <= clock.refreshed <= clock.second
    requires Call(cfg, worlds[|steps|].cache, kid, clock, response, after, r) && r.Ok?
    ensures IsRun(cfg, worlds', steps') && |steps| < |steps'| && steps'[..|steps|] == steps
    ensures worlds'[|steps'|].cache == after && IsCurrentFor(cfg, worlds'[|steps'| - 1], kid, r.value)
  {
    hide Call, Next, IsCurrentFor, LooksUp;
    var callWorlds, callSteps := CallIsARun(cfg, worlds[|steps|], t, kid, clock, response, after, r);
    worlds', steps' := worlds + callWorlds[1..], steps + callSteps;
    forall i | 0 <= i < |steps'| ensures Next(cfg, worlds'[i], steps'[i], worlds'[i + 1]) {
      if i >= |steps| {
        assert worlds'[i] == callWorlds[i - |steps|] && worlds'[i + 1] == callWorlds[i + 1 - |steps|];
      }
    }
    assert worlds'[|steps'| - 1] == callWorlds[|callSteps| - 1];
    ReturnedKeysAreCurrent(cfg, worlds', steps', |steps'| - 1, kid, r.value);
  }

  /**
   Conversely, a lookup returns a key whenever there is one that is current for its kid:
   that very key, or, without a kid, some current key.
   */
  lemma CurrentKeysAreFound(cfg: Config, worlds: seq<World>, steps: seq<Step>, i: nat, kid: string, key: PublicKey)
    requires IsRun(cfg, worlds, steps) && i < |steps|
    requires LooksUp(worlds[i], steps[i], kid) && IsCurrentFor(cfg, worlds[i], kid, key)
    ensures FoundBy(steps[i]).Some? && (kid != "" ==> FoundBy(steps[i]).value == key)
  {
    hide Finds, IsCurrent, Consistent;
    RunsAreConsistent(cfg, worlds, steps, i);
    assert Next(cfg, worlds[i], steps[i], worlds[i + 1]);
    FindsExactly(cfg, worlds[i], kid, FoundBy(steps[i]));
    if kid != "" && FoundBy(steps[i]).Some? {
      CurrentIsCached(cfg, worlds[i], kid, key);
      CurrentIsCached(cfg, worlds[i], kid, FoundBy(steps[i]).value);
    }
  }

  /**
   The guard starts a request if and only if every commit so far is at least the minimum
   delay old: in any interleaving a started request keeps its distance to all earlier
   successful refreshes, and nothing else holds it back.
   */
  lemma GuardKeepsDistanceToCommits(cfg: Config, worlds: seq<World>, steps: seq<Step>, i: nat)
    requires IsRun(cfg, worlds, steps) && i < |steps| && steps[i].Guard?
    ensures PhaseOf(worlds[i + 1], steps[i].thread).Requesting? <==>
            forall c :: c in worlds[i].commits ==> worlds[i].now - c.refreshed >= cfg.minRefreshDelay
  {
    hide Finds, HoldsLast;
    var w := worlds[i];
    RunsAreConsistent(cfg, worlds, steps, i);
    assert Next(cfg, w, steps[i], worlds[i + 1]);
    if w.commits != [] {
      assert w.commits[|w.commits| - 1] in w.commits;
    }
  }
}
