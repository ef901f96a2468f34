/**
 The rate limiter's in-memory store and the decision it feeds, as objects over the
 sliding-window counters, and runs of requests over many keys.
 */
module RateLimit {
  import opened Wrappers
  import opened SlidingWindow

  class Bucket {
    var prev: nat
    var curr: nat
    var windowStart: int
    const window: int

    function State(): Counters
      reads this
    {
      Counters(prev, curr, windowStart, window)
    }

    constructor (windowStart: int, window: int)
      ensures State() == Fresh(windowStart, window) == Counters(0, 0, windowStart, window)
    {
      prev, curr := 0, 0;
      this.windowStart := windowStart;
      this.window := window;
    }

    method Inc(now: int) returns (count: int)
      modifies this
      ensures var elapsed := now - old(windowStart);
              if elapsed >= 2 * window then prev == 0 && curr == 1 && windowStart == now
              else if elapsed >= window then
                prev == old(curr) && curr == 1 && windowStart == old(windowStart) + window
              else prev == old(prev) && curr == old(curr) + 1 && windowStart == old(windowStart)
      ensures State() == Advance(old(State()), now)
      ensures CountIsDefined(old(State()), now) ==> count == CountAt(old(State()), now)
    {
      var elapsed := now - windowStart;
      if elapsed >= 2 * window {
        prev := 0;
        curr := 1;
        windowStart := now;
      } else if elapsed >= window {
        prev := curr;
        curr := 1;
        windowStart := windowStart + window;
      } else {
        curr := curr + 1;
      }
      if window == 0 {
        if elapsed > 0 {
          count := curr;  // the fraction is minus infinity and is clamped
        } else {
          count := *;  // the fraction is no number, and what it becomes as an integer depends on the platform
        }
        return;
      }
      var fraction := (window - elapsed) as real / window as real;
      if fraction < 0.0 {
        fraction := 0.0;
      }
      count := (prev as real * fraction).Floor + curr;
    }
  }

  class MemoryStore {
    var buckets: map<string, Bucket>

    /** Keys do not share buckets. */
    ghost predicate Valid()
      reads this, buckets.Values
    {
      forall j, k :: j in buckets && k in buckets && j != k ==> buckets[j] != buckets[k]
    }

    ghost function View(): map<string, Counters>
      reads this, buckets.Values
    {
      map k | k in buckets :: buckets[k].State()
    }

    constructor ()
      ensures Valid() && View() == map[]
    {
      buckets := map[];
    }

    /** The key's bucket, created with this window unless there already is one. */
    method BucketFor(key: string, window: int, created: int) returns (b: Bucket)
      requires Valid()
      modifies this
      ensures Valid() && fresh(buckets.Values - old(buckets.Values))
      ensures key in buckets && buckets[key] == b
      ensures View() == old(View())[key := Found(old(View()), key, window, created)]
      ensures b.State() == Found(old(View()), key, window, created)
    {
      if key in buckets {
        b := buckets[key];
      } else {
        b := new Bucket(created, window);
        buckets := buckets[key := b];
      }
    }

    /** The clock is read twice: when a missing bucket is created and when the request is counted. */
    method Inc(key: string, window: int, created: int, now: int) returns (count: int)
      requires Valid()
      modifies this, buckets.Values
      ensures Valid() && fresh(buckets.Values - old(buckets.Values))
      ensures View() == Apply(old(View()), Hit(key, window, created, now))
      ensures var found := Found(old(View()), key, window, created);
              CountIsDefined(found, now) ==> count == CountAt(found, now)
    {
      hide CountAt, Advance;
      var b := BucketFor(key, window, created);
      ghost var view := View();
      count := b.Inc(now);
      assert View() == view[key := Advance(view[key], now)];
    }

    method Reset(key: string)
      requires Valid()
      modifies this
      ensures Valid() && buckets.Values <= old(buckets.Values)
      ensures View() == Apply(old(View()), Cleared(key))
    {
      buckets := buckets - {key};
    }
  }

  class Limiter {
    const store: MemoryStore
    const limit: int
    const window: int

    constructor (store: MemoryStore, limit: int, window: int)
      ensures this.store == store && this.limit == limit && this.window == window
    {
      this.store, this.limit, this.window := store, limit, window;
    }

    /** Decides one request: the number the client is told remains, and whether it goes through. */
    method Handle(key: string, created: int, now: int) returns (admitted: bool, remaining: int)
      requires store.Valid()
      modifies store, store.buckets.Values
      ensures store.Valid() && fresh(store.buckets.Values - old(store.buckets.Values))
      ensures store.View() == Apply(old(store.View()), Hit(key, window, created, now))
      ensures remaining >= 0 && (remaining > 0 ==> admitted)
      ensures var found := Found(old(store.View()), key, window, created);
              CountIsDefined(found, now) ==>
                && (admitted <==> CountAt(found, now) <= limit)
                && remaining == if admitted then limit - CountAt(found, now) else 0
    {
      hide Advance, CountAt;
      var count := store.Inc(key, window, created, now);
      remaining := limit - count;
      if remaining < 0 {
        remaining := 0;
      }
      admitted := !(count > limit);
    }
  }

  // ---- Runs over many keys ----

  datatype Event =
    | Hit(key: string, window: int, created: int, now: int)
    | Cleared(key: string)

  function Found(view: map<string, Counters>, key: string, window: int, created: int): Counters {
    if key in view then view[key] else Fresh(created, window)
  }

  function Apply(view: map<string, Counters>, event: Event): map<string, Counters> {
    match event
    case Hit(key, window, created, now) => view[key := Advance(Found(view, key, window, created), now)]
    case Cleared(key) => view - {key}
  }

  predicate IsAdmitted(view: map<string, Counters>, limit: int, event: Event)
    requires event.Hit? && CountIsDefined(Found(view, event.key, event.window, event.created), event.now)
  {
    CountAt(Found(view, event.key, event.window, event.created), event.now) <= limit
  }

  function ViewAfter(events: seq<Event>): map<string, Counters> {
    if events == [] then map[] else Apply(ViewAfter(events[..|events| - 1]), events[|events| - 1])
  }

  ghost predicate PositiveWindows(events: seq<Event>) {
    forall i :: 0 <= i < |events| && events[i].Hit? ==> events[i].window > 0
  }

  lemma {:induction false} WindowsStayPositive(events: seq<Event>)
    requires PositiveWindows(events)
    ensures forall k :: k in ViewAfter(events) ==> ViewAfter(events)[k].window > 0
  {
    if events != [] {
      WindowsStayPositive(events[..|events| - 1]);
    }
  }

  /** The times of the requests for a key. */
  function HitTimes(events: seq<Event>, key: string): seq<int> {
    if events == [] then []
    else
      var before, last := HitTimes(events[..|events| - 1], key), events[|events| - 1];
      if last.Hit? && last.key == key then before + [last.now] else before
  }

  /** The times of the requests for a key that a limiter over the shared store let through. */
  ghost function Admissions(events: seq<Event>, key: string, limit: int): seq<int>
    requires PositiveWindows(events)
  {
    if events == [] then []
    else
      var before, last := events[..|events| - 1], events[|events| - 1];
      WindowsStayPositive(before);
      if last.Hit? && last.key == key && IsAdmitted(ViewAfter(before), limit, last)
      then Admissions(before, key, limit) + [last.now]
      else Admissions(before, key, limit)
  }

  /** The bucket that the first request for a key creates. */
  function Origin(events: seq<Event>, key: string): Counters
  {
    if events == [] then Fresh(0, 1)
    else if events[0].Hit? && events[0].key == key then Fresh(events[0].created, events[0].window)
    else Origin(events[1..], key)
  }

  lemma {:induction false} OriginIsFresh(events: seq<Event>, key: string)
    requires PositiveWindows(events)
    ensures Origin(events, key).window > 0
    ensures Origin(events, key) == Fresh(Origin(events, key).windowStart, Origin(events, key).window)
  {
    if events != [] {
      OriginIsFresh(events[1..], key);
    }
  }

  lemma {:induction false} OriginOfLonger(events: seq<Event>, last: Event, key: string)
    ensures HitTimes(events, key) != [] ==> Origin(events + [last], key) == Origin(events, key)
    ensures HitTimes(events, key) == [] && last.Hit? && last.key == key ==>
              Origin(events + [last], key) == Fresh(last.created, last.window)
  {
    if events != [] {
      FirstHit(events, key);
      assert (events + [last])[1..] == events[1..] + [last];
      OriginOfLonger(events[1..], last, key);
    }
  }

  lemma {:induction false} FirstHit(events: seq<Event>, key: string)
    requires events != []
    ensures HitTimes(events, key) == HitTimes(events[..1], key) + HitTimes(events[1..], key)
  {
    if |events| == 1 {
      assert events[..1] == events;
    } else {
      var before := events[..|events| - 1];
      assert before[..1] == events[..1] && before[1..] == events[1..][..|events| - 2];
      FirstHit(before, key);
    }
  }

  /** Whatever happens to other keys, a key that is never cleared runs as if it were alone. */
  lemma {:induction false} UnclearedKeysAreIsolated(events: seq<Event>, key: string, limit: int)
    requires PositiveWindows(events) && Cleared(key) !in events
    ensures Origin(events, key).window > 0
    ensures key in ViewAfter(events) <==> HitTimes(events, key) != []
    ensures key in ViewAfter(events) ==> ViewAfter(events)[key] == Run(Origin(events, key), HitTimes(events, key))
    ensures Admissions(events, key, limit) == AdmittedTimes(Origin(events, key), limit, HitTimes(events, key))
  {
    hide CountAt;
    if events != [] {
      var before, last := events[..|events| - 1], events[|events| - 1];
      assert events == before + [last];
      UnclearedKeysAreIsolated(before, key, limit);
      OriginOfLonger(before, last, key);
      OriginIsFresh(events, key);
      WindowsStayPositive(before);
      var times := HitTimes(events, key);
      if last.Hit? && last.key == key {
        assert times[..|times| - 1] == HitTimes(before, key);
      } else {
        assert last.key != key;
      }
    }
  }

  // ---- Clearing a key starts it afresh ----

  /** How many events there are up to the last clearing of the key. */
  function Cut(events: seq<Event>, key: string): (n: nat)
    ensures n <= |events|
  {
    if events == [] || events[|events| - 1] == Cleared(key) then |events|
    else Cut(events[..|events| - 1], key)
  }

  function SinceCleared(events: seq<Event>, key: string): seq<Event> {
    events[Cut(events, key)..]
  }

  function Clears(events: seq<Event>, key: string): nat {
    if events == [] then 0
    else Clears(events[..|events| - 1], key) + if events[|events| - 1] == Cleared(key) then 1 else 0
  }

  lemma {:induction false} CutIsTheLast(events: seq<Event>, key: string)
    ensures var n := Cut(events, key);
            && Cleared(key) !in events[n..]
            && (n > 0 ==> events[n - 1] == Cleared(key))
            && Clears(events, key) == Clears(events[..n], key)
  {
    if events != [] && events[|events| - 1] != Cleared(key) {
      var before, n := events[..|events| - 1], Cut(events, key);
      CutIsTheLast(before, key);
      assert before[..n] == events[..n] && events[n..] == before[n..] + [events[|before|]];
    } else {
      assert events[..|events|] == events;
    }
  }

  lemma SinceClearedOfLonger(before: seq<Event>, last: Event, key: string)
    requires last != Cleared(key) && PositiveWindows(before + [last])
    ensures PositiveWindows(before) && PositiveWindows(SinceCleared(before, key))
    ensures Cut(before + [last], key) == Cut(before, key)
    ensures SinceCleared(before + [last], key) == SinceCleared(before, key) + [last]
    ensures (before + [last])[..Cut(before, key)] == before[..Cut(before, key)]
  {
    assert (before + [last])[..|before|] == before;
    assert forall i :: 0 <= i < |before| ==> (before + [last])[i] == before[i];
  }

  ghost predicate AlikeAt(v: map<string, Counters>, u: map<string, Counters>, key: string) {
    (key in v <==> key in u) && (key in v ==> v[key] == u[key])
  }

  /** Whether the event is a request for the key that is let through, told as its time or nothing. */
  ghost function AdmittedNow(view: map<string, Counters>, key: string, limit: int, event: Event): seq<int>
    requires event.Hit? && event.key == key ==> CountIsDefined(Found(view, key, event.window, event.created), event.now)
  {
    if event.Hit? && event.key == key && IsAdmitted(view, limit, event) then [event.now] else []
  }

  lemma OneMore(events: seq<Event>, last: Event, key: string, limit: int)
    requires PositiveWindows(events + [last])
    ensures PositiveWindows(events) && ViewAfter(events + [last]) == Apply(ViewAfter(events), last)
    ensures last.Hit? && last.key == key ==>
              CountIsDefined(Found(ViewAfter(events), key, last.window, last.created), last.now)
    ensures Admissions(events + [last], key, limit)
            == Admissions(events, key, limit) + AdmittedNow(ViewAfter(events), key, limit, last)
  {
    hide CountAt, Advance;
    assert (events + [last])[|events|] == last && (events + [last])[..|events|] == events;
    WindowsStayPositive(events);
  }

  lemma ApplyIsAlike(v: map<string, Counters>, u: map<string, Counters>, event: Event, key: string)
    requires AlikeAt(v, u, key)
    ensures AlikeAt(Apply(v, event), Apply(u, event), key)
  {
    hide Advance;
  }

  /** One more event, told for two runs with the same counters for the key. */
  lemma NextIsAlike(events: seq<Event>, other: seq<Event>, last: Event, key: string, limit: int)
    returns (more: seq<int>)
    requires PositiveWindows(events + [last]) && PositiveWindows(other + [last])
    requires AlikeAt(ViewAfter(events), ViewAfter(other), key)
    ensures AlikeAt(ViewAfter(events + [last]), ViewAfter(other + [last]), key)
    ensures Admissions(events + [last], key, limit) == Admissions(events, key, limit) + more
    ensures Admissions(other + [last], key, limit) == Admissions(other, key, limit) + more
  {
    OneMore(events, last, key, limit);
    OneMore(other, last, key, limit);
    ApplyIsAlike(ViewAfter(events), ViewAfter(other), last, key);
    hide CountAt, Advance, Admissions, ViewAfter, CountIsDefined, Apply, PositiveWindows;
    more := AdmittedNow(ViewAfter(events), key, limit, last);
  }

  /** The store keeps nothing of a key from before it was last cleared. */
  lemma {:induction false} ClearingForgets(events: seq<Event>, key: string, limit: int)
    requires PositiveWindows(events)
    ensures AlikeAt(ViewAfter(events), ViewAfter(SinceCleared(events, key)), key)
    ensures Admissions(events, key, limit)
            == Admissions(events[..Cut(events, key)], key, limit) + Admissions(SinceCleared(events, key), key, limit)
  {
    hide Cut, ViewAfter, Admissions, AlikeAt, SinceCleared;
    if events == [] || events[|events| - 1] == Cleared(key) {
      JustCleared(events, key, limit);
    } else {
      var before, last := events[..|events| - 1], events[|events| - 1];
      assert events == before + [last];
      SinceClearedOfLonger(before, last, key);
      ClearingForgets(before, key, limit);
      var more := NextIsAlike(before, SinceCleared(before, key), last, key, limit);
      var first, second := Admissions(before[..Cut(before, key)], key, limit),
                           Admissions(SinceCleared(before, key), key, limit);
      assert (first + second) + more == first + (second + more);
    }
  }

  lemma JustCleared(events: seq<Event>, key: string, limit: int)
    requires PositiveWindows(events) && (events == [] || events[|events| - 1] == Cleared(key))
    ensures AlikeAt(ViewAfter(events), ViewAfter(SinceCleared(events, key)), key)
    ensures Admissions(events, key, limit)
            == Admissions(events[..Cut(events, key)], key, limit) + Admissions(SinceCleared(events, key), key, limit)
  {
    assert Cut(events, key) == |events| && events[..|events|] == events;
    hide Apply;
  }

  /**
   Whatever happens to other keys, a key's bucket runs on the requests since the key was
   last cleared as if they were alone, and so are they admitted.
   */
  lemma KeysAreIsolated(events: seq<Event>, key: string, limit: int)
    requires PositiveWindows(events)
    ensures var rest := SinceCleared(events, key);
            var origin, times := Origin(rest, key), HitTimes(rest, key);
            && origin.window > 0
            && (key in ViewAfter(events) <==> times != [])
            && (key in ViewAfter(events) ==> ViewAfter(events)[key] == Run(origin, times))
            && Admissions(events, key, limit)
               == Admissions(events[..Cut(events, key)], key, limit) + AdmittedTimes(origin, limit, times)
  {
    hide ViewAfter, Admissions, Cut, Run, AdmittedTimes, CountAt;
    CutIsTheLast(events, key);
    ClearingForgets(events, key, limit);
    UnclearedKeysAreIsolated(SinceCleared(events, key), key, limit);
  }

  /**
   Between any two clearings of the key its requests come in time order, and the first of
   them asks for at least this window.
   */
  ghost predicate InOrder(events: seq<Event>, key: string, window: int) {
    forall n :: 0 <= n <= |events| && (n < |events| ==> events[n] == Cleared(key)) ==>
      IsInOrder(SinceCleared(events[..n], key), key, window)
  }

  ghost predicate IsInOrder(rest: seq<Event>, key: string, window: int) {
    HitTimes(rest, key) != [] ==>
      && window <= Origin(rest, key).window
      && NonDecreasing(Origin(rest, key).windowStart, HitTimes(rest, key))
  }

  lemma InOrderBeforeClearing(events: seq<Event>, key: string, window: int, n: nat)
    requires InOrder(events, key, window) && n < |events| && events[n] == Cleared(key)
    ensures InOrder(events[..n], key, window)
  {
    hide IsInOrder, SinceCleared;
    forall m | 0 <= m <= n && (m < n ==> events[m] == Cleared(key))
      ensures IsInOrder(SinceCleared(events[..n][..m], key), key, window)
    {
      assert events[..n][..m] == events[..m];
    }
  }

  /** The admissions of a key that is not cleared. */
  lemma RestIsBounded(rest: seq<Event>, key: string, limit: nat, window: int, from: int)
    requires PositiveWindows(rest) && Origin(rest, key).window > 0 && IsInOrder(rest, key, window)
    ensures Tally(AdmittedTimes(Origin(rest, key), limit, HitTimes(rest, key)), from, from + window) <= 2 * limit
  {
    var origin, times := Origin(rest, key), HitTimes(rest, key);
    if times != [] {
      hide CountAt, Run, AdmittedTimes, Tally, HitTimes, Origin;
      OriginIsFresh(rest, key);
      IntervalBound(origin.windowStart, origin.window, limit, times, from);
      if window >= 0 {
        TallyNarrows(AdmittedTimes(origin, limit, times), from, from + window, from, from + origin.window);
      } else {
        TallyNone(AdmittedTimes(origin, limit, times), from, from + window);
      }
    }
  }

  /** Since the last clearing at most twice the limit is let through. */
  lemma LastPartIsBounded(events: seq<Event>, key: string, limit: nat, window: int, from: int)
    requires PositiveWindows(events) && InOrder(events, key, window)
    ensures Tally(Admissions(events, key, limit), from, from + window)
            <= Tally(Admissions(events[..Cut(events, key)], key, limit), from, from + window) + 2 * limit
  {
    hide InOrder, IsInOrder, Admissions, AdmittedTimes, ViewAfter, SinceCleared, Origin, HitTimes, Tally, Run, Cut;
    var rest := SinceCleared(events, key);
    KeysAreIsolated(events, key, limit);
    RestIsInOrder(events, key, window);
    RestIsBounded(rest, key, limit, window, from);
    TallyConcat(Admissions(events[..Cut(events, key)], key, limit),
                AdmittedTimes(Origin(rest, key), limit, HitTimes(rest, key)), from, from + window);
  }

  /**
   Over any run of the shared store, at most twice the limit is let through for a key in
   any interval no longer than its window, and as much again for each time it is cleared.
   */
  lemma {:induction false} AdmissionsAreBounded(events: seq<Event>, key: string, limit: nat, window: int, from: int)
    requires PositiveWindows(events) && InOrder(events, key, window)
    ensures Tally(Admissions(events, key, limit), from, from + window) <= 2 * limit * (1 + Clears(events, key))
  {
    hide InOrder, Admissions, Tally, Cut, Clears;
    var n := Cut(events, key);
    LastPartIsBounded(events, key, limit, window, from);
    CutIsTheLast(events, key);
    if n > 0 {
      InOrderBeforeClearing(events, key, window, n - 1);
      AdmissionsAreBounded(events[..n - 1], key, limit, window, from);
      ClearingAdmitsNothing(events[..n], key, limit);
      assert events[..n][..n - 1] == events[..n - 1];
    } else {
      ClearingAdmitsNothing([], key, limit);
      TallyNone([], from, from + window);
    }
  }

  lemma RestIsInOrder(events: seq<Event>, key: string, window: int)
    requires PositiveWindows(events) && InOrder(events, key, window)
    ensures PositiveWindows(SinceCleared(events, key)) && IsInOrder(SinceCleared(events, key), key, window)
  {
    assert events[..|events|] == events;
  }

  lemma ClearingAdmitsNothing(events: seq<Event>, key: string, limit: int)
    requires PositiveWindows(events) && (events != [] ==> events[|events| - 1] == Cleared(key))
    ensures events == [] ==> Admissions(events, key, limit) == [] && Clears(events, key) == 0
    ensures events != [] ==>
              && Admissions(events, key, limit) == Admissions(events[..|events| - 1], key, limit)
              && Clears(events, key) == Clears(events[..|events| - 1], key) + 1
  {
  }
}
