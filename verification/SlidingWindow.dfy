/**
 The two-counter sliding window of the rate limiter as a state machine over request
 times, and what its counts and admissions amount to over whole runs. Time is counted in
 nanoseconds.
 */
module SlidingWindow {
  import opened Arithmetic

  datatype Counters = Counters(prev: nat, curr: nat, windowStart: int, window: int)

  function Fresh(created: int, window: int): Counters {
    Counters(0, 0, created, window)
  }

  datatype Rollover = Kept | Shifted | Restarted

  function RolloverAt(c: Counters, now: int): Rollover {
    var elapsed := now - c.windowStart;
    if elapsed >= 2 * c.window then Restarted
    else if elapsed >= c.window then Shifted
    else Kept
  }

  function Advance(c: Counters, now: int): Counters {
    match RolloverAt(c, now)
    case Restarted => Counters(0, 1, now, c.window)
    case Shifted => Counters(c.curr, 1, c.windowStart + c.window, c.window)
    case Kept => c.(curr := c.curr + 1)
  }

  /** The weight of the previous window, from the time elapsed before any rollover. */
  function Fraction(window: int, elapsed: int): real
    requires window != 0
  {
    var fraction := (window - elapsed) as real / window as real;
    if fraction < 0.0 then 0.0 else fraction
  }

  /** A window of zero makes the quotient a NaN, unless time has passed and it is minus infinity. */
  predicate CountIsDefined(found: Counters, now: int) {
    found.window != 0 || now > found.windowStart
  }

  /** What a request at time now is told, given the counters it found. */
  function CountAt(found: Counters, now: int): int
    requires CountIsDefined(found, now)
  {
    var c := Advance(found, now);
    if c.window == 0 then c.curr
    else (c.prev as real * Fraction(c.window, now - found.windowStart)).Floor + c.curr
  }

  // ---- The arithmetic of one count ----

  lemma FloorOfQuotient(n: int, w: int, quotient: real)
    requires w > 0 && quotient * w as real == n as real
    ensures quotient.Floor == n / w
  {
    var q, r := n / w, n % w;
    assert n == q * w + r;
    var rest := quotient - q as real;
    assert rest * w as real == quotient * w as real - q as real * w as real;
    assert q as real * w as real == (q * w) as real;
    assert rest * w as real == r as real;
    assert rest >= 0.0;
    assert rest < 1.0;
  }

  lemma ScaledFloor(p: nat, x: int, w: int)
    requires w > 0
    ensures (p as real * (x as real / w as real)).Floor == p * x / w
  {
    var ratio := x as real / w as real;
    assert ratio * w as real == x as real;
    assert (p as real * ratio) * w as real == p as real * (ratio * w as real);
    assert p as real * x as real == (p * x) as real;
    FloorOfQuotient(p * x, w, p as real * ratio);
  }

  lemma DivisionBounds(p: nat, x: nat, w: int)
    requires w > 0
    ensures 0 <= p * x / w
    ensures x <= w ==> p * x / w <= p
    ensures p * x / w == 0 <==> p * x < w
  {
    MulMonotone(0, p, x);
    QuotientBounds(p * x, w);
    MulMonotone(x, w, p);
    MulMonotone(p, p * x / w, w);
  }

  /**
   What a request is told. Within the window it is the documented estimate; from the end of
   the window on it is always 1; it lies between the new count and what both windows hold.
   */
  lemma CountOfRequest(found: Counters, now: int)
    requires found.window > 0
    ensures var elapsed := now - found.windowStart;
            CountAt(found, now) ==
            if elapsed < found.window then found.prev * (found.window - elapsed) / found.window + found.curr + 1 else 1
    ensures CountAt(found, now) >= Advance(found, now).curr
    ensures now >= found.windowStart ==> CountAt(found, now) <= Advance(found, now).curr + Advance(found, now).prev
  {
    var elapsed, w := now - found.windowStart, found.window;
    var fraction := (w - elapsed) as real / w as real;
    if RolloverAt(found, now).Kept? {
      assert fraction >= 0.0;
      ScaledFloor(found.prev, w - elapsed, w);
      DivisionBounds(found.prev, w - elapsed, w);
    } else {
      assert fraction <= 0.0;
      assert Fraction(w, elapsed) == 0.0;
    }
  }

  /** With a window of zero or less nothing is weighted: 1 after a restart, otherwise one more than before. */
  lemma CountWithoutWindow(found: Counters, now: int)
    requires found.window <= 0 && CountIsDefined(found, now)
    ensures CountAt(found, now) == if now - found.windowStart >= 2 * found.window then 1 else found.curr + 1
  {
    var elapsed, w := now - found.windowStart, found.window;
    if w < 0 && elapsed < 2 * w {
      var quotient := (w - elapsed) as real / w as real;
      assert quotient * w as real == (w - elapsed) as real;
      assert quotient <= 0.0;
      assert Fraction(w, elapsed) == 0.0;
    }
  }

  /** The estimate the documentation gives: prev * (1 - elapsed / window) + curr, in the window the request fell in. */
  function DocumentedEstimate(found: Counters, now: int): int
    requires found.window > 0
  {
    var c := Advance(found, now);
    c.prev * (c.window - (now - c.windowStart)) / c.window + c.curr
  }

  /**
   The count is the documented estimate unless the request shifts the windows and the
   weighted previous count comes to at least one.
   */
  lemma CountIsDocumentedEstimate(found: Counters, now: int)
    requires found.window > 0
    ensures CountAt(found, now) == DocumentedEstimate(found, now)
            <==> !(RolloverAt(found, now).Shifted?
                   && found.curr * (2 * found.window - (now - found.windowStart)) >= found.window)
  {
    CountOfRequest(found, now);
    var c := Advance(found, now);
    match RolloverAt(found, now)
    case Kept =>
    case Restarted =>
      DivisionBounds(0, c.window, c.window);
    case Shifted =>
      DivisionBounds(c.prev, c.window - (now - c.windowStart), c.window);
  }

  // ---- Runs ----

  function Run(origin: Counters, times: seq<int>): Counters {
    if times == [] then origin
    else Advance(Run(origin, times[..|times| - 1]), times[|times| - 1])
  }

  lemma {:induction false} RunKeepsWindow(origin: Counters, times: seq<int>)
    ensures Run(origin, times).window == origin.window
  {
    if times != [] {
      RunKeepsWindow(origin, times[..|times| - 1]);
    }
  }

  function LastCount(origin: Counters, times: seq<int>): int
    requires origin.window > 0 && times != []
  {
    var before := times[..|times| - 1];
    RunKeepsWindow(origin, before);
    CountAt(Run(origin, before), times[|times| - 1])
  }

  /** The times of the requests whose count did not exceed the limit. */
  function AdmittedTimes(origin: Counters, limit: int, times: seq<int>): seq<int>
    requires origin.window > 0
  {
    if times == [] then []
    else
      var before := AdmittedTimes(origin, limit, times[..|times| - 1]);
      if LastCount(origin, times) <= limit then before + [times[|times| - 1]] else before
  }

  /** How many of the times lie in the half-open interval from lo to hi. */
  function Tally(times: seq<int>, lo: int, hi: int): nat {
    if times == [] then 0
    else Tally(times[..|times| - 1], lo, hi) + if lo <= times[|times| - 1] < hi then 1 else 0
  }

  lemma {:induction false} TallyAdds(times: seq<int>, lo: int, mid: int, hi: int)
    requires lo <= mid <= hi
    ensures Tally(times, lo, hi) == Tally(times, lo, mid) + Tally(times, mid, hi)
  {
    if times != [] {
      TallyAdds(times[..|times| - 1], lo, mid, hi);
    }
  }

  lemma {:induction false} TallyNone(times: seq<int>, lo: int, hi: int)
    requires forall i :: 0 <= i < |times| ==> !(lo <= times[i] < hi)
    ensures Tally(times, lo, hi) == 0
  {
    if times != [] {
      TallyNone(times[..|times| - 1], lo, hi);
    }
  }

  lemma TallyNarrows(times: seq<int>, lo: int, hi: int, from: int, to: int)
    requires from <= lo <= hi <= to
    ensures Tally(times, lo, hi) <= Tally(times, from, to)
  {
    TallyAdds(times, from, lo, to);
    TallyAdds(times, lo, hi, to);
  }

  ghost predicate NonDecreasing(created: int, times: seq<int>) {
    && (forall i :: 0 <= i < |times| ==> created <= times[i])
    && (forall i, j :: 0 <= i < j < |times| ==> times[i] <= times[j])
  }

  ghost predicate AllBelow(times: seq<int>, bound: int) {
    forall i :: 0 <= i < |times| ==> times[i] < bound
  }

  lemma {:induction false} AdmittedAreRequests(origin: Counters, limit: int, times: seq<int>, lo: int, hi: int)
    requires origin.window > 0
    ensures Tally(AdmittedTimes(origin, limit, times), lo, hi) <= Tally(times, lo, hi)
  {
    hide LastCount;
    if times != [] {
      AdmittedAreRequests(origin, limit, times[..|times| - 1], lo, hi);
    }
  }

  lemma {:induction false} AdmittedAreBelow(origin: Counters, limit: int, times: seq<int>, bound: int)
    requires origin.window > 0 && AllBelow(times, bound)
    ensures AllBelow(AdmittedTimes(origin, limit, times), bound)
  {
    hide LastCount;
    if times != [] {
      AdmittedAreBelow(origin, limit, times[..|times| - 1], bound);
    }
  }

  /** The counters are the exact numbers of requests in the current and the previous window. */
  ghost predicate Exact(c: Counters, times: seq<int>) {
    && c.curr == Tally(times, c.windowStart, c.windowStart + c.window)
    && c.prev == Tally(times, c.windowStart - c.window, c.windowStart)
    && AllBelow(times, c.windowStart + c.window)
  }

  lemma {:induction false} CountersAreExact(created: int, window: int, times: seq<int>)
    requires window > 0 && NonDecreasing(created, times)
    ensures var c := Run(Fresh(created, window), times);
            && c.window == window
            && Exact(c, times)
            && c.windowStart <= if times == [] then created else times[|times| - 1]
  {
    if times != [] {
      var before, now := times[..|times| - 1], times[|times| - 1];
      CountersAreExact(created, window, before);
      var c := Run(Fresh(created, window), before);
      var next := Advance(c, now);
      assert AllBelow(before, now + 1);
      match RolloverAt(c, now)
      case Kept =>
      case Shifted =>
        TallyNone(before, next.windowStart, next.windowStart + window);
      case Restarted =>
        TallyNone(before, next.windowStart, next.windowStart + window);
        TallyNone(before, next.windowStart - window, next.windowStart);
    }
  }

  // ---- Where windows begin ----

  /**
   A window begins with the bucket, and until its end each request is told how many there
   have been, so that just the first ones up to the limit are let through.
   */
  lemma {:induction false} FirstWindow(created: int, window: int, limit: nat, times: seq<int>)
    requires window > 0 && forall i :: 0 <= i < |times| ==> times[i] < created + window
    ensures Run(Fresh(created, window), times) == Counters(0, |times|, created, window)
    ensures times != [] ==> LastCount(Fresh(created, window), times) == |times|
    ensures AdmittedTimes(Fresh(created, window), limit, times) == times[..if |times| < limit then |times| else limit]
  {
    if times != [] {
      var before, now := times[..|times| - 1], times[|times| - 1];
      FirstWindow(created, window, limit, before);
      var c := Counters(0, |before|, created, window);
      CountOfRequest(c, now);
      NothingWeighted(window - (now - created), window);
      hide CountAt;
      assert times == before + [now];
    }
  }

  lemma NothingWeighted(x: int, w: int)
    requires w > 0
    ensures 0 * x / w == 0
  {
  }

  lemma Idle(c: Counters, now: int)
    requires now >= c.windowStart + 2 * c.window
    ensures Advance(c, now) == Counters(0, 1, now, c.window) == Advance(Fresh(now, c.window), now)
    ensures c.window > 0 ==> CountAt(c, now) == 1 == CountAt(Fresh(now, c.window), now)
  {
    if c.window > 0 {
      CountOfRequest(c, now);
      CountOfRequest(Fresh(now, c.window), now);
      NothingWeighted(c.window, c.window);
    }
  }

  lemma OneMore(origin: Counters, limit: int, times: seq<int>, now: int)
    requires origin.window > 0
    ensures var c := Run(origin, times);
            && c.window == origin.window
            && Run(origin, times + [now]) == Advance(c, now)
            && AdmittedTimes(origin, limit, times + [now])
               == AdmittedTimes(origin, limit, times) + if CountAt(c, now) <= limit then [now] else []
  {
    hide CountAt, Advance;
    RunKeepsWindow(origin, times);
    assert (times + [now])[..|times|] == times;
  }

  /**
   The first request after two idle windows begins a new window at its own time: from then
   on the counters and the admissions are those of a bucket created at that instant.
   */
  lemma {:induction false} RestartIsFresh(origin: Counters, limit: int, times: seq<int>, now: int, later: seq<int>)
    requires origin.window > 0
    requires now >= Run(origin, times).windowStart + 2 * origin.window
    ensures Run(origin, times + [now]) == Counters(0, 1, now, origin.window)
    ensures Run(origin, times + [now] + later) == Run(Fresh(now, origin.window), [now] + later)
    ensures AdmittedTimes(origin, limit, times + [now] + later)
            == AdmittedTimes(origin, limit, times) + AdmittedTimes(Fresh(now, origin.window), limit, [now] + later)
  {
    hide CountAt, Advance, Run, AdmittedTimes;
    var renewed := Fresh(now, origin.window);
    if later == [] {
      assert times + [now] + later == times + [now] && [now] + later == [] + [now];
      assert Run(renewed, []) == renewed && AdmittedTimes(renewed, limit, []) == [] by { NoRequests(renewed, limit); }
      OneMore(origin, limit, times, now);
      OneMore(renewed, limit, [], now);
      Idle(Run(origin, times), now);
    } else {
      var before, last := later[..|later| - 1], later[|later| - 1];
      RestartIsFresh(origin, limit, times, now, before);
      assert times + [now] + later == (times + [now] + before) + [last] && [now] + later == ([now] + before) + [last];
      OneMore(origin, limit, times + [now] + before, last);
      OneMore(renewed, limit, [now] + before, last);
    }
  }

  lemma NoRequests(origin: Counters, limit: int)
    requires origin.window > 0
    ensures Run(origin, []) == origin && AdmittedTimes(origin, limit, []) == []
  {
  }

  /** The sliding count lies between the current counter and the sum of both counters. */
  lemma SlidingCount(c: Counters, times: seq<int>, now: int)
    requires c.window > 0 && Exact(c, times) && AllBelow(times, now + 1)
    requires c.windowStart <= now < c.windowStart + c.window
    ensures c.curr <= Tally(times, now - c.window + 1, now + 1) <= c.curr + c.prev
  {
    var from := now - c.window + 1;
    TallyAdds(times, from, c.windowStart, now + 1);
    TallyAdds(times, c.windowStart, now + 1, c.windowStart + c.window);
    TallyNone(times, now + 1, c.windowStart + c.window);
    TallyNarrows(times, from, c.windowStart, c.windowStart - c.window, c.windowStart);
  }

  lemma LastOfPrefix(created: int, times: seq<int>)
    requires times != [] && NonDecreasing(created, times)
    ensures var before := times[..|times| - 1];
            && NonDecreasing(created, before)
            && (if before == [] then created else before[|before| - 1]) <= times[|times| - 1]
            && AllBelow(times, times[|times| - 1] + 1)
  {
  }

  /**
   Each count is off by at most the previous window's counter from the number of requests
   in the sliding window that ends with the request itself.
   */
  lemma CountIsNearlyExact(created: int, window: int, times: seq<int>)
    requires window > 0 && times != [] && NonDecreasing(created, times)
    ensures var now, c := times[|times| - 1], Run(Fresh(created, window), times);
            var exact := Tally(times, now - window + 1, now + 1);
            && c.curr <= exact <= c.curr + c.prev
            && c.curr <= LastCount(Fresh(created, window), times) <= c.curr + c.prev
  {
    hide CountAt, Tally;
    var before, now := times[..|times| - 1], times[|times| - 1];
    LastOfPrefix(created, times);
    CountersAreExact(created, window, before);
    CountersAreExact(created, window, times);
    CountOfRequest(Run(Fresh(created, window), before), now);
    SlidingCount(Run(Fresh(created, window), times), times, now);
  }

  // ---- How many requests are admitted ----

  /** Admissions since the last rollover, whatever the order of the times. */
  function AdmittedInEpoch(origin: Counters, limit: int, times: seq<int>): nat
    requires origin.window > 0
  {
    if times == [] then 0
    else
      var before, now := times[..|times| - 1], times[|times| - 1];
      (if RolloverAt(Run(origin, before), now).Kept? then AdmittedInEpoch(origin, limit, before) else 0)
      + (if LastCount(origin, times) <= limit then 1 else 0)
  }

  lemma {:induction false} EpochBound(origin: Counters, limit: nat, times: seq<int>)
    requires origin.window > 0
    ensures AdmittedInEpoch(origin, limit, times) <= Run(origin, times).curr
    ensures AdmittedInEpoch(origin, limit, times) <= limit
  {
    if times != [] {
      var before := times[..|times| - 1];
      EpochBound(origin, limit, before);
      RunKeepsWindow(origin, before);
      CountOfRequest(Run(origin, before), times[|times| - 1]);
    }
  }

  /** Neither the current nor the previous window ever holds more than limit admissions. */
  ghost predicate WithinLimit(c: Counters, limit: nat, admitted: seq<int>) {
    && Tally(admitted, c.windowStart, c.windowStart + c.window) <= limit
    && Tally(admitted, c.windowStart - c.window, c.windowStart) <= limit
    && AllBelow(admitted, c.windowStart + c.window)
  }

  lemma WithinLimitAfterRollover(found: Counters, limit: nat, admitted: seq<int>, now: int)
    requires found.window > 0 && found.windowStart <= now
    requires WithinLimit(found, limit, admitted)
    requires Tally(admitted, found.windowStart, found.windowStart + found.window) <= found.curr
    ensures WithinLimit(Advance(found, now), limit, admitted)
    ensures var next := Advance(found, now);
            Tally(admitted, next.windowStart, next.windowStart + next.window) < next.curr
  {
    var next := Advance(found, now);
    match RolloverAt(found, now)
    case Kept =>
    case Shifted =>
      TallyNone(admitted, next.windowStart, next.windowStart + next.window);
    case Restarted =>
      TallyNone(admitted, next.windowStart, next.windowStart + next.window);
      TallyNone(admitted, next.windowStart - next.window, next.windowStart);
  }

  lemma WithinLimitAfterRequest(found: Counters, limit: nat, admitted: seq<int>, now: int)
    requires found.window > 0 && found.windowStart <= now
    requires WithinLimit(found, limit, admitted)
    requires Tally(admitted, found.windowStart, found.windowStart + found.window) <= found.curr
    ensures WithinLimit(Advance(found, now), limit,
                        if CountAt(found, now) <= limit then admitted + [now] else admitted)
  {
    hide CountAt;
    WithinLimitAfterRollover(found, limit, admitted, now);
    CountOfRequest(found, now);
    assert (admitted + [now])[..|admitted|] == admitted;
  }

  lemma {:induction false} RunsStayWithinLimit(created: int, window: int, limit: nat, times: seq<int>)
    requires window > 0 && NonDecreasing(created, times)
    ensures var origin := Fresh(created, window);
            WithinLimit(Run(origin, times), limit, AdmittedTimes(origin, limit, times))
  {
    hide CountAt, Tally;
    if times != [] {
      var before, now := times[..|times| - 1], times[|times| - 1];
      var origin := Fresh(created, window);
      var found := Run(origin, before);
      LastOfPrefix(created, times);
      RunsStayWithinLimit(created, window, limit, before);
      CountersAreExact(created, window, before);
      AdmittedAreRequests(origin, limit, before, found.windowStart, found.windowStart + window);
      WithinLimitAfterRequest(found, limit, AdmittedTimes(origin, limit, before), now);
    } else {
      TallyNone([], created, created + window);
      TallyNone([], created - window, created);
    }
  }

  lemma IntervalBoundNow(c: Counters, limit: nat, admitted: seq<int>, now: int, from: int)
    requires c.window > 0 && WithinLimit(c, limit, admitted)
    requires c.windowStart <= now < from + c.window
    ensures Tally(admitted, from, from + c.window) <= 2 * limit
  {
    var start, end := c.windowStart, c.windowStart + c.window;
    if from + c.window > end {
      TallyNone(admitted, end, from + c.window);
      TallyNarrows(admitted, from, from + c.window, start - c.window, from + c.window);
      TallyAdds(admitted, start - c.window, end, from + c.window);
    } else {
      TallyNarrows(admitted, from, from + c.window, start - c.window, end);
    }
    TallyAdds(admitted, start - c.window, start, end);
  }

  lemma RequestOutside(origin: Counters, limit: int, times: seq<int>, lo: int, hi: int)
    requires origin.window > 0 && times != [] && !(lo <= times[|times| - 1] < hi)
    ensures Tally(AdmittedTimes(origin, limit, times), lo, hi)
            == Tally(AdmittedTimes(origin, limit, times[..|times| - 1]), lo, hi)
  {
    hide LastCount;
    var before := AdmittedTimes(origin, limit, times[..|times| - 1]);
    assert (before + [times[|times| - 1]])[..|before|] == before;
  }

  /** The admissions of a run in the interval from the given time that is as long as the window. */
  function AdmittedIn(created: int, window: int, limit: int, times: seq<int>, from: int): nat
    requires window > 0
  {
    Tally(AdmittedTimes(Fresh(created, window), limit, times), from, from + window)
  }

  /** Any interval as long as the window sees at most twice the limit admitted. */
  lemma {:induction false} IntervalBound(created: int, window: int, limit: nat, times: seq<int>, from: int)
    requires window > 0 && NonDecreasing(created, times)
    ensures AdmittedIn(created, window, limit, times, from) <= 2 * limit
  {
    hide LastCount, WithinLimit, Exact, Run, AllBelow;
    var origin := Fresh(created, window);
    if times != [] {
      var now := times[|times| - 1];
      LastOfPrefix(created, times);
      if from <= now < from + window {
        CountersAreExact(created, window, times);
        RunsStayWithinLimit(created, window, limit, times);
        IntervalBoundNow(Run(origin, times), limit, AdmittedTimes(origin, limit, times), now, from);
      } else {
        IntervalBound(created, window, limit, times[..|times| - 1], from);
        RequestOutside(origin, limit, times, from, from + window);
      }
    }
  }

  // ---- How tight the bound is ----

  function Repeat(time: int, n: nat): seq<int> {
    seq(n, _ => time)
  }

  lemma {:induction false} TallyConcat(first: seq<int>, second: seq<int>, lo: int, hi: int)
    ensures Tally(first + second, lo, hi) == Tally(first, lo, hi) + Tally(second, lo, hi)
  {
    if second == [] {
      assert first + second == first;
    } else {
      assert (first + second)[..|first + second| - 1] == first + second[..|second| - 1];
      TallyConcat(first, second[..|second| - 1], lo, hi);
    }
  }

  lemma {:induction false} TallyRepeat(time: int, n: nat, lo: int, hi: int)
    requires lo <= time < hi
    ensures Tally(Repeat(time, n), lo, hi) == n
  {
    if n > 0 {
      assert Repeat(time, n)[..n - 1] == Repeat(time, n - 1);
      TallyRepeat(time, n - 1, lo, hi);
    }
  }

  /** A request is admitted while the weighted previous count leaves room for it. */
  lemma RequestIsAdmitted(origin: Counters, limit: int, times: seq<int>, time: int)
    requires origin.window > 0
    requires RolloverAt(Run(origin, times), time).Kept?
    requires var c := Run(origin, times);
             c.prev * (origin.window - (time - c.windowStart)) / origin.window + c.curr + 1 <= limit
    ensures Run(origin, times + [time]) == Run(origin, times).(curr := Run(origin, times).curr + 1)
    ensures AdmittedTimes(origin, limit, times + [time]) == AdmittedTimes(origin, limit, times) + [time]
  {
    hide CountAt;
    assert (times + [time])[..|times|] == times;
    RunKeepsWindow(origin, times);
    CountOfRequest(Run(origin, times), time);
  }

  lemma {:induction false} BurstIsAdmitted(origin: Counters, limit: int, times: seq<int>, time: int, n: nat)
    requires origin.window > 0
    requires RolloverAt(Run(origin, times), time).Kept?
    requires var c := Run(origin, times);
             c.prev * (origin.window - (time - c.windowStart)) / origin.window + c.curr + n <= limit
    ensures Run(origin, times + Repeat(time, n)) == Run(origin, times).(curr := Run(origin, times).curr + n)
    ensures AdmittedTimes(origin, limit, times + Repeat(time, n))
            == AdmittedTimes(origin, limit, times) + Repeat(time, n)
  {
    hide CountAt, LastCount, AdmittedTimes, Run;
    if n == 0 {
      assert times + Repeat(time, 0) == times;
      assert AdmittedTimes(origin, limit, times) + Repeat(time, 0) == AdmittedTimes(origin, limit, times);
    } else {
      BurstIsAdmitted(origin, limit, times, time, n - 1);
      RequestIsAdmitted(origin, limit, times + Repeat(time, n - 1), time);
      assert Repeat(time, n) == Repeat(time, n - 1) + [time];
      assert times + Repeat(time, n) == times + Repeat(time, n - 1) + [time];
      assert AdmittedTimes(origin, limit, times) + Repeat(time, n)
          == AdmittedTimes(origin, limit, times) + Repeat(time, n - 1) + [time];
    }
  }

  /** A request that shifts the windows is admitted under every positive limit. */
  lemma ShiftIsAdmitted(origin: Counters, limit: nat, times: seq<int>, time: int)
    requires origin.window > 0 && limit >= 1
    requires RolloverAt(Run(origin, times), time).Shifted?
    ensures Run(origin, times + [time]) == Advance(Run(origin, times), time)
    ensures AdmittedTimes(origin, limit, times + [time]) == AdmittedTimes(origin, limit, times) + [time]
  {
    hide CountAt;
    assert (times + [time])[..|times|] == times;
    RunKeepsWindow(origin, times);
    CountOfRequest(Run(origin, times), time);
  }

  lemma EarlyBurst(window: int, limit: nat)
    requires window >= 2
    ensures Run(Fresh(0, window), Repeat(window - 1, limit)) == Counters(0, limit, 0, window)
    ensures AdmittedTimes(Fresh(0, window), limit, Repeat(window - 1, limit)) == Repeat(window - 1, limit)
  {
    hide CountAt, Repeat;
    var burst := Repeat(window - 1, limit);
    assert [] + burst == burst;
    BurstIsAdmitted(Fresh(0, window), limit, [], window - 1, limit);
  }

  /** A full window's worth of requests just before the window ends, and one just after. */
  lemma LateBurst(window: int, limit: nat)
    requires window >= 2 && limit >= 1
    ensures var origin, times := Fresh(0, window), Repeat(window - 1, limit) + [window];
            && NonDecreasing(0, times)
            && Run(origin, times) == Counters(limit, 1, window, window)
            && AdmittedTimes(origin, limit, times) == times
  {
    hide CountAt, Run, AdmittedTimes;
    EarlyBurst(window, limit);
    ShiftIsAdmitted(Fresh(0, window), limit, Repeat(window - 1, limit), window);
  }

  lemma LateBurstTally(window: int, limit: nat, n: nat)
    requires window >= 2
    ensures Tally(Repeat(window - 1, limit) + [window] + Repeat(2 * window - 2, n), window - 1, 2 * window - 1)
            == limit + 1 + n
  {
    hide Tally;
    assert [window] == Repeat(window, 1);
    TallyConcat(Repeat(window - 1, limit) + [window], Repeat(2 * window - 2, n), window - 1, 2 * window - 1);
    TallyConcat(Repeat(window - 1, limit), [window], window - 1, 2 * window - 1);
    TallyRepeat(window - 1, limit, window - 1, 2 * window - 1);
    TallyRepeat(window, 1, window - 1, 2 * window - 1);
    TallyRepeat(2 * window - 2, n, window - 1, 2 * window - 1);
  }

  /** The bound of twice the limit is reached, for every positive limit, once the window is long enough. */
  lemma IntervalBoundIsReached(window: int, limit: nat)
    requires limit >= 1 && window > 2 * limit
    ensures exists times :: NonDecreasing(0, times) && AdmittedIn(0, window, limit, times, window - 1) == 2 * limit
  {
    hide CountAt, AdmittedTimes, Tally, Run;
    var early, late := Repeat(window - 1, limit) + [window], Repeat(2 * window - 2, limit - 1);
    LateBurst(window, limit);
    DivisionBounds(limit, 2, window);
    BurstIsAdmitted(Fresh(0, window), limit, early, 2 * window - 2, limit - 1);
    LateBurstTally(window, limit, limit - 1);
    assert NonDecreasing(0, early + late);
    assert AdmittedIn(0, window, limit, early + late, window - 1) == 2 * limit;
  }

  /** The documented promise: at most limit requests are allowed within any one window. */
  ghost predicate AtMostLimitPerWindow(window: int, limit: nat)
    requires window > 0
  {
    forall created, times, from :: NonDecreasing(created, times) ==>
      AdmittedIn(created, window, limit, times, from) <= limit
  }

  lemma {:induction false} OneTickWindow(created: int, limit: nat, times: seq<int>, from: int)
    requires NonDecreasing(created, times)
    ensures AdmittedIn(created, 1, limit, times, from) <= limit
  {
    hide LastCount, Run, AllBelow, Tally, AdmittedTimes;
    if times == [] {
      assert AdmittedTimes(Fresh(created, 1), limit, times) == [] by { AdmittedTimesOfNone(Fresh(created, 1), limit); }
      TallyNone([], from, from + 1);
    } else {
      LastOfPrefix(created, times);
      var now := times[|times| - 1];
      if now == from {
        CountersAreExact(created, 1, times);
        RunsStayWithinLimit(created, 1, limit, times);
        NowIsBelow(times, Run(Fresh(created, 1), times).windowStart + 1);
      } else {
        OneTickWindow(created, limit, times[..|times| - 1], from);
        RequestOutside(Fresh(created, 1), limit, times, from, from + 1);
      }
    }
  }

  lemma AdmittedTimesOfNone(origin: Counters, limit: int)
    requires origin.window > 0
    ensures AdmittedTimes(origin, limit, []) == []
  {
  }

  lemma NowIsBelow(times: seq<int>, bound: int)
    requires times != [] && AllBelow(times, bound)
    ensures times[|times| - 1] < bound
  {
  }

  /** The promise holds only where nothing is admitted or the window is a single clock tick. */
  lemma PromiseHoldsExactly(window: int, limit: nat)
    requires window > 0
    ensures AtMostLimitPerWindow(window, limit) <==> limit == 0 || window == 1
  {
    hide AdmittedTimes, Tally;
    if limit == 0 || window == 1 {
      forall created, times, from | NonDecreasing(created, times)
        ensures AdmittedIn(created, window, limit, times, from) <= limit
      {
        if limit == 0 {
          IntervalBound(created, window, 0, times, from);
        } else {
          OneTickWindow(created, limit, times, from);
        }
      }
    } else {
      var times := Repeat(window - 1, limit) + [window];
      LateBurst(window, limit);
      LateBurstTally(window, limit, 0);
      assert times + Repeat(2 * window - 2, 0) == times;
      assert AdmittedIn(0, window, limit, times, window - 1) == limit + 1;
    }
  }
}
