/** `CircuitBreakerImpl` on top of the rolling numbers, against the history of everything that
    happened. */
module CircuitBreakers {
  import opened Common
  import opened RollingNumbers

  /** Times and durations in nanoseconds, response times and the lookback in milliseconds. */
  datatype Settings = Settings(
    consecutiveSlowRequests: uint32,
    slowThreshold: Option<int>,
    minRequestAmount: uint32,
    errorPercent: real,
    breakDuration: int,
    lookbackMillis: int)
  {
    function Window(): int {
      if lookbackMillis >= 0 then lookbackMillis / 1000 else -((-lookbackMillis) / 1000)
    }
  }

  /** What an update reads from the clock, in this order: each of the three counters reads the second to add
      to and the second to prune at, then comes the update's own time, and each sum prunes once more. */
  datatype Readings = Readings(
    request: int, requestPrune: int, time: int, timePrune: int, failure: int, failurePrune: int,
    at: int, requestsPrune: int, errorsPrune: int)
  {
    predicate InOrder() {
      && request <= requestPrune <= time <= timePrune <= failure <= failurePrune
      && failurePrune <= at <= requestsPrune <= errorsPrune
    }
  }

  /** One call, with what it read from the clock. */
  datatype Event = Update(clock: Readings, error: bool, rt: int) | Query(at: int) {
    function First(): int { if Update? then clock.request else at }
    function Last(): int { if Update? then clock.errorsPrune else at }
  }

  /** All calls so far, the latest outermost. */
  datatype History = Begin | Then(before: History, last: Event)

  /** The clock does not go back, and has not passed `now`. */
  predicate Ordered(h: History, now: int) {
    h.Then? ==>
      && (h.last.Update? ==> h.last.clock.InOrder())
      && h.last.Last() <= now && Ordered(h.before, h.last.First())
  }

  // ------------------------------------------------------------------ what the history implies

  function Requests(h: History): seq<Entry> {
    match h
    case Begin => []
    case Then(before, Update(clock, _, _)) => Requests(before) + [Entry(clock.request, 1.0)]
    case Then(before, Query(_)) => Requests(before)
  }

  function Errors(h: History): seq<Entry> {
    match h
    case Begin => []
    case Then(before, Update(clock, true, _)) => Errors(before) + [Entry(clock.failure, 1.0)]
    case Then(before, _) => Errors(before)
  }

  function ResponseTimes(h: History): seq<Entry> {
    match h
    case Begin => []
    case Then(before, Update(clock, _, rt)) => ResponseTimes(before) + [Entry(clock.time, rt as real)]
    case Then(before, Query(_)) => ResponseTimes(before)
  }

  predicate Slow(s: Settings, e: Event) {
    s.slowThreshold.Some? && e.Update? && e.rt > s.slowThreshold.value
  }

  /** Enough requests in the window before `at`, and enough of them failed. */
  predicate ErrorTrip(s: Settings, h: History, at: int) {
    var lo := Seconds(at) - s.Window();
    var total := WindowSum(Requests(h), lo);
    && s.minRequestAmount > 0 && s.errorPercent > 0.0
    && total >= s.minRequestAmount as real
    && WindowSum(Errors(h), lo) / total * 100.0 >= s.errorPercent
  }

  /** The two remembered quantities: the slow counter and the end of the open phase. */
  datatype Memory = Memory(slow: uint32, validTime: Option<int>)

  function SlowAfter(s: Settings, slow: uint32, e: Event): uint32 {
    if s.slowThreshold.None? then slow else if Slow(s, e) then Wrap32(slow + 1) else 0
  }

  /** Does the last call, an update, trip the breaker? */
  predicate Tripping(s: Settings, h: History)
    requires h.Then?
    decreases h, 0
  {
    && h.last.Update?
    && (|| (s.consecutiveSlowRequests > 0
            && SlowAfter(s, Replay(s, h.before).slow, h.last) >= s.consecutiveSlowRequests)
        || ErrorTrip(s, h, h.last.clock.at))
  }

  function Replay(s: Settings, h: History): Memory
    decreases h, 1
  {
    if h.Begin? then Memory(0, None)
    else
      var m := Replay(s, h.before);
      match h.last
      case Update(clock, _, _) =>
        Memory(SlowAfter(s, m.slow, h.last), if Tripping(s, h) then Some(clock.at + s.breakDuration) else m.validTime)
      case Query(_) => if ExpirySeen(s, h) then Memory(0, None) else m
  }

  /** The last call is a query that finds the open phase over. */
  predicate ExpirySeen(s: Settings, h: History)
    requires h.Then?
    decreases h, 0
  {
    var v := Replay(s, h.before).validTime;
    h.last.Query? && v.Some? && h.last.at > v.value
  }

  // ------------------------------------------------------------------ when the breaker is open

  /** The times of the updates that tripped the breaker. */
  function TripTimes(s: Settings, h: History): set<int> {
    if h.Begin? then {}
    else if Tripping(s, h) then TripTimes(s, h.before) + {h.last.clock.at}
    else TripTimes(s, h.before)
  }

  /** Some tripping update `u` has t <= u + breakDuration. */
  ghost predicate Open(s: Settings, h: History, t: int) {
    exists u :: u in TripTimes(s, h) && t <= u + s.breakDuration
  }

  /** The remembered time is that of a tripping update, no tripping update ends later, and once it is
      forgotten every one of them is over. */
  lemma {:induction false} MemoryOfTrips(s: Settings, h: History, now: int)
    requires Ordered(h, now)
    ensures forall u :: u in TripTimes(s, h) ==> u <= now
    ensures Replay(s, h).validTime.Some? ==> Replay(s, h).validTime.value - s.breakDuration in TripTimes(s, h)
    ensures forall u :: u in TripTimes(s, h) ==> EndsBy(s, u, Replay(s, h).validTime, now)
  {
    if h.Then? {
      MemoryOfTrips(s, h.before, h.last.First());
      forall u | u in TripTimes(s, h) ensures u <= now && EndsBy(s, u, Replay(s, h).validTime, now) {
        if u in TripTimes(s, h.before) {
          assert EndsBy(s, u, Replay(s, h.before).validTime, h.last.First());
          EarlierTrip(s, h, u, now);
        } else {
          assert Tripping(s, h) && u == h.last.clock.at;
        }
      }
    }
  }

  lemma EarlierTrip(s: Settings, h: History, u: int, now: int)
    requires h.Then? && Ordered(h, now)
    requires u <= h.last.First() && EndsBy(s, u, Replay(s, h.before).validTime, h.last.First())
    ensures u <= now && EndsBy(s, u, Replay(s, h).validTime, now)
  {
    var before := Replay(s, h.before).validTime;
    match h.last
    case Update(clock, _, _) =>
      assert clock.request <= clock.at <= now;
    case Query(at) =>
      if ExpirySeen(s, h) {
        assert u + s.breakDuration <= before.value < at <= now;
      }
  }

  /** An open phase begun at `u` is over when `v`, or else `now`, is past. */
  predicate EndsBy(s: Settings, u: int, v: Option<int>, now: int) {
    if v.Some? then u + s.breakDuration <= v.value else u + s.breakDuration < now
  }

  lemma OpenIffRemembered(s: Settings, h: History, t: int)
    requires Ordered(h, t)
    ensures Open(s, h, t) <==> Replay(s, h).validTime.Some? && t <= Replay(s, h).validTime.value
  {
    MemoryOfTrips(s, h, t);
    var v := Replay(s, h).validTime;
    if v.Some? && t <= v.value {
      var u := v.value - s.breakDuration;
      assert u in TripTimes(s, h) && t <= u + s.breakDuration;
    }
    if Open(s, h, t) {
      var u :| u in TripTimes(s, h) && t <= u + s.breakDuration;
      assert EndsBy(s, u, v, t);
    }
  }

  // ------------------------------------------------------------------ the slow counter

  /** The updates since the last fast one or observed expiry. */
  function SinceReset(s: Settings, h: History): seq<Event> {
    if h.Begin? then []
    else
      match h.last
      case Update(_, _, _) => if Slow(s, h.last) then SinceReset(s, h.before) + [h.last] else []
      case Query(_) => if ExpirySeen(s, h) then [] else SinceReset(s, h.before)
  }

  /** With a threshold the counter counts exactly those, modulo 2^32, and all of them are slow; without
      one it stays at zero. */
  lemma {:induction false} SlowCounterIsRun(s: Settings, h: History)
    ensures s.slowThreshold.Some? ==> Replay(s, h).slow == Wrap32(|SinceReset(s, h)|)
    ensures s.slowThreshold.None? ==> Replay(s, h).slow == 0
    ensures forall i :: 0 <= i < |SinceReset(s, h)| ==> Slow(s, SinceReset(s, h)[i])
  {
    if h.Then? {
      SlowCounterIsRun(s, h.before);
      Wrap32Twice(|SinceReset(s, h.before)|, 1);
    }
  }

  /** Slow updates and nothing else. */
  function SlowUpdates(n: nat): History {
    if n == 0 then Begin else Then(SlowUpdates(n - 1), Update(Readings(0, 0, 0, 0, 0, 0, 0, 0, 0), false, 1))
  }

  lemma {:induction false} SlowUpdatesRun(s: Settings, n: nat)
    requires s.slowThreshold == Some(0)
    ensures |SinceReset(s, SlowUpdates(n))| == n
  {
    if n > 0 { SlowUpdatesRun(s, n - 1); }
  }

  /** The counter wraps: of slow updates in a row, number `n` trips the breaker exactly when n modulo 2^32
      is not zero. */
  lemma {:induction false} SlowWrapExample(s: Settings, n: nat)
    requires s.slowThreshold == Some(0) && s.consecutiveSlowRequests == 1 && s.minRequestAmount == 0 && n > 0
    ensures Tripping(s, SlowUpdates(n)) <==> Wrap32(n) != 0
  {
    var h := SlowUpdates(n);
    SlowUpdatesRun(s, n);
    SlowCounterIsRun(s, h);
    assert Replay(s, h).slow == SlowAfter(s, Replay(s, h.before).slow, h.last);
  }

  // ------------------------------------------------------------------ errors against requests

  /** Updates counted as requests in the window, failed ones or others. */
  function Within(h: History, lo: int, failed: bool): nat {
    if h.Begin? then 0
    else
      Within(h.before, lo, failed)
      + if h.last.Update? && h.last.error == failed && Seconds(h.last.clock.request) > lo then 1 else 0
  }

  /** Failed updates counted as errors in the window although as requests they are too old for it: the
      second changed between the two readings. */
  function Straddling(h: History, lo: int): nat {
    if h.Begin? then 0
    else
      Straddling(h.before, lo)
      + if h.last.Update? && h.last.error && Seconds(h.last.clock.request) <= lo < Seconds(h.last.clock.failure)
        then 1 else 0
  }

  lemma {:induction false} WindowCounts(h: History, lo: int, now: int)
    requires Ordered(h, now)
    ensures WindowSum(Requests(h), lo) == (Within(h, lo, true) + Within(h, lo, false)) as real
    ensures WindowSum(Errors(h), lo) == (Within(h, lo, true) + Straddling(h, lo)) as real
  {
    if h.Then? {
      WindowCounts(h.before, lo, h.last.First());
      if h.last.Update? {
        var clock := h.last.clock;
        WindowAppend(Requests(h.before), Entry(clock.request, 1.0), lo);
        WindowAppend(Errors(h.before), Entry(clock.failure, 1.0), lo);
        SecondsMonotone(clock.request, clock.failure);
      }
    }
  }

  /** The errors of a window are within its requests, exactly when no more failed updates straddle its
      beginning than updates without an error are in it. */
  lemma ErrorsWithinRequests(h: History, lo: int, now: int)
    requires Ordered(h, now)
    ensures WindowSum(Errors(h), lo) <= WindowSum(Requests(h), lo) <==> Straddling(h, lo) <= Within(h, lo, false)
    ensures 0.0 <= WindowSum(Errors(h), lo)
  {
    WindowCounts(h, lo, now);
  }

  lemma Ratio(part: real, whole: real, percent: real)
    requires whole > 0.0
    ensures part / whole * 100.0 >= percent <==> part * 100.0 >= percent * whole
  {
    var q := part / whole;
    assert q * whole == part;
    assert (q * 100.0 - percent) * whole == part * 100.0 - percent * whole;
    if q * 100.0 - percent >= 0.0 {
      assert (q * 100.0 - percent) * whole >= 0.0;
    } else {
      assert (q * 100.0 - percent) * whole < 0.0;
    }
  }

  /** The first second of the lookback window before `at`, which is not part of it. */
  function Lookback(s: Settings, at: int): int {
    Seconds(at) - if s.lookbackMillis >= 0 then s.lookbackMillis / 1000 else -((-s.lookbackMillis) / 1000)
  }

  lemma {:induction false} SlowTrip(s: Settings, h: History)
    requires h.Then? && h.last.Update? && s.consecutiveSlowRequests > 0
    ensures SlowAfter(s, Replay(s, h.before).slow, h.last) >= s.consecutiveSlowRequests <==>
      s.slowThreshold.Some? && Wrap32(|SinceReset(s, h)|) >= s.consecutiveSlowRequests
  {
    SlowCounterIsRun(s, h);
    assert Replay(s, h).slow == SlowAfter(s, Replay(s, h.before).slow, h.last);
  }

  /** At least the given percentage of the updates failed. */
  predicate ShareReached(failures: nat, updates: nat, percent: real) {
    failures as real * 100.0 >= percent * updates as real
  }

  lemma ShareIsRatio(failures: nat, updates: nat, percent: real, failed: real, total: real)
    requires updates > 0 && failed == failures as real && total == updates as real
    ensures ShareReached(failures, updates, percent) <==> failed / total * 100.0 >= percent
  {
    Ratio(failed, total, percent);
  }

  /** Failed updates counted in the window before `at`, and all of them. */
  function FailuresAt(s: Settings, h: History, at: int): nat {
    Within(h, Lookback(s, at), true) + Straddling(h, Lookback(s, at))
  }

  function UpdatesAt(s: Settings, h: History, at: int): nat {
    Within(h, Lookback(s, at), true) + Within(h, Lookback(s, at), false)
  }

  lemma {:induction false} ErrorTripCounts(s: Settings, h: History, at: int, now: int)
    requires Ordered(h, now)
    ensures ErrorTrip(s, h, at) <==>
      && s.minRequestAmount > 0 && s.errorPercent > 0.0 && UpdatesAt(s, h, at) >= s.minRequestAmount
      && ShareReached(FailuresAt(s, h, at), UpdatesAt(s, h, at), s.errorPercent)
  {
    WindowCounts(h, Lookback(s, at), now);
    if UpdatesAt(s, h, at) > 0 {
      ShareIsRatio(FailuresAt(s, h, at), UpdatesAt(s, h, at), s.errorPercent,
                   WindowSum(Errors(h), Lookback(s, at)), WindowSum(Requests(h), Lookback(s, at)));
    }
  }

  /** An update trips the breaker exactly when it completes a run of slow ones, or when enough updates are in
      the window and the failed ones are at least the configured share of them. */
  lemma {:induction false} TrippingExactly(s: Settings, h: History, now: int)
    requires Ordered(h, now) && h.Then? && h.last.Update?
    ensures Tripping(s, h) <==>
      || (&& s.consecutiveSlowRequests > 0 && s.slowThreshold.Some?
          && Wrap32(|SinceReset(s, h)|) >= s.consecutiveSlowRequests)
      || (&& s.minRequestAmount > 0 && s.errorPercent > 0.0
          && UpdatesAt(s, h, h.last.clock.at) >= s.minRequestAmount
          && ShareReached(FailuresAt(s, h, h.last.clock.at), UpdatesAt(s, h, h.last.clock.at), s.errorPercent))
  {
    ErrorTripCounts(s, h, h.last.clock.at, now);
    if s.consecutiveSlowRequests > 0 {
      SlowTrip(s, h);
    }
  }

  /** A run of slow updates grows with every response time beyond the threshold and starts anew with any
      other; a query ends it only if it finds the open phase over. */
  lemma RunStep(s: Settings, h: History, e: Event)
    ensures e.Update? && s.slowThreshold.Some? && e.rt > s.slowThreshold.value ==>
      |SinceReset(s, Then(h, e))| == |SinceReset(s, h)| + 1
    ensures e.Update? && (s.slowThreshold.Some? ==> e.rt <= s.slowThreshold.value) ==> SinceReset(s, Then(h, e)) == []
    ensures e.Query? ==>
      var v := Replay(s, h).validTime;
      SinceReset(s, Then(h, e)) == if v.Some? && e.at > v.value then [] else SinceReset(s, h)
  {
  }

  /** One failed update that straddles: an error in a window without a request. */
  lemma StraddlingExample()
    ensures exists h: History, lo ::
      Ordered(h, 10 * NANOS_PER_SECOND) && WindowSum(Requests(h), lo) == 0.0 && WindowSum(Errors(h), lo) == 1.0
  {
    var early, late := 9 * NANOS_PER_SECOND, 10 * NANOS_PER_SECOND;
    var h := Then(Begin, Update(Readings(early, early, early, early, late, late, late, late, late), true, 0));
    WindowCounts(h, 9, late);
    assert Within(Begin, 9, true) == 0 && Within(Begin, 9, false) == 0 && Straddling(Begin, 9) == 0;
    assert Ordered(h, late) && WindowSum(Requests(h), 9) == 0.0 && WindowSum(Errors(h), 9) == 1.0;
  }

  // ------------------------------------------------------------------ the class

  class CircuitBreakerImpl {
    const settings: Settings
    const errors: RollingNumber
    const responseTimes: RollingNumber
    const requests: RollingNumber
    var consecutiveSlow: uint32
    var validTime: Option<int>
    ghost var history: History
    ghost var clock: int

    ghost predicate Valid()
      reads this, errors, responseTimes, requests
    {
      && errors != responseTimes && errors != requests && requests != responseTimes
      && Counted(history, clock)
      && Ordered(history, clock)
      && Replay(settings, history) == Memory(consecutiveSlow, validTime)
    }

    /** The three counters have seen exactly the history. */
    ghost predicate Counted(h: History, at: int)
      reads errors, responseTimes, requests
    {
      && Tracks(errors, Errors(h), at)
      && Tracks(responseTimes, ResponseTimes(h), at)
      && Tracks(requests, Requests(h), at)
    }

    ghost predicate Tracks(number: RollingNumber, entries: seq<Entry>, at: int)
      reads number
    {
      && number.Valid() && number.log == entries && number.window == settings.Window()
      && number.clock <= Seconds(at)
    }

    constructor (settings: Settings, ghost now: int)
      ensures Valid() && this.settings == settings && history == Begin && clock == now
      ensures fresh(errors) && fresh(responseTimes) && fresh(requests)
    {
      this.settings := settings;
      errors := new RollingNumber(settings.lookbackMillis, now);
      responseTimes := new RollingNumber(settings.lookbackMillis, now);
      requests := new RollingNumber(settings.lookbackMillis, now);
      consecutiveSlow, validTime := 0, None;
      history, clock := Begin, now;
    }

    /** Open exactly when some tripping update is not older than the break duration. */
    method IsOpen(now: int) returns (open: bool)
      requires Valid() && clock <= now
      modifies this`consecutiveSlow, this`validTime, this`history, this`clock
      ensures Valid() && clock == now && history == Then(old(history), Query(now))
      ensures open <==> Open(settings, old(history), now)
    {
      OpenIffRemembered(settings, history, now);
      SecondsMonotone(clock, now);
      history, clock := Then(history, Query(now)), now;
      if validTime.None? {
        return false;
      }
      if now > validTime.value {
        validTime := None;
        consecutiveSlow := 0;
        return false;
      }
      return true;
    }

    method Count(error: bool, rt: int, clock: Readings)
      requires errors != responseTimes && errors != requests && requests != responseTimes
      requires Counted(history, this.clock) && this.clock <= clock.request && clock.InOrder()
      modifies errors, responseTimes, requests
      ensures Counted(Then(history, Update(clock, error, rt)), clock.at)
    {
      SecondsMonotone(this.clock, clock.request);
      SecondsMonotone(clock.request, clock.time);
      SecondsMonotone(clock.time, clock.failure);
      SecondsMonotone(clock.failure, clock.at);
      SecondsMonotone(clock.requestPrune, clock.at);
      SecondsMonotone(clock.timePrune, clock.at);
      SecondsMonotone(clock.failurePrune, clock.at);
      requests.Increment(1.0, clock.request, clock.requestPrune);
      responseTimes.Increment(rt as real, clock.time, clock.timePrune);
      if error {
        errors.Increment(1.0, clock.failure, clock.failurePrune);
      }
    }

    /** The two conditions, on the counters as they are after the update. */
    method ShouldBreak(clock: Readings, ghost h: History) returns (shouldBreak: bool)
      requires errors != requests && errors != responseTimes && requests != responseTimes
      requires Counted(h, clock.at) && clock.InOrder()
      requires h.Then? && h.last.Update? && h.last.clock == clock
      requires consecutiveSlow == SlowAfter(settings, Replay(settings, h.before).slow, h.last)
      modifies errors, requests
      ensures Counted(h, clock.errorsPrune)
      ensures shouldBreak <==> Tripping(settings, h)
    {
      shouldBreak := false;
      if settings.consecutiveSlowRequests > 0 {
        if consecutiveSlow >= settings.consecutiveSlowRequests {
          shouldBreak := true;
        }
      }
      var failing := CheckErrors(clock, h);
      if failing {
        shouldBreak := true;
      }
    }

    method CheckErrors(clock: Readings, ghost h: History) returns (failing: bool)
      requires errors != requests && errors != responseTimes && requests != responseTimes
      requires Counted(h, clock.at) && clock.InOrder()
      modifies errors, requests
      ensures Counted(h, clock.errorsPrune)
      ensures failing <==> ErrorTrip(settings, h, clock.at)
    {
      SecondsMonotone(clock.at, clock.requestsPrune);
      SecondsMonotone(clock.requestsPrune, clock.errorsPrune);
      failing := false;
      if settings.minRequestAmount > 0 && settings.errorPercent > 0.0 {
        var total := requests.Sum(clock.at, clock.requestsPrune);
        var failed := errors.Sum(clock.at, clock.errorsPrune);
        if total >= settings.minRequestAmount as real && failed / total * 100.0 >= settings.errorPercent {
          failing := true;
        }
      }
    }

    method UpdateMetrics(error: bool, rt: int, clock: Readings)
      requires Valid() && this.clock <= clock.request && clock.InOrder()
      modifies this`consecutiveSlow, this`validTime, this`history, this`clock, errors, responseTimes, requests
      ensures Valid() && this.clock == clock.errorsPrune
      ensures history == Then(old(history), Update(clock, error, rt))
    {
      Count(error, rt, clock);
      if settings.slowThreshold.Some? {
        if rt > settings.slowThreshold.value {
          consecutiveSlow := Wrap32(consecutiveSlow + 1);
        } else {
          consecutiveSlow := 0;
        }
      }
      var shouldBreak := ShouldBreak(clock, Then(history, Update(clock, error, rt)));
      Remember(shouldBreak, Update(clock, error, rt));
    }

    /** The end of `updateMetrics`: an update that trips the breaker opens it from its own time on. */
    method Remember(shouldBreak: bool, e: Event)
      requires e.Update? && clock <= e.First() && e.clock.InOrder() && Ordered(history, clock)
      requires consecutiveSlow == SlowAfter(settings, Replay(settings, history).slow, e)
      requires validTime == Replay(settings, history).validTime
      requires shouldBreak <==> Tripping(settings, Then(history, e))
      modifies this`validTime, this`history, this`clock
      ensures history == Then(old(history), e) && clock == e.Last() && Ordered(history, clock)
      ensures Replay(settings, history) == Memory(consecutiveSlow, validTime)
    {
      OrderedLater(history, clock, e.First());
      history, clock := Then(history, e), e.Last();
      if shouldBreak {
        validTime := Some(e.clock.at + settings.breakDuration);
      }
    }
  }

  lemma OrderedLater(h: History, now: int, later: int)
    requires Ordered(h, now) && now <= later
    ensures Ordered(h, later)
  {
  }
}
