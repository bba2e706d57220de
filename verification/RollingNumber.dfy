/** `RollingNumberImpl`: increments summed per second in an ordered map that is pruned as time goes by.
    Doubles are exact reals. */
module RollingNumbers {
  const NANOS_PER_SECOND := 1_000_000_000

  /** duration_cast to seconds truncates toward zero. */
  function Seconds(t: int): int {
    if t >= 0 then t / NANOS_PER_SECOND else -((-t) / NANOS_PER_SECOND)
  }

  lemma SecondsMonotone(a: int, b: int)
    requires a <= b
    ensures Seconds(a) <= Seconds(b)
  {
  }

  /** One entry of the ordered map. */
  datatype Bucket = Bucket(tick: int, value: real)

  /** One call of `Increment`, with the time it read from the clock. */
  datatype Entry = Entry(time: int, amount: real)

  // ------------------------------------------------------------------ what the window holds

  /** All increments ever made whose second is later than `lo`. */
  function WindowSum(log: seq<Entry>, lo: int): real {
    if log == [] then 0.0
    else
      var last := log[|log| - 1];
      WindowSum(log[..|log| - 1], lo) + if Seconds(last.time) > lo then last.amount else 0.0
  }

  /** All increments made at `start` nanoseconds or later. */
  function SumFrom(log: seq<Entry>, start: int): real {
    if log == [] then 0.0
    else (if log[0].time >= start then log[0].amount else 0.0) + SumFrom(log[1..], start)
  }

  /** The first nanosecond of the window of so many seconds that ends with the second of `now`. */
  function WindowStart(now: int, window: int): int {
    var second := if now >= 0 then now / 1_000_000_000 else -((-now) / 1_000_000_000);
    if second - window >= 0 then (second - window + 1) * 1_000_000_000 else (second - window) * 1_000_000_000 + 1
  }

  lemma SecondsAfter(t: int, now: int, window: int)
    ensures Seconds(t) > Seconds(now) - window <==> t >= WindowStart(now, window)
  {
  }

  lemma {:induction false} SumFromAppend(log: seq<Entry>, e: Entry, start: int)
    ensures SumFrom(log + [e], start) == SumFrom(log, start) + if e.time >= start then e.amount else 0.0
  {
    if log == [] {
      assert log + [e] == [e] && [e][1..] == [];
    } else {
      assert (log + [e])[1..] == log[1..] + [e];
      SumFromAppend(log[1..], e, start);
    }
  }

  /** The window holds the increments since its first nanosecond. */
  lemma {:induction false} WindowByTime(log: seq<Entry>, now: int, window: int)
    ensures WindowSum(log, Seconds(now) - window) == SumFrom(log, WindowStart(now, window))
  {
    if log != [] {
      var front, last := log[..|log| - 1], log[|log| - 1];
      WindowByTime(front, now, window);
      SumFromAppend(front, last, WindowStart(now, window));
      SecondsAfter(last.time, now, window);
      assert log == front + [last];
    }
  }

  function BucketSum(b: seq<Bucket>, lo: int): real {
    if b == [] then 0.0
    else (if b[0].tick > lo then b[0].value else 0.0) + BucketSum(b[1..], lo)
  }

  ghost predicate Agree(b: seq<Bucket>, log: seq<Entry>, lo: int) {
    BucketSum(b, lo) == WindowSum(log, lo)
  }

  predicate Sorted(b: seq<Bucket>) {
    forall i, j :: 0 <= i < j < |b| ==> b[i].tick < b[j].tick
  }

  lemma WindowAppend(log: seq<Entry>, e: Entry, lo: int)
    ensures WindowSum(log + [e], lo) == WindowSum(log, lo) + if Seconds(e.time) > lo then e.amount else 0.0
  {
    assert (log + [e])[..|log|] == log;
  }

  lemma {:induction false} BucketAdd(b: seq<Bucket>, i: nat, amount: real, lo: int)
    requires i < |b|
    ensures BucketSum(b[i := Bucket(b[i].tick, b[i].value + amount)], lo)
         == BucketSum(b, lo) + if b[i].tick > lo then amount else 0.0
  {
    var c := b[i := Bucket(b[i].tick, b[i].value + amount)];
    if i == 0 {
      assert c[1..] == b[1..];
    } else {
      BucketAdd(b[1..], i - 1, amount, lo);
      assert c[1..] == b[1..][i - 1 := Bucket(b[i].tick, b[i].value + amount)];
    }
  }

  lemma {:induction false} BucketInsert(b: seq<Bucket>, i: nat, x: Bucket, lo: int)
    requires i <= |b|
    ensures BucketSum(b[..i] + [x] + b[i..], lo) == BucketSum(b, lo) + if x.tick > lo then x.value else 0.0
  {
    var c := b[..i] + [x] + b[i..];
    if i == 0 {
      assert c[1..] == b;
    } else {
      BucketInsert(b[1..], i - 1, x, lo);
      assert c[1..] == b[1..][..i - 1] + [x] + b[1..][i - 1..];
    }
  }

  /** Old buckets do not count. */
  lemma {:induction false} BucketDrop(b: seq<Bucket>, i: nat, lo: int)
    requires i <= |b| && forall j :: 0 <= j < i ==> b[j].tick <= lo
    ensures BucketSum(b[i..], lo) == BucketSum(b, lo)
  {
    if i > 0 {
      BucketDrop(b[1..], i - 1, lo);
      assert b[1..][i - 1..] == b[i..];
    }
  }

  lemma {:induction false} SortedRange(b: seq<Bucket>, low: int, high: int)
    requires Sorted(b) && forall i :: 0 <= i < |b| ==> low <= b[i].tick <= high
    ensures |b| <= if high < low then 0 else high - low + 1
  {
    if b != [] {
      var front := b[..|b| - 1];
      assert forall i :: 0 <= i < |front| ==> front[i].tick < b[|b| - 1].tick;
      SortedRange(front, low, b[|b| - 1].tick - 1);
    }
  }

  // ------------------------------------------------------------------ the class

  class RollingNumber {
    const window: int
    var buckets: seq<Bucket>
    ghost var log: seq<Entry>
    /** The latest second read from the clock. */
    ghost var clock: int

    /** Whatever can still be asked for is answered by the buckets as by the whole log. */
    ghost predicate Valid()
      reads this
    {
      && Sorted(buckets)
      && (forall i :: 0 <= i < |buckets| ==> clock - window <= buckets[i].tick <= clock)
      && (forall lo :: lo >= clock - window - 1 ==> Agree(buckets, log, lo))
    }

    /** `windowMillis` is the configured window in milliseconds. */
    constructor (windowMillis: int, ghost now: int)
      ensures Valid() && log == [] && clock == Seconds(now)
      ensures window == if windowMillis >= 0 then windowMillis / 1000 else -((-windowMillis) / 1000)
    {
      window := if windowMillis >= 0 then windowMillis / 1000 else -((-windowMillis) / 1000);
      buckets, log, clock := [], [], Seconds(now);
    }

    /** At most one bucket per second of the window and one more. */
    lemma BucketBound()
      requires Valid()
      ensures |buckets| <= if window < 0 then 0 else window + 1
    {
      SortedRange(buckets, clock - window, clock);
    }

    /** map::lower_bound: the first bucket not before `tick`. */
    method LowerBound(tick: int) returns (i: nat)
      requires Sorted(buckets)
      ensures i <= |buckets|
      ensures forall j :: 0 <= j < i ==> buckets[j].tick < tick
      ensures forall j :: i <= j < |buckets| ==> buckets[j].tick >= tick
    {
      i := 0;
      while i < |buckets| && buckets[i].tick < tick
        invariant i <= |buckets|
        invariant forall j :: 0 <= j < i ==> buckets[j].tick < tick
      {
        i := i + 1;
      }
    }

    method RemoveOldBuckets(now: int)
      requires Sorted(buckets)
      requires forall i :: 0 <= i < |buckets| ==> buckets[i].tick <= Seconds(now)
      modifies this`buckets
      ensures Sorted(buckets)
      ensures forall i :: 0 <= i < |buckets| ==> Seconds(now) - window <= buckets[i].tick <= Seconds(now)
      ensures forall lo :: lo >= Seconds(now) - window - 1 ==> BucketSum(buckets, lo) == BucketSum(old(buckets), lo)
    {
      var tick := Seconds(now) - window;
      var i := LowerBound(tick);
      forall lo | lo >= tick - 1 ensures BucketSum(buckets[i..], lo) == BucketSum(buckets, lo) {
        BucketDrop(buckets, i, lo);
      }
      buckets := buckets[i..];
    }

    /** getCurrentBucket and the addition to it. */
    method AddToCurrent(amount: real, now: int)
      requires Sorted(buckets) && forall i :: 0 <= i < |buckets| ==> buckets[i].tick <= Seconds(now)
      modifies this`buckets
      ensures Sorted(buckets) && forall i :: 0 <= i < |buckets| ==> buckets[i].tick <= Seconds(now)
      ensures forall lo ::
        BucketSum(buckets, lo) == BucketSum(old(buckets), lo) + if Seconds(now) > lo then amount else 0.0
    {
      var tick := Seconds(now);
      var i := LowerBound(tick);
      if i == |buckets| || buckets[i].tick != tick {
        forall lo ensures BucketSum(buckets[..i] + [Bucket(tick, 0.0)] + buckets[i..], lo) == BucketSum(buckets, lo) {
          BucketInsert(buckets, i, Bucket(tick, 0.0), lo);
        }
        buckets := buckets[..i] + [Bucket(tick, 0.0)] + buckets[i..];
      }
      forall lo ensures BucketSum(buckets[i := Bucket(tick, buckets[i].value + amount)], lo)
                     == BucketSum(buckets, lo) + if tick > lo then amount else 0.0
      {
        BucketAdd(buckets, i, amount, lo);
      }
      buckets := buckets[i := Bucket(tick, buckets[i].value + amount)];
    }

    /** The clock may move on between its two readings, `now` and `later`. */
    method Increment(amount: real, now: int, later: int)
      requires Valid() && clock <= Seconds(now) && now <= later
      modifies this
      ensures Valid() && clock == Seconds(later)
      ensures log == old(log) + [Entry(now, amount)]
      ensures |buckets| <= if window < 0 then 0 else window + 1
    {
      SecondsMonotone(now, later);
      AddToCurrent(amount, now);
      forall lo ensures WindowSum(log + [Entry(now, amount)], lo)
                     == WindowSum(log, lo) + if Seconds(now) > lo then amount else 0.0
      {
        WindowAppend(log, Entry(now, amount), lo);
      }
      RemoveOldBuckets(later);
      log := log + [Entry(now, amount)];
      clock := Seconds(later);
      forall lo | lo >= clock - window - 1 ensures Agree(buckets, log, lo) {
        assert Agree(old(buckets), old(log), lo);
      }
      BucketBound();
    }

    /** The sum of every increment ever made in the window that ends now, pruned or not. */
    method Sum(now: int, later: int) returns (sum: real)
      requires Valid() && clock <= Seconds(now) && now <= later
      modifies this
      ensures Valid() && clock == Seconds(later) && log == old(log)
      ensures sum == WindowSum(log, Seconds(now) - window)
      ensures sum == SumFrom(log, WindowStart(now, window))
      ensures |buckets| <= if window < 0 then 0 else window + 1
    {
      SecondsMonotone(now, later);
      WindowByTime(log, now, window);
      sum := 0.0;
      var tick := Seconds(now);
      for i := 0 to |buckets|
        invariant sum + BucketSum(buckets[i..], tick - window) == BucketSum(buckets, tick - window)
      {
        assert buckets[i..][1..] == buckets[i + 1..];
        if buckets[i].tick > tick - window {
          sum := sum + buckets[i].value;
        }
      }
      assert Agree(buckets, log, tick - window);
      RemoveOldBuckets(later);
      clock := Seconds(later);
      forall lo | lo >= clock - window - 1 ensures Agree(buckets, log, lo) {
        assert Agree(old(buckets), log, lo);
      }
      BucketBound();
    }
  }
}
