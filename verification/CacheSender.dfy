/** `CacheGetterSetter`: asynchronous lookup through the cache levels, and the fill that follows. */
module CacheSender {
  import opened Common
  import opened CacheEntries

  datatype LookupStatus = FAILED | ONCALL

  /** What the lookup caller is told. */
  datatype Notice = Success(level: nat, entry: Entry) | Failure

  /** What happens to a lookup object. */
  datatype Event = Started | Answered(entry: Option<Entry>) | Cancelled

  /** All of it in order, the latest outermost. */
  datatype History = Begin | Then(before: History, last: Event)

  // ------------------------------------------------------------------ what a history promises

  predicate Start(h: History) {
    h.Then? && (h.last.Started? || Start(h.before))
  }

  predicate Cancels(h: History) {
    h.Then? && (h.last.Cancelled? || Cancels(h.before))
  }

  /** The level answers that came before any cancellation, level 0 first. */
  function Heard(h: History): seq<Option<Entry>> {
    match h
    case Begin => []
    case Then(before, Answered(entry)) => if Cancels(before) then Heard(before) else Heard(before) + [entry]
    case Then(before, _) => Heard(before)
  }

  /** The first level that hit; the number of answers when none did. */
  function FirstHit(answers: seq<Option<Entry>>): (i: nat)
    ensures i <= |answers|
    ensures i < |answers| ==> answers[i].Some?
    ensures forall j :: 0 <= j < i ==> answers[j].None?
  {
    if answers == [] || answers[0].Some? then 0 else 1 + FirstHit(answers[1..])
  }

  /** Success with the first hit; failure once every level has missed; otherwise nothing yet. */
  function Notices(levels: nat, h: History): (r: seq<Notice>)
    ensures |r| <= 1
  {
    var answers := Heard(h);
    var i := FirstHit(answers);
    if i < |answers| then [Success(i, answers[i].value)]
    else if Start(h) && |answers| >= levels then [Failure]
    else []
  }

  /** The caller is told of the first hit with its level and entry; or, once all levels of a lookup that has
      started missed, of failure; or of nothing yet. */
  lemma NoticesExactly(levels: nat, h: History, i: nat, e: Entry)
    ensures Notices(levels, h) == [Success(i, e)] <==>
      i < |Heard(h)| && Heard(h)[i] == Some(e) && forall j :: 0 <= j < i ==> Heard(h)[j] == None
    ensures Notices(levels, h) == [Failure] <==>
      Start(h) && |Heard(h)| >= levels && forall j :: 0 <= j < |Heard(h)| ==> Heard(h)[j] == None
  {
    var first := FirstHit(Heard(h));
    assert first < |Heard(h)| ==> Heard(h)[first] != None;
  }

  /** A lookup that starts and is given these answers. */
  function Asking(answers: seq<Option<Entry>>): History {
    if answers == [] then Then(Begin, Started)
    else Then(Asking(answers[..|answers| - 1]), Answered(answers[|answers| - 1]))
  }

  /** Without a cancel, what is heard is what was answered, and a level is asked after every miss but the last. */
  lemma {:induction false} HeardAll(answers: seq<Option<Entry>>, levels: nat)
    requires levels > 0
    ensures Heard(Asking(answers)) == answers && Start(Asking(answers)) && !Cancels(Asking(answers))
    ensures Awaiting(levels, Asking(answers)) <==>
      answers == [] || (answers[|answers| - 1] == None && |answers| < levels)
  {
    if answers != [] {
      HeardAll(answers[..|answers| - 1], levels);
      assert answers == answers[..|answers| - 1] + [answers[|answers| - 1]];
    }
  }

  /** A level has been asked and has not answered yet. */
  predicate Awaiting(levels: nat, h: History) {
    match h
    case Begin => false
    case Then(before, Started) => !Cancels(before)
    case Then(before, Answered(entry)) => entry.None? && !Cancels(before) && |Heard(h)| < levels
    case Then(before, Cancelled) => Awaiting(levels, before)
  }

  function Append(h: History, later: History): History {
    if later.Begin? then h else Then(Append(h, later.before), later.last)
  }

  /** After a cancellation the history promises nothing it had not promised before. */
  lemma {:induction false} SilentAfterCancel(levels: nat, h: History, later: History)
    requires Start(h) || |Heard(h)| < levels
    ensures Cancels(Append(Then(h, Cancelled), later))
    ensures Notices(levels, Append(Then(h, Cancelled), later)) == Notices(levels, h)
    ensures Heard(Append(Then(h, Cancelled), later)) == Heard(h)
    decreases later
  {
    if later.Then? {
      SilentAfterCancel(levels, h, later.before);
    }
    if Start(h) {
      StartStays(Then(h, Cancelled), later);
    }
  }

  lemma {:induction false} StartStays(h: History, later: History)
    requires Start(h)
    ensures Start(Append(h, later))
    decreases later
  {
    if later.Then? {
      StartStays(h, later.before);
    }
  }

  /** A notice given is never taken back or followed by another, whatever happens later; a level answers
      at most once. */
  lemma {:induction false} NoticeIsFinal(levels: nat, h: History, e: Event)
    requires Notices(levels, h) != []
    requires |Heard(Then(h, e))| <= levels
    ensures Notices(levels, Then(h, e)) == Notices(levels, h)
  {
    var before, after := Heard(h), Heard(Then(h, e));
    assert forall j :: 0 <= j < |before| ==> after[j] == before[j];
    if FirstHit(before) < |before| {
      assert after[FirstHit(before)].Some? && before[FirstHit(before)].Some?;
      assert FirstHit(after) == FirstHit(before);
    } else {
      assert |after| == |before|;
      assert after == before;
    }
  }

  // ------------------------------------------------------------------ the object

  ghost predicate Missed(answers: seq<Option<Entry>>, n: nat)
    requires n <= |answers|
  {
    forall j :: 0 <= j < n ==> answers[j].None?
  }

  datatype Write = Write(level: nat, key: string, entry: Entry)

  class CacheGetterSetter {
    /** The names of the configured caches. */
    const levels: seq<string>

    var hasCacheKey: bool
    var cacheKey: string
    var over: bool
    var stop: bool
    var hit: int
    var current: nat
    /** callback_ != nullptr */
    var callback: bool

    /** The level whose lookup has not come back yet. */
    var outstanding: Option<nat>

    ghost var history: History
    ghost var notices: seq<Notice>
    /** The part of the history that counts. */
    ghost var answers: seq<Option<Entry>>
    ghost var started: bool
    ghost var cancelled: bool
    ghost var awaiting: bool

    ghost predicate Valid()
      reads this
    {
      Recorded() && Consistent()
    }

    ghost predicate Recorded()
      reads this`history, this`answers, this`started, this`cancelled, this`awaiting
    {
      && answers == Heard(history)
      && awaiting == Awaiting(|levels|, history)
      && (started <==> Start(history))
      && (cancelled <==> Cancels(history))
    }

    ghost method Record(e: Event)
      requires Recorded()
      modifies this`history, this`answers, this`started, this`cancelled, this`awaiting
      ensures Recorded() && history == Then(old(history), e)
      ensures started == (old(started) || e.Started?)
      ensures cancelled == (old(cancelled) || e.Cancelled?)
      ensures e.Answered? && !old(cancelled) ==> answers == old(answers) + [e.entry]
      ensures !e.Answered? || old(cancelled) ==> answers == old(answers)
      ensures e.Started? ==> awaiting == !cancelled
      ensures e.Answered? ==> awaiting == (e.entry.None? && !cancelled && |answers| < |levels|)
      ensures e.Cancelled? ==> awaiting == old(awaiting)
    {
      awaiting := Awaiting(|levels|, Then(history, e));
      if e.Answered? && !cancelled {
        answers := answers + [e.entry];
      }
      history, started, cancelled := Then(history, e), started || e.Started?, cancelled || e.Cancelled?;
    }

    /** What the fields and the caller know is what the answers say: `current` levels missed, and then
        possibly one hit. */
    ghost predicate Consistent()
      reads this
    {
      Informed() && Asked()
    }

    ghost predicate Informed()
      reads this`answers, this`over, this`current, this`notices, this`hit, this`started
    {
      && |answers| == (if over then current + 1 else current)
      && current <= |levels|
      && Missed(answers, current)
      && (over ==>
            && current < |levels| && answers[current].Some?
            && notices == [Success(current, answers[current].value)])
      && (!over && started && current >= |levels| ==> notices == [Failure])
      && (!over && !(started && current >= |levels|) ==> notices == [])
      && hit == (if over then current else -1)
    }

    /** Which level is being asked, and for whom. */
    ghost predicate Asked()
      reads this`over, this`stop, this`callback, this`current, this`outstanding, this`hasCacheKey
      reads this`started, this`cancelled, this`awaiting
    {
      && (stop <==> cancelled || (started && current >= |levels|))
      && (!started ==> !over && !callback && current == 0)
      && (started ==> |levels| > 0 && hasCacheKey)
      && (outstanding.Some? <==> awaiting)
      && (!started ==> !awaiting)
      && (outstanding.Some? && !cancelled ==> outstanding == Some(current))
      && (started && !over && !stop ==> callback && outstanding.Some? && current < |levels|)
      && (over || current >= |levels| ==> outstanding.None? && !callback)
    }

    /** The caller has been told exactly what the history promises. */
    lemma NoticesAsPromised()
      requires Valid()
      ensures notices == Notices(|levels|, history)
      ensures hit == if FirstHit(answers) < |answers| then FirstHit(answers) else -1
    {
      assert FirstHit(answers) == current;
    }

    constructor (levels: seq<string>)
      ensures Valid() && this.levels == levels
      ensures history == Begin && !hasCacheKey && hit == -1
    {
      this.levels := levels;
      hasCacheKey, cacheKey, over, stop, hit, current, callback := false, "", false, false, -1, 0, false;
      history, notices, outstanding := Begin, [], None;
      answers, started, cancelled, awaiting := [], false, false, false;
    }

    /** Only the first key counts. */
    method SetCacheKey(key: string)
      requires Valid()
      modifies this`hasCacheKey, this`cacheKey
      ensures Valid() && hasCacheKey
      ensures cacheKey == if old(hasCacheKey) then old(cacheKey) else key
    {
      if !hasCacheKey {
        cacheKey := key;
        hasCacheKey := true;
      }
    }

    method CancelLookup()
      requires Valid()
      modifies this`stop, this`callback, this`history, this`answers, this`started, this`cancelled, this`awaiting
      ensures Valid() && history == Then(old(history), Cancelled) && stop && !callback
    {
      Record(Cancelled);
      stop := true;
      callback := false;
    }

    /** Starts the lookup; one per object. */
    method LookupCache(callbackGiven: bool) returns (status: LookupStatus)
      requires Valid() && !started
      modifies this`callback, this`stop, this`notices, this`outstanding, this`history
      modifies this`answers, this`started, this`cancelled, this`awaiting
      ensures Valid()
      ensures status.FAILED? <==> levels == [] || !callbackGiven || !hasCacheKey
      ensures status.FAILED? ==> history == old(history) && notices == old(notices)
      ensures status.ONCALL? ==> history == Then(old(history), Started) && notices == []
    {
      if levels == [] || !callbackGiven || !hasCacheKey {
        return FAILED;
      }
      Record(Started);
      callback := true;
      LookupCacheOnce();
      return ONCALL;
    }

    method LookupCacheOnce()
      modifies this`stop, this`callback, this`notices, this`outstanding
      ensures old(over || stop || !callback) ==>
        unchanged(this`stop, this`callback, this`notices, this`outstanding)
      ensures !old(over || stop || !callback) && current >= |levels| ==>
        stop && !callback && notices == old(notices) + [Failure] && outstanding == old(outstanding)
      ensures !old(over || stop || !callback) && current < |levels| ==>
        stop == old(stop) && callback && notices == old(notices) && outstanding == Some(current)
    {
      if over || stop || !callback {
        return;
      }
      if current >= |levels| {
        stop := true;
        notices := notices + [Failure];
        callback := false;
        return;
      }
      outstanding := Some(current);
    }

    /** The outstanding level answers. */
    method OnLevelAnswer(entry: Option<Entry>)
      requires Valid() && outstanding.Some?
      modifies this`callback, this`stop, this`over, this`hit, this`current, this`notices, this`outstanding
      modifies this`history, this`answers, this`started, this`cancelled, this`awaiting
      ensures Valid()
      ensures history == Then(old(history), Answered(entry))
    {
      Record(Answered(entry));
      outstanding := None;
      if over || stop || !callback {
        return;
      }
      if entry.None? {
        current := current + 1;
        LookupCacheOnce();
        return;
      }
      hit := current;
      over := true;
      notices := notices + [Success(current, entry.value)];
      callback := false;
    }

    /** Writes the entry to the levels that missed. `entry` is moved into the last one. */
    method InsertCache(entry: Entry, now: uint64, ttl: string -> uint64) returns (writes: seq<Write>)
      requires Valid() && hasCacheKey
      ensures Filled(writes, levels, if hit == -1 then |levels| else hit, cacheKey, entry, now, ttl)
    {
      var insertNumber := if hit == -1 then |levels| else hit;
      var source := Some(entry);
      writes := [];
      for i := 0 to insertNumber
        invariant i < insertNumber ==> source == Some(entry)
        invariant FilledTo(i, writes, levels, insertNumber, cacheKey, entry, now, ttl)
      {
        var entryCopy;
        if i == insertNumber - 1 {
          entryCopy, source := source, None;
        } else {
          entryCopy := source.value.Copy();
        }
        var lifetime := ttl(levels[i]);
        if lifetime == 0 || entryCopy.None? {
          FilledSkip(i, writes, levels, insertNumber, cacheKey, entry, now, ttl);
          continue;
        }
        var w := Write(i, cacheKey, entryCopy.value.(expire := Expiry(now, lifetime)));
        FilledWrite(i, writes, levels, insertNumber, cacheKey, entry, now, ttl, w);
        writes := writes + [w];
      }
    }
  }

  /** 64-bit addition. */
  function Expiry(now: uint64, lifetime: uint64): uint64 {
    Wrap64(now + lifetime)
  }

  /** A written entry has the message of the original; the last level is given the original itself, any other a
      copy, which is as long as the message: all header names and values, and the body. */
  predicate Given(written: Entry, entry: Entry, last: bool) {
    && written.message == entry.message
    && (last ==> written.length == entry.length)
    && (!last ==> entry.message.Some? && written.length == entry.message.value.Size() % 0x1_0000_0000_0000_0000)
  }

  /** What is written is the original with only its expiry changed, exactly when the original is as long as its
      message or is never copied. */
  lemma FillKeepsLength(writes: seq<Write>, levels: seq<string>, n: nat, key: string, entry: Entry, now: uint64,
                        ttl: string -> uint64)
    requires Filled(writes, levels, n, key, entry, now, ttl)
    ensures (forall a :: 0 <= a < |writes| ==> writes[a].entry == entry.(expire := writes[a].entry.expire))
       <==> (|| entry.message.None?
             || entry.length == entry.message.value.Size() % 0x1_0000_0000_0000_0000
             || forall k :: 0 <= k < n - 1 ==> ttl(levels[k]) == 0)
  {
    if entry.message.Some? && entry.length != entry.message.value.Size() % 0x1_0000_0000_0000_0000 {
      if k :| 0 <= k < n - 1 && ttl(levels[k]) != 0 {
        assert Wanted(k, levels, n, entry, ttl) && Received(writes, k);
        var a :| 0 <= a < |writes| && writes[a].level == k;
        assert Given(writes[a].entry, entry, false);
      }
      forall a | 0 <= a < |writes| && forall k :: 0 <= k < n - 1 ==> ttl(levels[k]) == 0
        ensures writes[a].entry == entry.(expire := writes[a].entry.expire)
      {
        assert Received(writes, writes[a].level) && Wanted(writes[a].level, levels, n, entry, ttl);
      }
    }
  }

  ghost predicate Received(writes: seq<Write>, level: nat) {
    exists a :: 0 <= a < |writes| && writes[a].level == level
  }

  /** Which of the first `n` levels are written, once each and in order, and with what. */
  ghost predicate Filled(writes: seq<Write>, levels: seq<string>, n: nat, key: string, entry: Entry, now: uint64,
                         ttl: string -> uint64)
  {
    n <= |levels| && FilledTo(n, writes, levels, n, key, entry, now, ttl)
  }

  ghost predicate FilledTo(i: nat, writes: seq<Write>, levels: seq<string>, n: nat, key: string, entry: Entry,
                           now: uint64, ttl: string -> uint64)
    requires i <= n <= |levels|
  {
    && (forall a, b :: 0 <= a < b < |writes| ==> writes[a].level < writes[b].level)
    && (forall a :: 0 <= a < |writes| ==>
          && writes[a].level < i && writes[a].key == key
          && Given(writes[a].entry, entry, writes[a].level == n - 1)
          && writes[a].entry.expire == Expiry(now, ttl(levels[writes[a].level])))
    && (forall k :: 0 <= k < i ==> (Received(writes, k) <==> Wanted(k, levels, n, entry, ttl)))
  }

  lemma FilledSkip(i: nat, writes: seq<Write>, levels: seq<string>, n: nat, key: string, entry: Entry, now: uint64,
                   ttl: string -> uint64)
    requires i < n <= |levels| && FilledTo(i, writes, levels, n, key, entry, now, ttl)
    requires !Wanted(i, levels, n, entry, ttl)
    ensures FilledTo(i + 1, writes, levels, n, key, entry, now, ttl)
  {
  }

  lemma FilledWrite(i: nat, writes: seq<Write>, levels: seq<string>, n: nat, key: string, entry: Entry, now: uint64,
                    ttl: string -> uint64, w: Write)
    requires i < n <= |levels| && FilledTo(i, writes, levels, n, key, entry, now, ttl)
    requires Wanted(i, levels, n, entry, ttl) && w.level == i && w.key == key
    requires Given(w.entry, entry, i == n - 1) && w.entry.expire == Expiry(now, ttl(levels[i]))
    ensures FilledTo(i + 1, writes + [w], levels, n, key, entry, now, ttl)
  {
    var all := writes + [w];
    assert all[|writes|] == w;
    forall k | 0 <= k < i ensures Received(all, k) <==> Received(writes, k) {
      if a :| 0 <= a < |writes| && writes[a].level == k {
        assert all[a].level == k;
      }
    }
  }

  /** A level is written when it has a lifetime and there is something to give it: a copy needs a
      message, the last level gets the entry itself. */
  predicate Wanted(k: nat, levels: seq<string>, n: nat, entry: Entry, ttl: string -> uint64)
    requires k < n <= |levels|
  {
    ttl(levels[k]) != 0 && (k == n - 1 || entry.message.Some?)
  }

  /** Every considered level with a lifetime receives the entry, exactly when the entry has a message
      or no level before the last has a lifetime. */
  lemma FillReachesAll(writes: seq<Write>, levels: seq<string>, n: nat, key: string, entry: Entry, now: uint64,
                       ttl: string -> uint64)
    requires Filled(writes, levels, n, key, entry, now, ttl)
    ensures (forall k :: 0 <= k < n && ttl(levels[k]) != 0 ==> Received(writes, k))
       <==> entry.message.Some? || (forall k :: 0 <= k < n - 1 ==> ttl(levels[k]) == 0)
  {
    if entry.message.None? {
      if k :| 0 <= k < n - 1 && ttl(levels[k]) != 0 {
        assert !Wanted(k, levels, n, entry, ttl);
        assert !Received(writes, k);
      }
    }
    if entry.message.Some? || (forall k :: 0 <= k < n - 1 ==> ttl(levels[k]) == 0) {
      forall k | 0 <= k < n && ttl(levels[k]) != 0 ensures Received(writes, k) {
        assert Wanted(k, levels, n, entry, ttl);
      }
    }
  }

  /** An entry without a message never reaches the first of two levels. */
  method MessagelessFillExample() returns (writes: seq<Write>)
    ensures !Received(writes, 0) && Received(writes, 1)
  {
    var g := new CacheGetterSetter(["near", "far"]);
    g.SetCacheKey("key");
    var entry, ttl := Entry(None, 0, 0), (level: string) => 1;
    writes := g.InsertCache(entry, 0, ttl);
    assert !Wanted(0, g.levels, 2, entry, ttl) && Wanted(1, g.levels, 2, entry, ttl);
  }

  /** Every entry written expires at now plus its level's lifetime, exactly when that sum fits into 64 bits
      for every level that is written. */
  lemma ExpiriesExact(writes: seq<Write>, levels: seq<string>, n: nat, key: string, entry: Entry, now: uint64,
                      ttl: string -> uint64)
    requires Filled(writes, levels, n, key, entry, now, ttl)
    ensures (forall a :: 0 <= a < |writes| ==> writes[a].entry.expire == now + ttl(levels[writes[a].level]))
       <==> (forall k :: 0 <= k < n && Wanted(k, levels, n, entry, ttl) ==> now + ttl(levels[k]) < TWO_TO_64)
  {
    forall a | 0 <= a < |writes| ensures Wanted(writes[a].level, levels, n, entry, ttl) {
      assert Received(writes, writes[a].level);
    }
    if k :| 0 <= k < n && Wanted(k, levels, n, entry, ttl) && now + ttl(levels[k]) >= TWO_TO_64 {
      assert Received(writes, k);
      var a :| 0 <= a < |writes| && writes[a].level == k;
      assert writes[a].entry.expire == Expiry(now, ttl(levels[k])) != now + ttl(levels[k]);
    }
  }

  /** A lifetime that runs past the end of the clock: the entry has expired before it is written. */
  method WrappedExpiryExample() returns (writes: seq<Write>)
    ensures writes != [] && forall a :: 0 <= a < |writes| ==> writes[a].entry.expire == 0
  {
    var g := new CacheGetterSetter(["near"]);
    g.SetCacheKey("key");
    var entry, ttl := Entry(None, 0, 0), (level: string) => 1;
    writes := g.InsertCache(entry, TWO_TO_64 - 1, ttl);
    assert Wanted(0, g.levels, 1, entry, ttl) && Received(writes, 0);
  }

  // ------------------------------------------------------------------ whole runs

  datatype Call = Key(key: string) | Lookup(callback: bool) | Answer(entry: Option<Entry>) | Cancel

  /** What one more call makes happen: a lookup starts once, with a callback, a key and some level to ask; a
      level answers when it has been asked. */
  function Next(levels: nat, keyed: bool, h: History, call: Call): History {
    match call
    case Key(_) => h
    case Lookup(callback) => if levels > 0 && callback && keyed && !Start(h) then Then(h, Started) else h
    case Answer(entry) => if Awaiting(levels, h) then Then(h, Answered(entry)) else h
    case Cancel => Then(h, Cancelled)
  }

  function Events(levels: nat, calls: seq<Call>): History {
    if calls == [] then Begin
    else
      var front := calls[..|calls| - 1];
      Next(levels, Keyed(front), Events(levels, front), calls[|calls| - 1])
  }

  predicate Keyed(calls: seq<Call>) {
    calls != [] && (calls[|calls| - 1].Key? || Keyed(calls[..|calls| - 1]))
  }

  /** What the caller has been told after these calls. */
  function Told(levels: nat, calls: seq<Call>): seq<Notice> {
    Notices(levels, Events(levels, calls))
  }

  /** Answers come only after the start and from the levels there are. */
  ghost predicate Within(levels: nat, h: History) {
    && (!Start(h) ==> Heard(h) == [] && !Awaiting(levels, h))
    && (levels == 0 ==> !Start(h))
    && |Heard(h)| <= levels
    && (Awaiting(levels, h) && !Cancels(h) ==> |Heard(h)| < levels)
  }

  lemma {:induction false} EventsWithin(levels: nat, calls: seq<Call>)
    ensures Within(levels, Events(levels, calls))
  {
    if calls != [] {
      EventsWithin(levels, calls[..|calls| - 1]);
    }
  }

  /** One more call after the caller has been told changes nothing. */
  lemma ToldOnce(levels: nat, calls: seq<Call>, call: Call)
    requires Told(levels, calls) != []
    ensures Told(levels, calls + [call]) == Told(levels, calls)
  {
    var all := calls + [call];
    assert all[..|calls|] == calls;
    EventsWithin(levels, all);
    var h, after := Events(levels, calls), Events(levels, all);
    if after != h {
      NoticeIsFinal(levels, h, after.last);
    }
  }

  /** Whatever is called after a cancel, the caller is told nothing more. */
  lemma {:induction false} CancelSilences(levels: nat, calls: seq<Call>, later: seq<Call>)
    ensures Told(levels, calls + [Cancel] + later) == Told(levels, calls)
  {
    EventsWithin(levels, calls);
    var events := EventsExtend(levels, calls + [Cancel], later);
    assert (calls + [Cancel])[..|calls|] == calls;
    if levels == 0 {
      EventsWithin(levels, calls + [Cancel] + later);
    } else {
      SilentAfterCancel(levels, Events(levels, calls), events);
    }
  }

  lemma {:induction false} EventsExtend(levels: nat, calls: seq<Call>, later: seq<Call>) returns (events: History)
    ensures Events(levels, calls + later) == Append(Events(levels, calls), events)
  {
    events := Begin;
    if later == [] {
      assert calls + later == calls;
    } else {
      var front := later[..|later| - 1];
      var all := calls + later;
      assert all[..|all| - 1] == calls + front;
      events := EventsExtend(levels, calls, front);
      var h, after := Events(levels, calls + front), Events(levels, all);
      if after != h {
        events := Then(events, after.last);
      }
    }
  }

  /** One call, if it can happen now; `started` is whether a lookup has started. */
  method Perform(g: CacheGetterSetter, call: Call, started: bool) returns (now: bool)
    requires g.Valid() && started == g.started
    modifies g
    ensures g.Valid() && now == g.started && g.hasCacheKey == (old(g.hasCacheKey) || call.Key?)
    ensures g.history == Next(|g.levels|, old(g.hasCacheKey), old(g.history), call)
  {
    now := started;
    match call
    case Key(k) => g.SetCacheKey(k);
    case Lookup(c) =>
      if !started {
        var status := g.LookupCache(c);
        now := status.ONCALL?;
      }
    case Answer(e) => if g.outstanding.Some? { g.OnLevelAnswer(e); }
    case Cancel => g.CancelLookup();
  }

  /** Every run: the calls decide what has happened and what the caller has been told. */
  method Lifetime(levels: seq<string>, calls: seq<Call>) returns (g: CacheGetterSetter)
    ensures g.Valid() && g.levels == levels
    ensures g.history == Events(|levels|, calls)
    ensures g.notices == Told(|levels|, calls) && |g.notices| <= 1
  {
    g := new CacheGetterSetter(levels);
    var started := false;
    for i := 0 to |calls|
      invariant fresh(g) && g.Valid() && g.levels == levels && started == g.started
      invariant g.history == Events(|levels|, calls[..i]) && g.hasCacheKey == Keyed(calls[..i])
    {
      assert calls[..i + 1][..i] == calls[..i];
      started := Perform(g, calls[i], started);
    }
    assert calls[..|calls|] == calls;
    g.NoticesAsPromised();
  }
}
