/** `LocalCache`: sixteen LRU caches, chosen by the first byte of the key, acting as one map. */
module LocalCaches {
  import opened Common
  import opened CacheEntries
  import opened LruCache

  const SHARDS: nat := 16
  const DEFAULT_MAX_CACHE_SIZE: uint64 := 128 * 1024 * 1024

  /** The first byte, zero for the empty key. */
  function ShardOf(key: string): (i: nat)
    ensures i < SHARDS
  {
    if key == "" then 0 else (key[0] as int % 256) % SHARDS
  }

  datatype Write = Inserted(key: string, entry: Entry) | Removed(key: string)

  /** The value last inserted for the key and not removed since. */
  function LastWrite(log: seq<Write>, key: string): Option<Entry> {
    if log == [] then None
    else
      var w := log[|log| - 1];
      if w.key != key then LastWrite(log[..|log| - 1], key)
      else if w.Inserted? then Some(w.entry) else None
  }

  /** Everything shard `i` holds belongs there and is the last value written for its key. */
  ghost predicate Current(log: seq<Write>, i: nat, c: seq<Item>) {
    forall x :: x in c ==> ShardOf(x.key) == i && LastWrite(log, x.key) == Some(x.entry)
  }

  lemma {:induction false} WithoutItems(c: seq<Item>, key: string)
    requires Distinct(c)
    ensures forall x :: x in Without(c, key) ==> x in c && x.key != key
  {
    if c != [] && c[0].key != key {
      assert forall i :: 0 <= i < |c[1..]| ==> c[1..][i] == c[i + 1];
      WithoutItems(c[1..], key);
    } else if c != [] {
      assert forall i :: 0 < i < |c| ==> c[0].key != c[i].key;
    }
  }

  lemma {:induction false} GetItem(c: seq<Item>, key: string)
    ensures Get(c, key).Some? ==> Item(key, Get(c, key).value) in c
  {
    if c != [] && c[0].key != key {
      GetItem(c[1..], key);
    }
  }

  lemma ItemGet(c: seq<Item>, key: string)
    requires Distinct(c)
    ensures forall e :: Item(key, e) in c ==> Get(c, key) == Some(e)
  {
    forall e | Item(key, e) in c ensures Get(c, key) == Some(e) {
      var i :| 0 <= i < |c| && c[i] == Item(key, e);
      WithoutAt(c, i);
    }
  }

  /** Everything but the key's item stays. */
  lemma {:induction false} WithoutExactly(c: seq<Item>, key: string)
    requires Distinct(c)
    ensures forall x :: x in Without(c, key) <==> x in c && x.key != key
  {
    WithoutItems(c, key);
    if c != [] && c[0].key != key {
      assert forall i :: 0 <= i < |c[1..]| ==> c[1..][i] == c[i + 1];
      WithoutExactly(c[1..], key);
    }
  }

  lemma WithoutAbsentItem(c: seq<Item>, key: string)
    requires Distinct(c)
    ensures forall x :: x in c && x.key == key ==> Get(c, key) == Some(x.entry)
  {
    ItemGet(c, key);
    forall x | x in c && x.key == key ensures Get(c, key) == Some(x.entry) {
      assert Item(key, x.entry) == x;
    }
  }

  lemma ModSixteen(x: int, y: int)
    ensures (x % 256) % 16 == x % 16
    ensures x % 16 == y % 16 <==> (x - y) % 16 == 0
  {
  }

  /** Keys share a shard exactly when their first bytes, zero for none, agree modulo 16. */
  lemma SameShard(a: string, b: string)
    ensures ShardOf(a) == ShardOf(b) <==>
      ((if a == "" then 0 else a[0] as int) - (if b == "" then 0 else b[0] as int)) % 16 == 0
  {
    var x, y := if a == "" then 0 else a[0] as int, if b == "" then 0 else b[0] as int;
    ModSixteen(x, y);
    ModSixteen(y, x);
    assert ShardOf(a) == x % 256 % 16 && ShardOf(b) == y % 256 % 16;
  }

  /** A write to one key leaves what is current for the others. */
  lemma WriteKeepsOthers(log: seq<Write>, w: Write, key: string)
    ensures LastWrite(log + [w], key)
         == if w.key != key then LastWrite(log, key) else if w.Inserted? then Some(w.entry) else None
  {
    assert (log + [w])[..|log|] == log;
  }

  lemma CurrentAfterWrite(log: seq<Write>, w: Write, i: nat, c: seq<Item>)
    requires Current(log, i, c)
    requires forall x :: x in c ==> x.key != w.key
    ensures Current(log + [w], i, c)
  {
    forall x | x in c ensures ShardOf(x.key) == i && LastWrite(log + [w], x.key) == Some(x.entry) {
      WriteKeepsOthers(log, w, x.key);
    }
  }

  /** `n` times the share of one shard. */
  function Shares(n: nat, share: nat): nat {
    if n == 0 then 0 else share + Shares(n - 1, share)
  }

  lemma {:induction false} SharesProduct(n: nat, share: nat)
    ensures Shares(n, share) == n * share
  {
    if n > 0 { SharesProduct(n - 1, share); }
  }

  lemma ShareBound(max: uint64)
    ensures max / SHARDS < TWO_TO_64 / SHARDS
  {
    assert max / 16 < 0x1000_0000_0000_0000;
  }

  class LocalCache {
    const shards: seq<LruCacheImpl>
    const maxCacheSize: uint64
    /** Every insertion and removal so far. */
    ghost var log: seq<Write>

    ghost predicate Valid()
      reads this, shards
    {
      && |shards| == SHARDS
      && (forall i, j :: 0 <= i < j < SHARDS ==> shards[i] != shards[j])
      && (forall i :: 0 <= i < SHARDS ==> Shard(i))
    }

    ghost predicate Shard(i: nat)
      requires i < |shards|
      reads this`log, shards[i]
    {
      && shards[i].Valid()
      && shards[i].maxLength == maxCacheSize / SHARDS
      && Current(log, i, shards[i].contents)
    }

    /** Bytes stored in the shards from `i` on. */
    ghost function Stored(i: nat): nat
      requires i <= |shards|
      reads shards
      decreases |shards| - i
    {
      if i == |shards| then 0 else Total(shards[i].contents) + Stored(i + 1)
    }

    /** No shard stores more than its maximum. */
    ghost predicate Bounded()
      reads shards
    {
      forall i :: 0 <= i < |shards| ==> shards[i].Bounded()
    }

    constructor (configured: Option<uint64>)
      ensures Valid() && log == []
      ensures maxCacheSize == if configured.Some? then configured.value else 134_217_728
      ensures |shards| == 16 && forall i :: 0 <= i < 16 ==> shards[i].maxLength == maxCacheSize / 16
      ensures fresh(shards) && Bounded()
      ensures forall i :: 0 <= i < SHARDS ==> shards[i].contents == []
    {
      var max := if configured.Some? then configured.value else DEFAULT_MAX_CACHE_SIZE;
      var made: seq<LruCacheImpl> := [];
      for i := 0 to SHARDS
        invariant |made| == i
        invariant forall k :: 0 <= k < i ==> fresh(made[k]) && made[k].Valid() && made[k].Bounded()
        invariant forall k :: 0 <= k < i ==> made[k].maxLength == max / SHARDS && made[k].contents == []
        invariant forall j, k :: 0 <= j < k < i ==> made[j] != made[k]
      {
        var shard := new LruCacheImpl(max / SHARDS);
        made := made + [shard];
      }
      shards := made;
      maxCacheSize := max;
      log := [];
    }

    /** The configured maximum bounds what all shards store together. */
    lemma StoredWithinMaximum()
      requires Valid() && Bounded()
      ensures Stored(0) <= maxCacheSize
    {
      StoredFrom(0);
      SharesProduct(SHARDS, maxCacheSize / SHARDS);
    }

    lemma {:induction false} StoredFrom(i: nat)
      requires Valid() && Bounded() && i <= SHARDS
      ensures Stored(i) <= Shares(SHARDS - i, maxCacheSize / SHARDS)
      decreases SHARDS - i
    {
      if i < SHARDS {
        assert Shard(i) && shards[i].Bounded();
        StoredFrom(i + 1);
      }
    }

    /** Nothing, or a copy of the last value inserted for the key, not removed since and unexpired; never nothing
        while such a value is still stored and has a message. */
    method LookupCache(key: string, now: uint64) returns (r: Option<Entry>)
      requires Valid()
      modifies shards[ShardOf(key)]
      ensures Valid() && (old(Bounded()) ==> Bounded() && Stored(0) <= maxCacheSize)
      ensures r.Some? ==>
        && LastWrite(log, key).Some?
        && now < LastWrite(log, key).value.expire
        && r == LastWrite(log, key).value.Copy()
      ensures forall e ::
        Item(key, e) in old(shards[ShardOf(key)].contents) && now < e.expire && e.message.Some? ==>
          r.Some? && r.value.message == e.message
      ensures forall x :: x in shards[ShardOf(key)].contents <==>
        x in old(shards[ShardOf(key)].contents) && !(x.key == key && now >= x.entry.expire)
      ensures r == Hit(old(shards[ShardOf(key)].contents), key, now)
      ensures shards[ShardOf(key)].contents == Touched(old(shards[ShardOf(key)].contents), key, now)
    {
      var i := ShardOf(key);
      assert Shard(i);
      ghost var c := shards[i].contents;
      GetItem(c, key);
      ItemGet(c, key);
      WithoutItems(c, key);
      WithoutExactly(c, key);
      WithoutAbsentItem(c, key);
      r := shards[i].Lookup(key, now);
      assert Current(log, i, shards[i].contents);
      assert forall j :: 0 <= j < SHARDS && j != i ==> old(Shard(j)) && Shard(j);
      Untouched(i);
    }

    /** The value is last for its key, and stays unless it alone is larger than its shard. The maximum is
        kept exactly while the bytes of the shard and of the value fit into 64 bits together, which they do
        for every value of at most 15/16 of 2^64 bytes. */
    method InsertCache(key: string, value: Entry)
      requires Valid()
      modifies this`log, shards[ShardOf(key)]
      ensures Valid()
      ensures old(Bounded()) ==>
        (Bounded() <==> value.length + Total(Without(old(shards[ShardOf(key)].contents), key)) < TWO_TO_64)
      ensures old(Bounded()) && value.length <= TWO_TO_64 - TWO_TO_64 / SHARDS ==> Bounded()
      ensures Bounded() ==> Stored(0) <= maxCacheSize
      ensures log == old(log) + [Inserted(key, value)]
      ensures shards[ShardOf(key)].contents
           == Drained([Item(key, value)] + Without(old(shards[ShardOf(key)].contents), key), maxCacheSize / SHARDS)
      ensures value.length <= maxCacheSize / SHARDS ==> Get(shards[ShardOf(key)].contents, key) == Some(value)
      ensures value.length <= maxCacheSize / SHARDS ==> Item(key, value) in shards[ShardOf(key)].contents
    {
      var i := ShardOf(key);
      assert Shard(i);
      ghost var kept := Without(shards[i].contents, key);
      WithoutItems(shards[i].contents, key);
      ghost var w := Inserted(key, value);
      CurrentAfterWrite(log, w, i, kept);
      WriteKeepsOthers(log, w, key);
      ghost var all := [Item(key, value)] + kept;
      assert Current(log + [w], i, all);
      DrainedIsPrefix(all, shards[i].maxLength);
      OtherShards(i, w);
      WithoutTotal(shards[i].contents, key);
      ShareBound(maxCacheSize);
      shards[i].Insert(key, value);
      log := log + [w];
      assert forall x :: x in shards[i].contents ==> x in all;
      assert forall j :: 0 <= j < SHARDS && j != i ==> old(Shard(j)) && Shard(j);
      Untouched(i);
    }

    method RemoveCache(key: string)
      requires Valid()
      modifies this`log, shards[ShardOf(key)]
      ensures Valid() && (old(Bounded()) ==> Bounded() && Stored(0) <= maxCacheSize)
      ensures log == old(log) + [Removed(key)]
      ensures shards[ShardOf(key)].contents == Without(old(shards[ShardOf(key)].contents), key)
      ensures forall x :: x in shards[ShardOf(key)].contents <==>
        x in old(shards[ShardOf(key)].contents) && x.key != key
      ensures LastWrite(log, key) == None
    {
      var i := ShardOf(key);
      assert Shard(i);
      WithoutItems(shards[i].contents, key);
      WithoutExactly(shards[i].contents, key);
      ghost var w := Write.Removed(key);
      CurrentAfterWrite(log, w, i, Without(shards[i].contents, key));
      WriteKeepsOthers(log, w, key);
      OtherShards(i, w);
      shards[i].Remove(key);
      log := log + [w];
      assert forall j :: 0 <= j < SHARDS && j != i ==> old(Shard(j)) && Shard(j);
      Untouched(i);
    }

    /** A write to shard `i` is current for no key of another shard. */
    lemma OtherShards(i: nat, w: Write)
      requires i == ShardOf(w.key) && Valid()
      ensures forall j :: 0 <= j < SHARDS && j != i ==> Current(log + [w], j, shards[j].contents)
    {
      forall j | 0 <= j < SHARDS && j != i ensures Current(log + [w], j, shards[j].contents) {
        assert Shard(j);
        CurrentAfterWrite(log, w, j, shards[j].contents);
      }
    }

    /** Shard by shard, the cache is valid. */
    lemma Untouched(i: nat)
      requires i < SHARDS == |shards| && Shard(i)
      requires forall j, k :: 0 <= j < k < SHARDS ==> shards[j] != shards[k]
      requires forall j :: 0 <= j < SHARDS && j != i ==> Shard(j)
      ensures Valid() && (Bounded() ==> Stored(0) <= maxCacheSize)
    {
      if Bounded() {
        StoredWithinMaximum();
      }
    }
  }
}
