/** `LruCacheImpl`: a recency list, a dictionary from keys to list positions and entries, and a byte
    counter. A list position is the identity of its node, as a `std::list` iterator is. */
module LruCache {
  import opened Common
  import opened CacheEntries

  datatype Node = Node(id: nat, key: string)
  datatype Slot = Slot(position: nat, entry: Entry)

  // ------------------------------------------------------------------ the cache as one list

  /** What the cache holds, most recently used first. */
  datatype Item = Item(key: string, entry: Entry)

  function Total(c: seq<Item>): nat {
    if c == [] then 0 else c[0].entry.length + Total(c[1..])
  }

  /** What a 64-bit counter makes of the total. */
  function Counter(c: seq<Item>): uint64 {
    Wrap64(Total(c))
  }

  ghost predicate Distinct(c: seq<Item>) {
    forall i, j :: 0 <= i < j < |c| ==> c[i].key != c[j].key
  }

  function Without(c: seq<Item>, key: string): seq<Item> {
    if c == [] then []
    else if c[0].key == key then c[1..]
    else [c[0]] + Without(c[1..], key)
  }

  function Get(c: seq<Item>, key: string): Option<Entry> {
    if c == [] then None else if c[0].key == key then Some(c[0].entry) else Get(c[1..], key)
  }

  /** What a lookup returns: a copy of an unexpired entry. */
  function Hit(c: seq<Item>, key: string, now: uint64): Option<Entry> {
    match Get(c, key)
    case None => None
    case Some(e) => if now >= e.expire then None else e.Copy()
  }

  /** What a lookup leaves: a hit moves to the front, an expired entry is gone. */
  function Touched(c: seq<Item>, key: string, now: uint64): seq<Item> {
    match Get(c, key)
    case None => c
    case Some(e) => if now >= e.expire then Without(c, key) else [Item(key, e)] + Without(c, key)
  }

  /** How many items one round of eviction takes from the end. */
  function Batch(n: nat): (b: nat)
    ensures n > 0 ==> 0 < b <= n
    ensures n > 1 ==> b < n
  {
    if n / 10 > 1 then n / 10 else 1
  }

  /** Rounds of eviction until the counter fits. */
  function Drained(c: seq<Item>, max: nat): seq<Item>
    decreases |c|
  {
    if Counter(c) <= max then c else Drained(c[..|c| - Batch(|c|)], max)
  }

  /** Eviction keeps a prefix of the recency order whose counter fits, takes nothing when nothing must go,
      never goes a round further than it has to, and spares the newest item whenever that one fits. */
  lemma {:induction false} DrainedIsPrefix(c: seq<Item>, max: nat)
    ensures |Drained(c, max)| <= |c| && Drained(c, max) == c[..|Drained(c, max)|]
    ensures Counter(Drained(c, max)) <= max
    ensures Counter(c) <= max ==> Drained(c, max) == c
    ensures Drained(c, max) != c ==>
      exists n :: 0 < n <= |c| && Counter(c[..n]) > max && |Drained(c, max)| == n - if n >= 20 then n / 10 else 1
    ensures c != [] && c[0].entry.length <= max ==> Drained(c, max) != []
    decreases |c|
  {
    if Counter(c) > max {
      var d := c[..|c| - Batch(|c|)];
      DrainedIsPrefix(d, max);
      var r := Drained(c, max);
      assert d[..|r|] == c[..|r|];
      if r == d {
        assert c[..|c|] == c;
      } else {
        var n :| 0 < n <= |d| && Counter(d[..n]) > max && |r| == n - if n >= 20 then n / 10 else 1;
        assert d[..n] == c[..n];
      }
      if |c| == 1 {
        assert c[1..] == [] && Total(c) == c[0].entry.length;
      }
    }
  }

  lemma {:induction false} PrefixTotal(c: seq<Item>, n: nat)
    requires n <= |c|
    ensures Total(c[..n]) <= Total(c)
  {
    if n > 0 {
      assert c[..n][1..] == c[1..][..n - 1];
      PrefixTotal(c[1..], n - 1);
    }
  }

  /** What follows a new item is within the maximum. Then eviction brings the bytes that are really stored
      within it, exactly when the sum of all has not wrapped around; a sum that has makes it do nothing. */
  lemma DrainedFitsExactly(item: Item, c: seq<Item>, max: uint64)
    requires Total(c) <= max
    ensures Total(Drained([item] + c, max)) <= max <==> item.entry.length + Total(c) < TWO_TO_64
    ensures item.entry.length + Total(c) >= TWO_TO_64 ==> Drained([item] + c, max) == [item] + c
  {
    var all := [item] + c;
    TotalPush(item, c);
    if Total(all) < TWO_TO_64 {
      DrainedIsPrefix(all, max);
      PrefixTotal(all, |Drained(all, max)|);
    } else {
      assert Counter(all) == Total(all) - TWO_TO_64 < Total(c);
    }
  }

  function DropAt<T>(s: seq<T>, i: nat): (r: seq<T>)
    requires i < |s|
    ensures |r| == |s| - 1
    ensures forall j :: 0 <= j < i ==> r[j] == s[j]
    ensures forall j :: i <= j < |r| ==> r[j] == s[j + 1]
  {
    s[..i] + s[i + 1..]
  }

  /** Taking out the item at index `i`. */
  lemma {:induction false} WithoutAt(c: seq<Item>, i: nat)
    requires Distinct(c) && i < |c|
    ensures Without(c, c[i].key) == DropAt(c, i)
    ensures Get(c, c[i].key) == Some(c[i].entry)
  {
    if i > 0 {
      assert c[0].key != c[i].key;
      WithoutAt(c[1..], i - 1);
      assert c[1..][i - 1] == c[i];
      assert DropAt(c, i) == [c[0]] + DropAt(c[1..], i - 1);
    }
  }

  /** Moving the front item to the front changes nothing. */
  lemma FrontKept(c: seq<Item>)
    requires c != []
    ensures [c[0]] + Without(c, c[0].key) == c
  {
  }

  lemma TotalPush(item: Item, c: seq<Item>)
    ensures Total([item] + c) == item.entry.length + Total(c)
  {
    assert ([item] + c)[1..] == c;
  }

  lemma {:induction false} TotalAt(c: seq<Item>, i: nat)
    requires i < |c|
    ensures Total(c) == Total(DropAt(c, i)) + c[i].entry.length
  {
    if i == 0 {
      assert DropAt(c, 0) == c[1..];
    } else {
      TotalAt(c[1..], i - 1);
      assert DropAt(c, i) == [c[0]] + DropAt(c[1..], i - 1);
      TotalPush(c[0], DropAt(c[1..], i - 1));
    }
  }

  lemma {:induction false} WithoutTotal(c: seq<Item>, key: string)
    ensures Total(Without(c, key)) <= Total(c)
  {
    if c != [] && c[0].key != key {
      WithoutTotal(c[1..], key);
      TotalPush(c[0], Without(c[1..], key));
    }
  }

  /** The counter follows, wrapped or not, when the item at index `i` goes. */
  lemma {:induction false} CounterAt(c: seq<Item>, i: nat)
    requires i < |c|
    ensures Counter(DropAt(c, i)) == Wrap64(Counter(c) - c[i].entry.length)
    ensures Total(DropAt(c, i)) <= Total(c)
    ensures Total(c) < TWO_TO_64 ==> Counter(DropAt(c, i)) == Total(DropAt(c, i)) <= Counter(c)
  {
    TotalAt(c, i);
    var length: int := c[i].entry.length;
    WrapTwice(Total(c), -length);
  }

  lemma {:induction false} WithoutAbsent(c: seq<Item>, key: string)
    requires forall i :: 0 <= i < |c| ==> c[i].key != key
    ensures Without(c, key) == c && Get(c, key) == None
  {
    if c != [] { WithoutAbsent(c[1..], key); }
  }

  // ------------------------------------------------------------------ list nodes

  /** `list::erase` at a position. */
  function Erase(list: seq<Node>, id: nat): seq<Node> {
    if list == [] then []
    else if list[0].id == id then list[1..]
    else [list[0]] + Erase(list[1..], id)
  }

  predicate Differ(list: seq<Node>, i: nat, j: nat)
    requires i < |list| && j < |list|
  {
    list[i].id != list[j].id
  }

  ghost predicate DistinctIds(list: seq<Node>) {
    forall i, j {:trigger Differ(list, i, j)} :: 0 <= i < j < |list| ==> Differ(list, i, j)
  }

  predicate Issued(list: seq<Node>, next: nat, i: nat)
    requires i < |list|
  {
    list[i].id < next
  }

  ghost predicate AllIssued(list: seq<Node>, next: nat) {
    forall i {:trigger Issued(list, next, i)} :: 0 <= i < |list| ==> Issued(list, next, i)
  }

  lemma IssuedDrop(list: seq<Node>, next: nat, i: nat)
    requires AllIssued(list, next) && i < |list|
    ensures AllIssued(DropAt(list, i), next)
  {
    var l := DropAt(list, i);
    forall j | 0 <= j < |l| ensures Issued(l, next, j) {
      assert Issued(list, next, if j < i then j else j + 1);
    }
  }

  lemma IssuedPush(list: seq<Node>, next: nat, key: string)
    requires AllIssued(list, next)
    ensures AllIssued([Node(next, key)] + list, next + 1)
    ensures forall i :: 0 <= i < |list| ==> list[i].id != next
  {
    var l, m := [Node(next, key)] + list, next + 1;
    forall j | 0 <= j < |l| ensures Issued(l, m, j) {
      if j > 0 { assert Issued(list, next, j - 1); }
    }
    forall i | 0 <= i < |list| ensures list[i].id != next {
      assert Issued(list, next, i);
    }
  }

  lemma {:induction false} EraseAt(list: seq<Node>, i: nat)
    requires i < |list| && DistinctIds(list)
    ensures Erase(list, list[i].id) == DropAt(list, i)
  {
    if i > 0 {
      assert Differ(list, 0, i);
      forall j, k | 0 <= j < k < |list[1..]| ensures Differ(list[1..], j, k) {
        assert Differ(list, j + 1, k + 1);
      }
      EraseAt(list[1..], i - 1);
      assert list[1..][i - 1] == list[i];
      assert DropAt(list, i) == [list[0]] + DropAt(list[1..], i - 1);
    }
  }

  /** The list and the dictionary hold exactly the items `c`, in this order, and every stored position
      is that of the key's own node. */
  ghost predicate Holds(c: seq<Item>, list: seq<Node>, dict: map<string, Slot>) {
    && |c| == |list|
    && Distinct(c)
    && DistinctIds(list)
    && (forall i {:trigger HoldsAt(c, list, dict, i)} :: 0 <= i < |list| ==> HoldsAt(c, list, dict, i))
    && (forall k {:trigger Occurs(c, k)} :: k in dict ==> Occurs(c, k))
  }

  ghost predicate HoldsAt(c: seq<Item>, list: seq<Node>, dict: map<string, Slot>, i: nat)
    requires i < |c| == |list|
  {
    && list[i].key == c[i].key
    && c[i].key in dict
    && dict[c[i].key] == Slot(list[i].id, c[i].entry)
  }

  ghost predicate Occurs(c: seq<Item>, key: string) {
    exists i :: 0 <= i < |c| && c[i].key == key
  }

  lemma {:induction false} KeySetSize(c: seq<Item>)
    requires Distinct(c)
    ensures |set i | 0 <= i < |c| :: c[i].key| == |c|
  {
    if c != [] {
      var front := c[..|c| - 1];
      KeySetSize(front);
      assert (set i | 0 <= i < |c| :: c[i].key) == (set i | 0 <= i < |front| :: front[i].key) + {c[|c| - 1].key};
    }
  }

  /** The list and the dictionary have the same size. */
  lemma SizesAgree(c: seq<Item>, list: seq<Node>, dict: map<string, Slot>)
    requires Holds(c, list, dict)
    ensures |list| == |dict| == |c|
  {
    KeySetSize(c);
    forall k ensures k in dict <==> k in (set i | 0 <= i < |c| :: c[i].key) {
      if k in dict { assert Occurs(c, k); }
      if i :| 0 <= i < |c| && c[i].key == k { assert HoldsAt(c, list, dict, i); }
    }
    assert dict.Keys == set i | 0 <= i < |c| :: c[i].key;
  }

  /** Taking out the key at index `i`. */
  lemma RemovedHolds(c: seq<Item>, list: seq<Node>, dict: map<string, Slot>, i: nat)
    requires Holds(c, list, dict) && i < |c|
    ensures Holds(DropAt(c, i), DropAt(list, i), dict - {c[i].key})
  {
    var c', l', d' := DropAt(c, i), DropAt(list, i), dict - {c[i].key};
    forall j, k | 0 <= j < k < |l'| ensures Differ(l', j, k) {
      assert Differ(list, if j < i then j else j + 1, if k < i then k else k + 1);
    }
    forall j | 0 <= j < |l'| ensures HoldsAt(c', l', d', j) {
      var k := if j < i then j else j + 1;
      assert HoldsAt(c, list, dict, k);
      assert c[k].key != c[i].key;
    }
    forall k | k in d' ensures Occurs(c', k) {
      assert Occurs(c, k);
      var j :| 0 <= j < |c| && c[j].key == k;
      var j' := if j < i then j else j - 1;
      assert c'[j'].key == k;
    }
  }

  /** A new key at the front. */
  lemma PushedHolds(c: seq<Item>, list: seq<Node>, dict: map<string, Slot>, key: string, slot: Slot)
    requires Holds(c, list, dict) && key !in dict
    requires forall i :: 0 <= i < |list| ==> list[i].id != slot.position
    ensures Holds([Item(key, slot.entry)] + c, [Node(slot.position, key)] + list, dict[key := slot])
  {
    var c', l', d' := [Item(key, slot.entry)] + c, [Node(slot.position, key)] + list, dict[key := slot];
    forall j, k | 0 <= j < k < |l'| ensures Differ(l', j, k) {
      if j > 0 { assert Differ(list, j - 1, k - 1); }
    }
    forall j | 0 <= j < |l'| ensures HoldsAt(c', l', d', j) {
      if j > 0 { assert HoldsAt(c, list, dict, j - 1); }
    }
    forall j | 0 <= j < |c| ensures c[j].key != key { assert HoldsAt(c, list, dict, j); }
    forall k | k in d' ensures Occurs(c', k) {
      if k == key {
        assert c'[0].key == k;
      } else {
        assert Occurs(c, k);
        var j :| 0 <= j < |c| && c[j].key == k;
        assert c'[j + 1].key == k;
      }
    }
  }

  /** The key at index `i` moved to a new node at the front. */
  lemma MovedHolds(c: seq<Item>, list: seq<Node>, dict: map<string, Slot>, i: nat, id: nat)
    requires Holds(c, list, dict) && i < |c|
    requires forall j :: 0 <= j < |list| ==> list[j].id != id
    ensures Holds([c[i]] + DropAt(c, i), [Node(id, c[i].key)] + DropAt(list, i), dict[c[i].key := Slot(id, c[i].entry)])
  {
    RemovedHolds(c, list, dict, i);
    PushedHolds(DropAt(c, i), DropAt(list, i), dict - {c[i].key}, c[i].key, Slot(id, c[i].entry));
    assert (dict - {c[i].key})[c[i].key := Slot(id, c[i].entry)] == dict[c[i].key := Slot(id, c[i].entry)];
  }

  lemma IndexOf(c: seq<Item>, list: seq<Node>, dict: map<string, Slot>, key: string) returns (i: nat)
    requires Holds(c, list, dict) && key in dict
    ensures i < |c| && c[i].key == key && HoldsAt(c, list, dict, i)
  {
    assert Occurs(c, key);
    i :| 0 <= i < |c| && c[i].key == key;
    assert HoldsAt(c, list, dict, i);
  }

  /** A node with the id of the first one is the first one. */
  lemma FrontIndex(c: seq<Item>, list: seq<Node>, dict: map<string, Slot>, i: nat)
    requires Holds(c, list, dict) && i < |list| && list[i].id == list[0].id
    ensures i == 0
  {
    if i > 0 {
      var different := Differ(list, 0, i);
    }
  }

  /** The key at the end of the list is that of the last item. */
  lemma LastItem(c: seq<Item>, list: seq<Node>, dict: map<string, Slot>)
    requires Holds(c, list, dict) && c != []
    ensures Without(c, list[|list| - 1].key) == c[..|c| - 1]
  {
    assert HoldsAt(c, list, dict, |list| - 1);
    WithoutAt(c, |c| - 1);
    assert DropAt(c, |c| - 1) == c[..|c| - 1];
  }

  lemma AbsentKeys(c: seq<Item>, list: seq<Node>, dict: map<string, Slot>, key: string)
    requires Holds(c, list, dict) && key !in dict
    ensures forall i :: 0 <= i < |c| ==> c[i].key != key
  {
    forall i | 0 <= i < |c| ensures c[i].key != key { assert HoldsAt(c, list, dict, i); }
  }

  lemma Absent(c: seq<Item>, list: seq<Node>, dict: map<string, Slot>, key: string)
    requires Holds(c, list, dict) && key !in dict
    ensures Without(c, key) == c && Get(c, key) == None
  {
    AbsentKeys(c, list, dict, key);
    WithoutAbsent(c, key);
  }

  // ------------------------------------------------------------------ recency

  /** When the key was last used, -1 if never. */
  function LastUse(uses: seq<string>, key: string): (i: int)
    ensures -1 <= i < |uses|
    ensures i >= 0 ==> uses[i] == key
    ensures forall j :: i < j < |uses| ==> uses[j] != key
  {
    if uses == [] then -1
    else if uses[|uses| - 1] == key then |uses| - 1
    else LastUse(uses[..|uses| - 1], key)
  }

  predicate UsedLater(c: seq<Item>, uses: seq<string>, i: nat, j: nat)
    requires i < |c| && j < |c|
  {
    LastUse(uses, c[i].key) > LastUse(uses, c[j].key)
  }

  /** The items are in the order of their last uses, the latest first. */
  ghost predicate ByRecency(c: seq<Item>, uses: seq<string>) {
    forall i, j {:trigger UsedLater(c, uses, i, j)} :: 0 <= i < j < |c| ==> UsedLater(c, uses, i, j)
  }

  /** Using a key makes it later than all others and changes nothing between those. */
  lemma LastUseAppend(uses: seq<string>, used: string, key: string)
    ensures LastUse(uses + [used], key) == if key == used then |uses| else LastUse(uses, key)
  {
    assert (uses + [used])[..|uses|] == uses;
  }

  lemma RecencyDrop(c: seq<Item>, uses: seq<string>, i: nat)
    requires ByRecency(c, uses) && i < |c|
    ensures ByRecency(DropAt(c, i), uses)
  {
    var d := DropAt(c, i);
    forall j, k | 0 <= j < k < |d| ensures UsedLater(d, uses, j, k) {
      assert UsedLater(c, uses, if j < i then j else j + 1, if k < i then k else k + 1);
    }
  }

  lemma RecencyPush(c: seq<Item>, uses: seq<string>, item: Item)
    requires ByRecency(c, uses) && forall i :: 0 <= i < |c| ==> c[i].key != item.key
    ensures ByRecency([item] + c, uses + [item.key])
  {
    var d, after := [item] + c, uses + [item.key];
    forall j, k | 0 <= j < k < |d| ensures UsedLater(d, after, j, k) {
      LastUseAppend(uses, item.key, d[j].key);
      LastUseAppend(uses, item.key, d[k].key);
      if j > 0 { assert UsedLater(c, uses, j - 1, k - 1); }
    }
  }

  /** Using the front item again leaves the order right. */
  lemma RecencyFront(c: seq<Item>, uses: seq<string>)
    requires ByRecency(c, uses) && Distinct(c) && c != []
    ensures ByRecency(c, uses + [c[0].key])
  {
    RecencyDrop(c, uses, 0);
    assert DropAt(c, 0) == c[1..] && [c[0]] + c[1..] == c;
    RecencyPush(c[1..], uses, c[0]);
  }

  /** What a prefix leaves behind was used before everything in it. */
  lemma PrefixIsLater(c: seq<Item>, uses: seq<string>, n: nat)
    requires ByRecency(c, uses) && n <= |c|
    ensures forall x, y :: x in c[..n] && y in c[n..] ==> LastUse(uses, x.key) > LastUse(uses, y.key)
  {
    forall x, y | x in c[..n] && y in c[n..] ensures LastUse(uses, x.key) > LastUse(uses, y.key) {
      var i :| 0 <= i < n && c[..n][i] == x;
      var j :| 0 <= j < |c| - n && c[n..][j] == y;
      assert UsedLater(c, uses, i, n + j);
    }
  }

  ghost predicate Coherent(c: seq<Item>, list: seq<Node>, dict: map<string, Slot>, next: nat, counter: uint64,
                           uses: seq<string>)
  {
    Holds(c, list, dict) && AllIssued(list, next) && counter == Counter(c) && ByRecency(c, uses)
  }

  /** What is left once a key has gone. */
  lemma RemovedCoherent(c: seq<Item>, list: seq<Node>, dict: map<string, Slot>, next: nat, counter: uint64,
                        uses: seq<string>, key: string)
    returns (c': seq<Item>, list': seq<Node>, counter': uint64)
    requires Coherent(c, list, dict, next, counter, uses) && key in dict
    ensures Coherent(c', list', dict - {key}, next, counter', uses)
    ensures c' == Without(c, key) && list' == Erase(list, dict[key].position)
    ensures counter' == Wrap64(counter - dict[key].entry.length)
    ensures Total(c') <= Total(c) && (Total(c) < TWO_TO_64 ==> counter' == Total(c') <= counter)
  {
    var i := IndexOf(c, list, dict, key);
    RemovedHolds(c, list, dict, i);
    EraseAt(list, i);
    WithoutAt(c, i);
    CounterAt(c, i);
    RecencyDrop(c, uses, i);
    IssuedDrop(list, next, i);
    c', list', counter' := DropAt(c, i), DropAt(list, i), Counter(DropAt(c, i));
  }

  /** What is there once a key has been moved to the front. */
  lemma MovedCoherent(c: seq<Item>, list: seq<Node>, dict: map<string, Slot>, next: nat, counter: uint64,
                      uses: seq<string>, key: string)
    returns (c': seq<Item>)
    requires Coherent(c, list, dict, next, counter, uses) && key in dict
    ensures
      var slot := Slot(next, dict[key].entry);
      Coherent(c', [Node(next, key)] + Erase(list, dict[key].position), dict[key := slot], next + 1, counter,
               uses + [key])
    ensures c' == [Item(key, dict[key].entry)] + Without(c, key) && Total(c') == Total(c)
  {
    var i := IndexOf(c, list, dict, key);
    IssuedPush(list, next, key);
    IssuedDrop(list, next, i);
    IssuedPush(DropAt(list, i), next, key);
    MovedHolds(c, list, dict, i, next);
    TotalAt(c, i);
    TotalPush(c[i], DropAt(c, i));
    EraseAt(list, i);
    WithoutAt(c, i);
    RecencyDrop(c, uses, i);
    RecencyPush(DropAt(c, i), uses, c[i]);
    c' := [c[i]] + DropAt(c, i);
  }

  // ------------------------------------------------------------------ the class

  class LruCacheImpl {
    const maxLength: uint64
    var list: seq<Node>
    var dict: map<string, Slot>
    var cacheLength: uint64
    /** The identity the next list node gets. */
    var nextId: nat

    /** What the cache holds, most recently used first. */
    ghost var contents: seq<Item>
    /** The keys of all insertions and hits so far. */
    ghost var uses: seq<string>

    /** List, dictionary and counter agree; the counter is modulo 2^64. */
    ghost predicate Valid()
      reads this
    {
      Coherent(contents, list, dict, nextId, cacheLength, uses)
    }

    /** The bytes really stored are within the maximum. */
    ghost predicate Bounded()
      reads this`contents
    {
      Total(contents) <= maxLength
    }

    constructor (maxLength: uint64)
      ensures Valid() && Bounded() && this.maxLength == maxLength && contents == [] && uses == []
    {
      this.maxLength := maxLength;
      uses := [];
      list, dict, cacheLength, nextId, contents := [], map[], 0, 0, [];
    }

    method RemoveImpl(key: string)
      requires Valid()
      modifies this`list, this`dict, this`cacheLength, this`contents
      ensures Valid() && contents == Without(old(contents), key)
      ensures dict == old(dict) - {key} && Total(contents) <= Total(old(contents))
      ensures old(Bounded()) ==> Bounded() && cacheLength == Total(contents) <= old(cacheLength)
    {
      if key !in dict {
        Absent(contents, list, dict, key);
        assert dict - {key} == dict;
        return;
      }
      RemovePresent(key);
    }

    method RemovePresent(key: string)
      requires Valid() && key in dict
      modifies this`list, this`dict, this`cacheLength, this`contents
      ensures Valid() && contents == Without(old(contents), key)
      ensures dict == old(dict) - {key} && Total(contents) <= Total(old(contents))
      ensures old(Bounded()) ==> Bounded() && cacheLength == Total(contents) <= old(cacheLength)
    {
      ghost var c, l, counter := RemovedCoherent(contents, list, dict, nextId, cacheLength, uses, key);
      cacheLength := Wrap64(cacheLength - dict[key].entry.length);
      list := Erase(list, dict[key].position);
      dict := dict - {key};
      contents := c;
    }

    method Remove(key: string)
      requires Valid()
      modifies this`list, this`dict, this`cacheLength, this`contents
      ensures Valid() && contents == Without(old(contents), key) && dict == old(dict) - {key}
      ensures old(Bounded()) ==> Bounded()
    {
      RemoveImpl(key);
    }

    method DrainLast()
      requires Valid() && contents != []
      modifies this`list, this`dict, this`cacheLength, this`contents
      ensures Valid() && contents == old(contents)[..|old(contents)| - 1]
    {
      LastItem(contents, list, dict);
      var toRemove := list[|list| - 1].key;
      RemoveImpl(toRemove);
    }

    /** Takes up to `number` items from the end of the recency list. */
    method DrainNumber(number: nat) returns (trueNumber: nat)
      requires Valid()
      modifies this`list, this`dict, this`cacheLength, this`contents
      ensures Valid()
      ensures trueNumber == if number < |old(contents)| then number else |old(contents)|
      ensures contents == old(contents)[..|old(contents)| - trueNumber]
    {
      ghost var c := contents;
      trueNumber := 0;
      assert c[..|c|] == c;
      for i := 0 to number
        invariant Valid() && trueNumber == i <= |c|
        invariant contents == c[..|c| - i]
      {
        SizesAgree(contents, list, dict);
        if |dict| == 0 {
          break;
        }
        assert c[..|c| - i][..|c| - i - 1] == c[..|c| - (i + 1)];
        DrainLast();
        trueNumber := trueNumber + 1;
      }
    }

    /** The bytes really stored stay within the maximum exactly while their sum fits into the counter. Whatever
        goes was last used before everything that stays. */
    method Insert(key: string, value: Entry)
      requires Valid()
      modifies this
      ensures Valid() && cacheLength <= maxLength
      ensures contents == Drained([Item(key, value)] + Without(old(contents), key), maxLength)
      ensures old(Bounded()) ==>
        (Bounded() <==> value.length + Total(Without(old(contents), key)) < TWO_TO_64)
      ensures uses == old(uses) + [key]
      ensures
        var all := [Item(key, value)] + Without(old(contents), key);
        |contents| <= |all| && contents == all[..|contents|]
        && forall x, y :: x in contents && y in all[|contents|..] ==> LastUse(uses, x.key) > LastUse(uses, y.key)
    {
      RemoveImpl(key);
      if Bounded() {
        DrainedFitsExactly(Item(key, value), contents, maxLength);
      }
      PushFront(key, value);
      ghost var all := contents;
      DrainedIsPrefix(all, maxLength);
      PrefixIsLater(all, uses, |Drained(all, maxLength)|);
      Recall();
    }

    method PushFront(key: string, value: Entry)
      requires Valid() && key !in dict
      modifies this
      ensures Valid() && contents == [Item(key, value)] + old(contents) && uses == old(uses) + [key]
    {
      AbsentKeys(contents, list, dict, key);
      IssuedPush(list, nextId, key);
      RecencyPush(contents, uses, Item(key, value));
      PushedHolds(contents, list, dict, key, Slot(nextId, value));
      TotalPush(Item(key, value), contents);
      WrapTwice(Total(contents), value.length);
      cacheLength := Wrap64(cacheLength + value.length);
      list := [Node(nextId, key)] + list;
      dict := dict[key := Slot(nextId, value)];
      nextId := nextId + 1;
      contents := [Item(key, value)] + contents;
      uses := uses + [key];
    }

    /** The eviction loop at the end of `insert`. */
    method Recall()
      requires Valid()
      modifies this`list, this`dict, this`cacheLength, this`contents
      ensures Valid() && cacheLength <= maxLength && contents == Drained(old(contents), maxLength)
    {
      while cacheLength > maxLength
        invariant Valid() && Drained(contents, maxLength) == Drained(old(contents), maxLength)
        decreases |contents|
      {
        DrainRound();
      }
    }

    /** The last tenth of the list, at least one item. */
    method DrainRound()
      requires Valid() && contents != []
      modifies this`list, this`dict, this`cacheLength, this`contents
      ensures Valid() && contents == old(contents)[..|old(contents)| - Batch(|old(contents)|)]
    {
      SizesAgree(contents, list, dict);
      var drained := DrainNumber(if |dict| / 10 > 1 then |dict| / 10 else 1);
    }

    method CheckMemory()
      modifies this`list, this`dict, this`cacheLength
      ensures |old(list)| == |old(dict)| ==> list == old(list) && dict == old(dict) && cacheLength == old(cacheLength)
      ensures |old(list)| != |old(dict)| ==> list == [] && dict == map[] && cacheLength == 0
    {
      if |list| != |dict| {
        list, dict, cacheLength := [], map[], 0;
      }
    }

    /** A hit moves to the front and gives a copy; an expired entry is dropped. The repair branch of
        `checkMemory` is never taken: whatever is stored is still there when it is looked for. */
    method Lookup(key: string, now: uint64) returns (r: Option<Entry>)
      requires Valid()
      modifies this
      ensures Valid() && (old(Bounded()) ==> Bounded())
      ensures r == Hit(old(contents), key, now)
      ensures contents == Touched(old(contents), key, now)
      ensures uses == old(if key in dict && now < dict[key].entry.expire then uses + [key] else uses)
      ensures old(key in dict && now < dict[key].entry.expire && dict[key].entry.message.Some?) ==>
        r.Some? && r.value.message == old(dict[key].entry.message)
      ensures r.Some? ==> old(key in dict) && now < old(dict[key].entry.expire)
      ensures dict.Keys == old(if key in dict && now >= dict[key].entry.expire then dict.Keys - {key} else dict.Keys)
      ensures forall k :: k in dict ==> k in old(dict) && dict[k].entry == old(dict)[k].entry
    {
      SizesAgree(contents, list, dict);
      CheckMemory();
      if key !in dict {
        Absent(contents, list, dict, key);
        return None;
      }
      r := LookupPresent(key, now);
    }

    method LookupPresent(key: string, now: uint64) returns (r: Option<Entry>)
      requires Valid() && key in dict
      modifies this
      ensures Valid() && (old(Bounded()) ==> Bounded())
      ensures r == Hit(old(contents), key, now)
      ensures contents == Touched(old(contents), key, now)
      ensures uses == if now < old(dict[key].entry.expire) then old(uses) + [key] else old(uses)
      ensures r == if now < old(dict[key].entry.expire) then old(dict[key].entry).Copy() else None
      ensures dict.Keys == old(if now >= dict[key].entry.expire then dict.Keys - {key} else dict.Keys)
      ensures forall k :: k in dict ==> k in old(dict) && dict[k].entry == old(dict)[k].entry
    {
      ghost var i := IndexOf(contents, list, dict, key);
      WithoutAt(contents, i);
      var slot := dict[key];
      if now >= slot.entry.expire {
        RemoveImpl(key);
        return None;
      }
      if slot.position != list[0].id {
        MoveToFront(key);
      } else {
        FrontIndex(contents, list, dict, i);
        FrontKept(contents);
        RecencyFront(contents, uses);
        uses := uses + [key];
      }
      return slot.entry.Copy();
    }

    method MoveToFront(key: string)
      requires Valid() && key in dict
      modifies this
      ensures Valid() && (old(Bounded()) ==> Bounded())
      ensures contents == [Item(key, old(dict[key].entry))] + Without(old(contents), key)
      ensures dict == old(dict)[key := Slot(old(nextId), old(dict[key].entry))]
      ensures uses == old(uses) + [key]
    {
      contents := MovedCoherent(contents, list, dict, nextId, cacheLength, uses, key);
      uses := uses + [key];
      list := Erase(list, dict[key].position);
      list := [Node(nextId, key)] + list;
      dict := dict[key := Slot(nextId, dict[key].entry)];
      nextId := nextId + 1;
    }
  }

  /** Two entries whose lengths wrap around stay, though one of them alone exceeds the maximum. Taking the
      smaller one out leaves the counter above the maximum. */
  method WrapExample() returns (cache: LruCacheImpl)
    ensures cache.Valid() && !cache.Bounded() && cache.cacheLength > cache.maxLength && |cache.contents| == 1
  {
    cache := new LruCacheImpl(1);
    var small, large := Entry(None, 0, 1), Entry(None, 0, TWO_TO_64 - 1);
    TotalPush(Item("small", small), []);
    assert [Item("small", small)] + [] == [Item("small", small)];
    cache.Insert("small", small);
    DrainedFitsExactly(Item("large", large), cache.contents, 1);
    cache.Insert("large", large);
    cache.Remove("small");
    TotalPush(Item("large", large), []);
  }
}
