/**
 The memory tier: an LRU cache bounded by cost, with an index of expiry times.

 The index is a list of buckets sorted by time, as `std::map` keeps them; a bucket lists keys, the only part of its
 tuples that is ever read.
 */
module InMemoryCache {
  import opened Wrappers
  import opened LruCache

  /** The largest `time_t`: it stands for "no expiry". */
  const TIME_MAX: int := 0x7fff_ffff_ffff_ffff

  datatype Bucket = Bucket(time: int, keys: seq<string>)

  datatype Memory<V> = Memory(items: seq<Item<V>>, index: seq<Bucket>, maxSize: nat)

  predicate HasExpiry(expiry: int) {
    expiry != TIME_MAX
  }

  // The items.

  function ErasedAll<V>(items: seq<Item<V>>, keys: seq<string>): seq<Item<V>>
    decreases |keys|
  {
    if keys == [] then items else ErasedAll(Erased(items, keys[0]), keys[1..])
  }

  function StartsWith(key: string, prefix: string): bool {
    |prefix| <= |key| && key[..|prefix|] == prefix
  }

  function WithoutPrefix<V>(items: seq<Item<V>>, prefix: string): seq<Item<V>> {
    if items == [] then []
    else (if StartsWith(items[0].key, prefix) then [] else [items[0]]) + WithoutPrefix(items[1..], prefix)
  }

  // The index.

  function KeysAt(index: seq<Bucket>, time: int): seq<string> {
    if index == [] then [] else if index[0].time == time then index[0].keys else KeysAt(index[1..], time)
  }

  function RemoveTime(index: seq<Bucket>, time: int): seq<Bucket> {
    if index == [] then [] else if index[0].time == time then index[1..] else [index[0]] + RemoveTime(index[1..], time)
  }

  /** `index[time].push_back(key)`. */
  function PushKey(index: seq<Bucket>, time: int, key: string): seq<Bucket> {
    if index == [] || time < index[0].time then [Bucket(time, [key])] + index
    else if index[0].time == time then [Bucket(time, index[0].keys + [key])] + index[1..]
    else [index[0]] + PushKey(index[1..], time, key)
  }

  /**
   The eviction callback. It takes the key out of a copy of the bucket, so all it can do to the index is drop a
   bucket that is empty already, or that the look-up itself has just created.
   */
  function IndexAfterEviction<V>(index: seq<Bucket>, x: Item<V>): seq<Bucket> {
    if HasExpiry(x.expiry) && KeysAt(index, x.expiry) == [] then RemoveTime(index, x.expiry) else index
  }

  // The operations.

  function Evicted<V>(m: Memory<V>): Memory<V>
    decreases |m.items|
  {
    var n := |m.items|;
    if n == 0 || TotalCost(m.items) <= m.maxSize then m
    else Evicted(m.(items := m.items[..n - 1], index := IndexAfterEviction(m.index, m.items[n - 1])))
  }

  /** `LruCache::InsertOrAssign` with the eviction callback. */
  function Stored<V>(m: Memory<V>, x: Item<V>): Memory<V> {
    if Has(m.items, x.key) || Cost(x) <= m.maxSize then Evicted(m.(items := WithItem(m.items, m.maxSize, x))) else m
  }

  function PurgedAt<V>(m: Memory<V>, time: int): Memory<V> {
    m.(items := ErasedAll(m.items, KeysAt(m.index, time)), index := RemoveTime(m.index, time))
  }

  /** Purges the buckets from the first one on until one has not expired. */
  function Purged<V>(m: Memory<V>, now: int): Memory<V>
    decreases |m.index|
  {
    if m.index == [] || m.index[0].time >= now then m else Purged(PurgedAt(m, m.index[0].time), now)
  }

  /** The time at which an item put now with that many seconds to live expires. */
  function Deadline(seconds: int, now: int): int {
    if HasExpiry(seconds) then seconds + now else seconds
  }

  predicate Accepts<V>(m: Memory<V>, key: string, value: V, seconds: int, size: nat, now: int) {
    && (!HasExpiry(seconds) || seconds > 0)
    && Inserts(Purged(m, now).items, Purged(m, now).maxSize, Item(key, Deadline(seconds, now), value, size))
  }

  function PutItem<V>(m: Memory<V>, key: string, value: V, seconds: int, size: nat, now: int): Memory<V> {
    var p := Purged(m, now);
    if HasExpiry(seconds) && seconds <= 0 then p else
      var x := Item(key, Deadline(seconds, now), value, size);
      var q := Stored(p, x);
      if Inserts(p.items, p.maxSize, x) && HasExpiry(seconds) then q.(index := PushKey(q.index, x.expiry, key)) else q
  }

  function GetValue<V>(m: Memory<V>, key: string, now: int): Option<V> {
    var k := Find(m.items, key);
    if k < |m.items| && m.items[k].expiry >= now then Some(m.items[k].value) else None
  }

  function AfterGet<V>(m: Memory<V>, key: string, now: int): Memory<V> {
    var k := Find(m.items, key);
    if k == |m.items| then m else
      var p := m.(items := Promoted(m.items, k));
      if m.items[k].expiry < now then PurgedAt(p, m.items[k].expiry) else p
  }

  // Every operation only drops, moves or adds whole items.

  lemma {:induction false} ErasedAllItems<V>(items: seq<Item<V>>, keys: seq<string>, x: Item<V>)
    requires x in ErasedAll(items, keys)
    ensures x in items
    decreases |keys|
  {
    if keys != [] {
      ErasedAllItems(Erased(items, keys[0]), keys[1..], x);
      ErasedItems(items, keys[0], x);
    }
  }

  lemma ErasedItems<V>(items: seq<Item<V>>, key: string, x: Item<V>)
    requires x in Erased(items, key)
    ensures x in items
  {
    hide Find;
  }

  lemma {:induction false} PurgedItems<V>(m: Memory<V>, now: int, x: Item<V>)
    requires x in Purged(m, now).items
    ensures x in m.items
    decreases |m.index|
  {
    if m.index != [] && m.index[0].time < now {
      var t := m.index[0].time;
      PurgedItems(PurgedAt(m, t), now, x);
      ErasedAllItems(m.items, KeysAt(m.index, t), x);
    }
  }

  lemma {:induction false} EvictedPrefix<V>(m: Memory<V>)
    ensures Evicted(m).items <= m.items && Evicted(m).maxSize == m.maxSize
    decreases |m.items|
  {
    var n := |m.items|;
    if n > 0 && TotalCost(m.items) > m.maxSize {
      EvictedPrefix(m.(items := m.items[..n - 1], index := IndexAfterEviction(m.index, m.items[n - 1])));
    }
  }

  lemma StoredItems<V>(m: Memory<V>, y: Item<V>, x: Item<V>)
    requires x in Stored(m, y).items
    ensures x == y || x in m.items
  {
    if Has(m.items, y.key) {
      EvictedPrefix(m.(items := [y] + Without(m.items, Find(m.items, y.key))));
    } else if Cost(y) <= m.maxSize {
      EvictedPrefix(m.(items := [y] + m.items));
    }
    hide Find, Evicted;
  }

  /** After a put every item is an old one or the new one. */
  lemma PutItems<V>(m: Memory<V>, key: string, value: V, seconds: int, size: nat, now: int, x: Item<V>)
    requires x in PutItem(m, key, value, seconds, size, now).items
    ensures x in m.items || x == Item(key, Deadline(seconds, now), value, size)
  {
    hide Purged, Stored;
    var p := Purged(m, now);
    if x in p.items {
      PurgedItems(m, now, x);
    } else {
      StoredItems(p, Item(key, Deadline(seconds, now), value, size), x);
    }
  }

  /** After a put that was accepted the only item of the key is the new one. */
  lemma AcceptedItems<V>(m: Memory<V>, key: string, value: V, seconds: int, size: nat, now: int, y: Item<V>)
    requires Accepts(m, key, value, seconds, size, now) && y in PutItem(m, key, value, seconds, size, now).items
    ensures y == Item(key, Deadline(seconds, now), value, size) || (y in m.items && y.key != key)
  {
    hide Purged, Stored, Has;
    var p := Purged(m, now);
    var x := Item(key, Deadline(seconds, now), value, size);
    StoredItems(p, x, y);
    if y != x {
      HasItem(p.items, y);
      PurgedItems(m, now, y);
    }
  }

  lemma GetItems<V>(m: Memory<V>, key: string, now: int, x: Item<V>)
    requires x in AfterGet(m, key, now).items
    ensures x in m.items
  {
    var k := Find(m.items, key);
    if k < |m.items| {
      var p := Promoted(m.items, k);
      if m.items[k].expiry < now {
        ErasedAllItems(p, KeysAt(m.index, m.items[k].expiry), x);
      }
      hide Find, ErasedAll;
      assert x in p;
    }
  }

  lemma {:induction false} WithoutPrefixItems<V>(items: seq<Item<V>>, prefix: string, x: Item<V>)
    ensures x in WithoutPrefix(items, prefix) <==> x in items && !StartsWith(x.key, prefix)
  {
    if items != [] {
      WithoutPrefixItems(items[1..], prefix, x);
    }
  }

  // The invariants of the memory tier.

  ghost predicate DistinctKeys<V>(items: seq<Item<V>>) {
    forall i, j :: 0 <= i < j < |items| ==> items[i].key != items[j].key
  }

  ghost predicate SortedIndex(index: seq<Bucket>) {
    forall i, j :: 0 <= i < j < |index| ==> index[i].time < index[j].time
  }

  predicate ItemListed<V>(index: seq<Bucket>, x: Item<V>) {
    HasExpiry(x.expiry) ==> x.key in KeysAt(index, x.expiry)
  }

  /** Every item that can expire is listed in the index under its time. */
  ghost predicate Listed<V>(m: Memory<V>) {
    forall i :: 0 <= i < |m.items| ==> ItemListed(m.index, m.items[i])
  }

  ghost predicate WellFormed<V>(m: Memory<V>) {
    DistinctKeys(m.items) && SortedIndex(m.index)
  }

  // Buckets.

  lemma {:induction false} KeysAtLater(index: seq<Bucket>, time: int)
    requires forall i :: 0 <= i < |index| ==> time < index[i].time
    ensures KeysAt(index, time) == []
  {
    if index != [] {
      KeysAtLater(index[1..], time);
    }
  }

  lemma {:induction false} KeysAtTime(index: seq<Bucket>, time: int, k: string)
    requires k in KeysAt(index, time)
    ensures exists i :: 0 <= i < |index| && index[i].time == time
  {
    if index[0].time == time {
    } else {
      KeysAtTime(index[1..], time, k);
      var i :| 0 <= i < |index[1..]| && index[1..][i].time == time;
      assert index[i + 1].time == time;
    }
  }

  lemma {:induction false} RemoveTimeKeys(index: seq<Bucket>, time: int, u: int)
    requires SortedIndex(index)
    ensures KeysAt(RemoveTime(index, time), u) == if u == time then [] else KeysAt(index, u)
  {
    if index != [] {
      if index[0].time == time {
        if u == time {
          KeysAtLater(index[1..], time);
        }
      } else {
        RemoveTimeKeys(index[1..], time, u);
        assert ([index[0]] + RemoveTime(index[1..], time))[1..] == RemoveTime(index[1..], time);
      }
    }
  }

  lemma {:induction false} RemoveTimeSorted(index: seq<Bucket>, time: int)
    requires SortedIndex(index)
    ensures SortedIndex(RemoveTime(index, time))
    ensures forall b :: b in RemoveTime(index, time) ==> b in index
    ensures |RemoveTime(index, time)| <= |index|
  {
    if index != [] && index[0].time != time {
      RemoveTimeSorted(index[1..], time);
      ConsSorted(index[0], index[1..], RemoveTime(index[1..], time));
    }
  }

  lemma ConsSorted(b: Bucket, earlier: seq<Bucket>, rest: seq<Bucket>)
    requires SortedIndex([b] + earlier) && SortedIndex(rest) && forall x :: x in rest ==> x in earlier
    ensures SortedIndex([b] + rest)
  {
    forall i | 0 <= i < |rest|
      ensures b.time < rest[i].time
    {
      assert rest[i] in earlier;
      var j :| 0 <= j < |earlier| && earlier[j] == rest[i];
      assert ([b] + earlier)[0] == b && ([b] + earlier)[j + 1] == rest[i];
    }
  }

  lemma {:induction false} PushKeyKeys(index: seq<Bucket>, time: int, key: string, u: int)
    requires SortedIndex(index)
    ensures KeysAt(PushKey(index, time, key), u) == KeysAt(index, u) + if u == time then [key] else []
  {
    if index == [] || time < index[0].time {
      KeysAtLater(index, time);
    } else if index[0].time != time {
      PushKeyKeys(index[1..], time, key, u);
    }
  }

  lemma {:induction false} PushKeySorted(index: seq<Bucket>, time: int, key: string)
    requires SortedIndex(index)
    ensures SortedIndex(PushKey(index, time, key))
    ensures forall b :: b in PushKey(index, time, key) ==> b.time == time || b in index
  {
    if index != [] && index[0].time < time {
      PushKeySorted(index[1..], time, key);
      var rest := PushKey(index[1..], time, key);
      forall i | 0 <= i < |rest|
        ensures index[0].time < rest[i].time
      {
        assert rest[i] in rest;
        if rest[i].time != time {
          var j :| 0 <= j < |index[1..]| && index[1..][j] == rest[i];
          assert index[j + 1] == rest[i];
        }
      }
    }
  }

  lemma EvictionKeys<V>(index: seq<Bucket>, x: Item<V>, u: int)
    requires SortedIndex(index)
    ensures SortedIndex(IndexAfterEviction(index, x))
    ensures KeysAt(IndexAfterEviction(index, x), u) == KeysAt(index, u)
  {
    RemoveTimeKeys(index, x.expiry, u);
    RemoveTimeSorted(index, x.expiry);
  }

  /** Evictions leave all that the index lists. */
  lemma {:induction false} EvictedKeys<V>(m: Memory<V>, u: int)
    requires SortedIndex(m.index)
    ensures SortedIndex(Evicted(m).index) && KeysAt(Evicted(m).index, u) == KeysAt(m.index, u)
    decreases |m.items|
  {
    var n := |m.items|;
    if n > 0 && TotalCost(m.items) > m.maxSize {
      EvictionKeys(m.index, m.items[n - 1], u);
      EvictedKeys(m.(items := m.items[..n - 1], index := IndexAfterEviction(m.index, m.items[n - 1])), u);
    }
  }

  // Items.

  lemma WithoutDistinct<V>(items: seq<Item<V>>, i: nat)
    requires i < |items| && DistinctKeys(items)
    ensures DistinctKeys(Without(items, i))
  {
    var w := Without(items, i);
    assert forall j :: 0 <= j < i ==> w[j] == items[j];
    assert forall j :: i <= j < |w| ==> w[j] == items[j + 1];
  }

  lemma WithoutMember<V>(items: seq<Item<V>>, i: nat, x: Item<V>)
    requires i < |items| && DistinctKeys(items)
    ensures x in Without(items, i) <==> x in items && x.key != items[i].key
  {
    var w := Without(items, i);
    assert forall j :: 0 <= j < i ==> w[j] == items[j];
    assert forall j :: i <= j < |w| ==> w[j] == items[j + 1];
    if x in items && x.key != items[i].key {
      var j :| 0 <= j < |items| && items[j] == x;
      assert w[if j < i then j else j - 1] == x;
    }
  }

  lemma ErasedSpec<V>(items: seq<Item<V>>, key: string, x: Item<V>)
    requires DistinctKeys(items)
    ensures DistinctKeys(Erased(items, key))
    ensures x in Erased(items, key) <==> x in items && x.key != key
  {
    if Has(items, key) {
      WithoutDistinct(items, Find(items, key));
      WithoutMember(items, Find(items, key), x);
    } else if x in items {
      var j :| 0 <= j < |items| && items[j] == x;
      assert items[j].key != key;
    }
  }

  lemma {:induction false} ErasedAllSpec<V>(items: seq<Item<V>>, keys: seq<string>, x: Item<V>)
    requires DistinctKeys(items)
    ensures DistinctKeys(ErasedAll(items, keys))
    ensures x in ErasedAll(items, keys) <==> x in items && x.key !in keys
    decreases |keys|
  {
    if keys != [] {
      ErasedSpec(items, keys[0], x);
      ErasedAllSpec(Erased(items, keys[0]), keys[1..], x);
      hide Erased, DistinctKeys;
      assert keys == [keys[0]] + keys[1..];
    }
  }

  lemma ConsDistinct<V>(x: Item<V>, items: seq<Item<V>>)
    requires DistinctKeys(items) && forall y :: y in items ==> y.key != x.key
    ensures DistinctKeys([x] + items)
  {
    var s := [x] + items;
    forall i, j | 0 <= i < j < |s|
      ensures s[i].key != s[j].key
    {
      assert s[j] == items[j - 1] && s[j] in items;
      assert i > 0 ==> s[i] == items[i - 1];
    }
  }

  // Purging.

  lemma PurgedAtSpec<V>(m: Memory<V>, time: int)
    requires WellFormed(m)
    ensures WellFormed(PurgedAt(m, time))
    ensures Listed(m) ==> Listed(PurgedAt(m, time))
  {
    hide ErasedAll, RemoveTime, KeysAt, DistinctKeys, SortedIndex;
    var p := PurgedAt(m, time);
    forall i | Listed(m) && 0 <= i < |p.items|
      ensures ItemListed(p.index, p.items[i])
    {
      var x := p.items[i];
      ErasedAllSpec(m.items, KeysAt(m.index, time), x);
      RemoveTimeKeys(m.index, time, x.expiry);
      ListedItem(m, x);
    }
    ErasedAllDistinct(m.items, KeysAt(m.index, time));
    RemoveTimeSorted(m.index, time);
  }

  lemma ListedItem<V>(m: Memory<V>, x: Item<V>)
    requires Listed(m) && x in m.items
    ensures ItemListed(m.index, x)
  {
    var j :| 0 <= j < |m.items| && m.items[j] == x;
  }

  lemma {:induction false} ErasedAllDistinct<V>(items: seq<Item<V>>, keys: seq<string>)
    requires DistinctKeys(items)
    ensures DistinctKeys(ErasedAll(items, keys))
    decreases |keys|
  {
    if keys != [] {
      if Has(items, keys[0]) {
        WithoutDistinct(items, Find(items, keys[0]));
      }
      ErasedAllDistinct(Erased(items, keys[0]), keys[1..]);
    }
  }

  /** The purge stops at the first bucket that has not expired; still no listed item that has expired is left. */
  lemma {:induction false} PurgedSpec<V>(m: Memory<V>, now: int)
    requires WellFormed(m)
    ensures WellFormed(Purged(m, now)) && Purged(m, now).maxSize == m.maxSize
    ensures Listed(m) ==> Listed(Purged(m, now)) && NoneExpired(Purged(m, now), now)
    decreases |m.index|
  {
    if m.index != [] && m.index[0].time < now {
      PurgedAtSpec(m, m.index[0].time);
      PurgedSpec(PurgedAt(m, m.index[0].time), now);
    } else if Listed(m) {
      ListedNotExpired(m, now);
    }
  }

  ghost predicate NoneExpired<V>(m: Memory<V>, now: int) {
    forall i :: 0 <= i < |m.items| && HasExpiry(m.items[i].expiry) ==> m.items[i].expiry >= now
  }

  lemma ListedNotExpired<V>(m: Memory<V>, now: int)
    requires WellFormed(m) && Listed(m) && (m.index == [] || m.index[0].time >= now)
    ensures NoneExpired(m, now)
  {
    forall j | 0 <= j < |m.items| && HasExpiry(m.items[j].expiry)
      ensures m.items[j].expiry >= now
    {
      var x := m.items[j];
      ListedItem(m, x);
      KeysAtTime(m.index, x.expiry, x.key);
      var i :| 0 <= i < |m.index| && m.index[i].time == x.expiry;
      assert i > 0 ==> m.index[0].time < m.index[i].time;
    }
  }

  // Storing.

  lemma {:induction false} CostOfFirst<V>(items: seq<Item<V>>)
    requires items != []
    ensures TotalCost(items) >= Cost(items[0])
    ensures |items| == 1 ==> TotalCost(items) == Cost(items[0])
  {
    if |items| > 1 {
      CostOfFirst(items[..|items| - 1]);
    }
  }

  /** Eviction takes from the back, so the first item stays exactly when it fits alone. */
  lemma {:induction false} EvictedKeepsFirst<V>(m: Memory<V>)
    requires m.items != []
    ensures Evicted(m).items != [] <==> Cost(m.items[0]) <= m.maxSize
    ensures TotalCost(Evicted(m).items) <= m.maxSize
    decreases |m.items|
  {
    var n := |m.items|;
    CostOfFirst(m.items);
    if TotalCost(m.items) > m.maxSize && n > 1 {
      EvictedKeepsFirst(m.(items := m.items[..n - 1], index := IndexAfterEviction(m.index, m.items[n - 1])));
    }
  }

  /** An item that takes all the room stays alone. */
  lemma {:induction false} EvictedAlone<V>(m: Memory<V>)
    requires m.items != [] && Cost(m.items[0]) == m.maxSize
    ensures Evicted(m).items == [m.items[0]]
    decreases |m.items|
  {
    var n := |m.items|;
    CostOfFirst(m.items);
    if n > 1 {
      CostOfFirst(m.items[..n - 1]);
      EvictedAlone(m.(items := m.items[..n - 1], index := IndexAfterEviction(m.index, m.items[n - 1])));
    } else {
      assert m.items == [m.items[0]];
    }
  }

  lemma EvictedSpec<V>(m: Memory<V>)
    requires WellFormed(m) && m.items != []
    ensures WellFormed(Evicted(m))
    ensures m.items[0] in Evicted(m).items <==> Cost(m.items[0]) <= m.maxSize
    ensures forall x :: x in Evicted(m).items ==> x in m.items
    ensures forall u :: KeysAt(Evicted(m).index, u) == KeysAt(m.index, u)
  {
    EvictedPrefix(m);
    EvictedKeepsFirst(m);
    forall u
      ensures SortedIndex(Evicted(m).index) && KeysAt(Evicted(m).index, u) == KeysAt(m.index, u)
    {
      EvictedKeys(m, u);
    }
    EvictedKeys(m, 0);
    hide Evicted, KeysAt, SortedIndex, TotalCost;
    var e := Evicted(m).items;
    if e != [] {
      assert e[0] == m.items[0] && e[0] in e;
    } else {
      assert m.items[0] !in e;
    }
  }

  /** The list before eviction: the item in front of all others. */
  function InFront<V>(m: Memory<V>, x: Item<V>): Memory<V> {
    m.(items := [x] + Erased(m.items, x.key))
  }

  lemma InFrontSpec<V>(m: Memory<V>, x: Item<V>)
    requires WellFormed(m)
    ensures WellFormed(InFront(m, x))
    ensures Has(m.items, x.key) || Cost(x) <= m.maxSize ==> Stored(m, x) == Evicted(InFront(m, x))
    ensures forall i :: 1 <= i < |InFront(m, x).items| ==> InFront(m, x).items[i] in m.items
  {
    var e := Erased(m.items, x.key);
    forall y | y in e
      ensures y.key != x.key && y in m.items
    {
      ErasedSpec(m.items, x.key, y);
    }
    ErasedSpec(m.items, x.key, x);
    ConsDistinct(x, e);
    assert forall i :: 0 <= i < |e| ==> e[i] in e;
  }

  /** After storing, the index lists what it listed, and the other items are old ones. */
  lemma StoredSpec<V>(m: Memory<V>, x: Item<V>)
    requires WellFormed(m) && (Has(m.items, x.key) || Cost(x) <= m.maxSize)
    ensures WellFormed(Stored(m, x))
    ensures x in Stored(m, x).items <==> Cost(x) <= m.maxSize
    ensures forall i :: 0 <= i < |Stored(m, x).items| ==> Stored(m, x).items[i] == x || Stored(m, x).items[i] in m.items
    ensures forall u :: KeysAt(Stored(m, x).index, u) == KeysAt(m.index, u)
  {
    InFrontSpec(m, x);
    EvictedSpec(InFront(m, x));
    hide WellFormed, KeysAt, Evicted, Has, Erased, Cost;
    var q, f := Stored(m, x), InFront(m, x);
    assert q == Evicted(f) && f.items[0] == x;
    forall i | 0 <= i < |q.items|
      ensures q.items[i] == x || q.items[i] in m.items
    {
      assert q.items[i] in f.items;
      var j :| 0 <= j < |f.items| && f.items[j] == q.items[i];
    }
  }

  // The theorem about the index.

  /**
   A put that gives an item already stored another time to expire, under which the key is not listed:
   `InsertOrAssign` reports an assignment as a failure, so the new time is not entered in the index.
   */
  predicate Redates<V>(m: Memory<V>, key: string, seconds: int, size: nat, now: int) {
    var p := Purged(m, now);
    && HasExpiry(seconds) && seconds > 0
    && Has(p.items, key) && (if size == 0 then 1 else size) <= p.maxSize
    && key !in KeysAt(p.index, seconds + now)
  }

  lemma PutWellFormed<V>(m: Memory<V>, key: string, value: V, seconds: int, size: nat, now: int)
    requires WellFormed(m)
    ensures WellFormed(PutItem(m, key, value, seconds, size, now))
  {
    PurgedSpec(m, now);
    hide Purged, Evicted, Stored, DistinctKeys;
    var p := Purged(m, now);
    var x := Item(key, Deadline(seconds, now), value, size);
    if Has(p.items, key) || Cost(x) <= p.maxSize {
      StoredSpec(p, x);
      PushKeySorted(Stored(p, x).index, x.expiry, key);
    } else {
      NotStored(p, x);
    }
  }

  lemma NotStored<V>(m: Memory<V>, x: Item<V>)
    requires !Has(m.items, x.key) && Cost(x) > m.maxSize
    ensures Stored(m, x) == m
  {
  }

  /** A put keeps every expiring item listed exactly when it does not re-date an item. */
  lemma PutListed<V>(m: Memory<V>, key: string, value: V, seconds: int, size: nat, now: int)
    requires WellFormed(m) && Listed(m) && (HasExpiry(seconds) ==> seconds + now < TIME_MAX)
    ensures Listed(PutItem(m, key, value, seconds, size, now)) <==> !Redates(m, key, seconds, size, now)
  {
    PurgedSpec(m, now);
    hide Purged, Stored, KeysAt, DistinctKeys, SortedIndex, Has;
    var p := Purged(m, now);
    var x := Item(key, Deadline(seconds, now), value, size);
    if !(HasExpiry(seconds) && seconds <= 0) {
      if Has(p.items, key) {
        AssignListed(p, x);
      } else if Cost(x) <= p.maxSize {
        InsertListed(p, x);
      } else {
        NotStored(p, x);
      }
    }
  }

  lemma AssignListed<V>(p: Memory<V>, x: Item<V>)
    requires WellFormed(p) && Listed(p) && Has(p.items, x.key)
    ensures Listed(Stored(p, x)) <==> (Cost(x) <= p.maxSize ==> ItemListed(p.index, x))
  {
    StoredSpec(p, x);
    hide Stored, KeysAt, WellFormed, Has;
    var q := Stored(p, x);
    if Listed(q) && Cost(x) <= p.maxSize {
      ListedItem(q, x);
    }
    if Cost(x) <= p.maxSize ==> ItemListed(p.index, x) {
      forall i | 0 <= i < |q.items|
        ensures ItemListed(q.index, q.items[i])
      {
        var y := q.items[i];
        assert y in q.items;
        if y in p.items {
          ListedItem(p, y);
        }
      }
    }
  }

  lemma InsertListed<V>(p: Memory<V>, x: Item<V>)
    requires WellFormed(p) && Listed(p) && Cost(x) <= p.maxSize
    ensures !HasExpiry(x.expiry) ==> Listed(Stored(p, x))
    ensures Listed(Stored(p, x).(index := PushKey(Stored(p, x).index, x.expiry, x.key)))
  {
    StoredSpec(p, x);
    hide Stored, KeysAt, DistinctKeys, SortedIndex, PushKey;
    var q := Stored(p, x);
    forall i | 0 <= i < |q.items|
      ensures !HasExpiry(x.expiry) ==> ItemListed(q.index, q.items[i])
      ensures ItemListed(PushKey(q.index, x.expiry, x.key), q.items[i])
    {
      var y := q.items[i];
      PushKeyKeys(q.index, x.expiry, x.key, y.expiry);
      if y != x {
        ListedItem(p, y);
      }
    }
  }

  lemma GetListed<V>(m: Memory<V>, key: string, now: int)
    requires WellFormed(m)
    ensures WellFormed(AfterGet(m, key, now))
    ensures Listed(m) ==> Listed(AfterGet(m, key, now))
  {
    var k := Find(m.items, key);
    if k < |m.items| {
      PromotedSpec(m, k);
      PurgedAtSpec(m.(items := Promoted(m.items, k)), m.items[k].expiry);
    }
  }

  lemma PromotedSpec<V>(m: Memory<V>, k: nat)
    requires WellFormed(m) && k < |m.items|
    ensures var p := m.(items := Promoted(m.items, k)); WellFormed(p) && (Listed(m) ==> Listed(p))
  {
    var w := Without(m.items, k);
    WithoutDistinct(m.items, k);
    forall y | y in w
      ensures y.key != m.items[k].key && y in m.items
    {
      WithoutMember(m.items, k, y);
    }
    ConsDistinct(m.items[k], w);
    var p := Promoted(m.items, k);
    hide Without, DistinctKeys, KeysAt;
    assert forall i :: 1 <= i < |p| ==> p[i] == w[i - 1] && p[i] in w;
    forall i | Listed(m) && 0 <= i < |p|
      ensures ItemListed(m.index, p[i])
    {
      ListedItem(m, p[i]);
    }
  }

  lemma RemoveListed<V>(m: Memory<V>, key: string)
    requires WellFormed(m)
    ensures WellFormed(m.(items := Erased(m.items, key)))
    ensures Listed(m) ==> Listed(m.(items := Erased(m.items, key)))
  {
    var e := Erased(m.items, key);
    if Has(m.items, key) {
      WithoutDistinct(m.items, Find(m.items, key));
    }
    forall i | Listed(m) && 0 <= i < |e|
      ensures ItemListed(m.index, e[i])
    {
      ErasedSpec(m.items, key, e[i]);
      ListedItem(m, e[i]);
    }
  }

  lemma {:induction false} WithoutPrefixDistinct<V>(items: seq<Item<V>>, prefix: string)
    requires DistinctKeys(items)
    ensures DistinctKeys(WithoutPrefix(items, prefix))
  {
    if items != [] {
      WithoutPrefixDistinct(items[1..], prefix);
      var w := WithoutPrefix(items[1..], prefix);
      if !StartsWith(items[0].key, prefix) {
        forall y | y in w
          ensures y.key != items[0].key
        {
          WithoutPrefixItems(items[1..], prefix, y);
          var j :| 0 <= j < |items[1..]| && items[1..][j] == y;
          assert items[j + 1] == y;
        }
        ConsDistinct(items[0], w);
      } else {
        assert [] + w == w;
      }
    }
  }

  lemma PrefixListed<V>(m: Memory<V>, prefix: string)
    requires WellFormed(m)
    ensures WellFormed(m.(items := WithoutPrefix(m.items, prefix)))
    ensures Listed(m) ==> Listed(m.(items := WithoutPrefix(m.items, prefix)))
  {
    WithoutPrefixDistinct(m.items, prefix);
    var w := WithoutPrefix(m.items, prefix);
    hide KeysAt, DistinctKeys;
    forall i | Listed(m) && 0 <= i < |w|
      ensures ItemListed(m.index, w[i])
    {
      WithoutPrefixItems(m.items, prefix, w[i]);
      ListedItem(m, w[i]);
    }
  }

  // Runs.

  datatype Op<V> =
    | Put(key: string, value: V, seconds: int, size: nat, now: int)
    | Get(key: string, now: int)
    | Remove(key: string)
    | RemovePrefix(prefix: string)

  function Apply<V>(m: Memory<V>, op: Op<V>): Memory<V> {
    match op
    case Put(key, value, seconds, size, now) => PutItem(m, key, value, seconds, size, now)
    case Get(key, now) => AfterGet(m, key, now)
    case Remove(key) => m.(items := Erased(m.items, key))
    case RemovePrefix(prefix) => m.(items := WithoutPrefix(m.items, prefix))
  }

  function RunAll<V>(m: Memory<V>, ops: seq<Op<V>>): Memory<V>
    decreases |ops|
  {
    if ops == [] then m else RunAll(Apply(m, ops[0]), ops[1..])
  }

  /** Expiry times do not overflow, and no put of the run re-dates an item. */
  ghost predicate NeverRedates<V>(m: Memory<V>, ops: seq<Op<V>>)
    decreases |ops|
  {
    ops == [] ||
    (&& (ops[0].Put? && HasExpiry(ops[0].seconds) ==> ops[0].seconds + ops[0].now < TIME_MAX)
     && (ops[0].Put? ==> !Redates(m, ops[0].key, ops[0].seconds, ops[0].size, ops[0].now))
     && NeverRedates(Apply(m, ops[0]), ops[1..]))
  }

  /** On such runs, whatever is put, overwritten, evicted, read, removed or purged, all expiring items are listed. */
  lemma {:induction false} RunListed<V>(m: Memory<V>, ops: seq<Op<V>>)
    requires WellFormed(m) && Listed(m) && NeverRedates(m, ops)
    ensures WellFormed(RunAll(m, ops)) && Listed(RunAll(m, ops))
    decreases |ops|
  {
    if ops != [] {
      OpListed(m, ops[0]);
      hide Apply, WellFormed, Listed, Redates;
      RunListed(Apply(m, ops[0]), ops[1..]);
    }
  }

  lemma OpListed<V>(m: Memory<V>, op: Op<V>)
    requires WellFormed(m) && Listed(m)
    requires op.Put? ==> (HasExpiry(op.seconds) ==> op.seconds + op.now < TIME_MAX) &&
                         !Redates(m, op.key, op.seconds, op.size, op.now)
    ensures WellFormed(Apply(m, op)) && Listed(Apply(m, op))
  {
    hide Redates, WellFormed, Listed, PutItem, AfterGet, Erased, WithoutPrefix;
    match op
    case Put(key, value, seconds, size, now) =>
      PutWellFormed(m, key, value, seconds, size, now);
      PutListed(m, key, value, seconds, size, now);
    case Get(key, now) => GetListed(m, key, now);
    case Remove(key) => RemoveListed(m, key);
    case RemovePrefix(prefix) => PrefixListed(m, prefix);
  }

  /** So the purge at the start of the next put leaves no item that has expired. */
  lemma PurgeIsComplete<V>(maxSize: nat, ops: seq<Op<V>>, now: int)
    requires NeverRedates(Memory([], [], maxSize), ops)
    ensures NoneExpired(Purged(RunAll(Memory([], [], maxSize), ops), now), now)
  {
    var m: Memory<V> := Memory([], [], maxSize);
    assert WellFormed(m) && Listed(m);
    hide Purged, RunAll, NoneExpired, NeverRedates, WellFormed, Listed;
    RunListed(m, ops);
    PurgedSpec(RunAll(m, ops), now);
  }

  /** It fails after a re-dating put: the item is there, expired, and the purge does not find it. */
  lemma RedateExample()
    ensures var m := PutItem(Memory([], [], 10), "k", 1, TIME_MAX, 1, 0);
            && !Accepts(m, "k", 2, 5, 1, 0)
            && var r := PutItem(m, "k", 2, 5, 1, 0);
               GetValue(r, "k", 0) == Some(2) && Purged(r, 100).items == [Item("k", 5, 2, 1)]
  {
    var x, y := Item("k", TIME_MAX, 1, 1), Item("k", 5, 2, 1);
    assert TotalCost([x]) == 1 && TotalCost([y]) == 1 by {
      assert [x][..0] == [] && [y][..0] == [];
    }
    var m := PutItem(Memory([], [], 10), "k", 1, TIME_MAX, 1, 0);
    assert [x] + [] == [x];
    assert m == Memory([x], [], 10);
    assert [y] + Without([x], 0) == [y];
    assert PutItem(m, "k", 2, 5, 1, 0) == Memory([y], [], 10);
  }

  // The cache.

  class MemoryCache<V> {
    const lru: Chain<V>
    var expiries: seq<Bucket>

    ghost predicate Valid()
      reads this, lru
    {
      lru.Valid()
    }

    ghost function View(): Memory<V>
      reads this, lru
    {
      Memory(lru.Items(), expiries, lru.maxSize)
    }

    constructor (size: nat)
      ensures Valid() && View() == Memory([], [], size) && fresh(lru)
    {
      lru := new Chain<V>(size);
      expiries := [];
    }

    method Remove(key: string)
      requires Valid()
      modifies lru
      ensures Valid() && View() == old(View()).(items := Erased(old(lru.Items()), key))
    {
      var _ := lru.Erase(key);
    }

    method RemoveKeysWithPrefix(prefix: string)
      requires Valid()
      modifies lru
      ensures Valid() && View() == old(View()).(items := WithoutPrefix(old(lru.Items()), prefix))
    {
      hide WithoutPrefix, Find, StartsWith;
      ghost var i := 0;
      var it := lru.Begin();
      assert lru.Items()[..0] + WithoutPrefix(lru.Items()[0..], prefix) == WithoutPrefix(lru.Items(), prefix) by {
        assert lru.Items()[0..] == lru.Items();
      }
      while it.Some?
        invariant Valid() && i <= |lru.Items()| && it == KeyIn(lru.Items(), i)
        invariant WithoutPrefix(old(lru.Items()), prefix) == lru.Items()[..i] + WithoutPrefix(lru.Items()[i..], prefix)
        decreases |lru.Items()| - i
      {
        var key := it.value;
        lru.PlaceOf(i);
        PrefixStep(lru.Items(), i, prefix);
        it := lru.Next(key);
        if StartsWith(key, prefix) {
          NextAfterErasing(lru.Items(), i);
          lru.EraseAt(key);
        } else {
          i := i + 1;
        }
      }
      NothingBehind(lru.Items(), i, prefix);
    }

    method PurgeExpiredAt(time: int)
      requires Valid()
      modifies this, lru
      ensures Valid() && View() == PurgedAt(old(View()), time)
    {
      var keys := KeysAt(expiries, time);
      for i := 0 to |keys|
        invariant Valid() && expiries == old(expiries)
        invariant ErasedAll(lru.Items(), keys[i..]) == ErasedAll(old(lru.Items()), keys)
      {
        assert keys[i..][1..] == keys[i + 1..];
        Remove(keys[i]);
      }
      expiries := RemoveTime(expiries, time);
    }

    method PurgeExpired(now: int)
      requires Valid()
      modifies this, lru
      ensures Valid() && View() == Purged(old(View()), now)
    {
      hide PurgedAt, KeysAt, RemoveTime, ErasedAll;
      var expired: seq<int> := [];
      var i := 0;
      while i < |expiries| && expiries[i].time < now
        invariant i <= |expiries| && |expired| == i
        invariant forall j :: 0 <= j < i ==> expired[j] == expiries[j].time && expired[j] < now
      {
        expired := expired + [expiries[i].time];
        i := i + 1;
      }
      for j := 0 to |expired|
        invariant Valid() && expiries == old(expiries)[j..] && Purged(View(), now) == Purged(old(View()), now)
      {
        PurgeFirst(View());
        PurgeExpiredAt(expired[j]);
      }
    }

    /** Edits a copy of the bucket; only an empty bucket is taken out of the index. */
    method OnEviction(x: Item<V>)
      modifies this
      ensures expiries == IndexAfterEviction(old(expiries), x)
    {
      if HasExpiry(x.expiry) {
        var copy := KeysAt(expiries, x.expiry);
        for i := 0 to |copy|
          invariant copy == KeysAt(expiries, x.expiry)
        {
          if copy[i] == x.key {
            copy := copy[..i] + copy[i + 1..];
            break;
          }
        }
        if |KeysAt(expiries, x.expiry)| == 0 {
          expiries := RemoveTime(expiries, x.expiry);
        }
      }
    }

    /** The cache reports each evicted item to the callback. */
    method InsertOrAssign(x: Item<V>) returns (inserted: bool)
      requires Valid()
      modifies this, lru
      ensures Valid() && View() == Stored(old(View()), x)
      ensures inserted == Inserts(old(lru.Items()), lru.maxSize, x)
    {
      hide Evicted, Front, Popped, WithItem, IndexAfterEviction, TotalCost;
      EvictedParts(View().(items := WithItem(lru.Items(), lru.maxSize, x)));
      var evicted: seq<Item<V>>;
      inserted, evicted := lru.InsertOrAssign(x);
      ghost var items := lru.Items();
      for i := 0 to |evicted|
        invariant Valid() && lru.Items() == items
        invariant AfterEvictions(expiries, evicted[i..]) == AfterEvictions(old(expiries), evicted)
      {
        assert evicted[i..][1..] == evicted[i + 1..];
        OnEviction(evicted[i]);
      }
    }

    method Put(key: string, value: V, seconds: int, size: nat, now: int) returns (ok: bool)
      requires Valid()
      modifies this, lru
      ensures Valid() && View() == PutItem(old(View()), key, value, seconds, size, now)
      ensures ok == Accepts(old(View()), key, value, seconds, size, now)
    {
      hide Purged, Stored, Inserts;
      PurgeExpired(now);
      var expiry := seconds;
      if HasExpiry(seconds) {
        if seconds <= 0 {
          return false;
        }
        expiry := seconds + now;
      }
      ok := InsertOrAssign(Item(key, expiry, value, size));
      if ok && HasExpiry(seconds) {
        expiries := PushKey(expiries, expiry, key);
      }
    }

    method Get(key: string, now: int) returns (r: Option<V>)
      requires Valid()
      modifies this, lru
      ensures Valid() && View() == AfterGet(old(View()), key, now) && r == GetValue(old(View()), key, now)
    {
      hide PurgedAt, Promoted;
      var x := lru.Lookup(key);
      if x.None? {
        return None;
      }
      if x.value.expiry < now {
        PurgeExpiredAt(x.value.expiry);
        return None;
      }
      return Some(x.value.value);
    }
  }

  /** The callback run on the evicted items, one after the other. */
  function AfterEvictions<V>(index: seq<Bucket>, evicted: seq<Item<V>>): seq<Bucket>
    decreases |evicted|
  {
    if evicted == [] then index else AfterEvictions(IndexAfterEviction(index, evicted[0]), evicted[1..])
  }

  /** What eviction does to the items and to the index. */
  lemma {:induction false} EvictedParts<V>(m: Memory<V>)
    ensures Evicted(m) ==
            Memory(Front(m.items, m.maxSize), AfterEvictions(m.index, Popped(m.items, m.maxSize)), m.maxSize)
    decreases |m.items|
  {
    var n := |m.items|;
    if n > 0 && TotalCost(m.items) > m.maxSize {
      EvictedParts(m.(items := m.items[..n - 1], index := IndexAfterEviction(m.index, m.items[n - 1])));
      var rest := Popped(m.items[..n - 1], m.maxSize);
      assert ([m.items[n - 1]] + rest)[1..] == rest;
    }
  }

  lemma PurgeFirst<V>(m: Memory<V>)
    requires m.index != []
    ensures PurgedAt(m, m.index[0].time).index == m.index[1..]
  {
  }

  lemma FindDistinct<V>(items: seq<Item<V>>, i: nat)
    requires i < |items| && DistinctKeys(items)
    ensures Find(items, items[i].key) == i
  {
    var k := Find(items, items[i].key);
    assert k <= i;
  }

  lemma NextAfterErasing<V>(items: seq<Item<V>>, i: nat)
    requires i < |items| && Find(items, items[i].key) == i
    ensures Erased(items, items[i].key) == Without(items, i) && KeyIn(Without(items, i), i) == KeyIn(items, i + 1)
  {
  }

  lemma NothingBehind<V>(items: seq<Item<V>>, i: nat, prefix: string)
    requires i == |items|
    ensures items[..i] + WithoutPrefix(items[i..], prefix) == items
  {
  }

  lemma PrefixStep<V>(items: seq<Item<V>>, i: nat, prefix: string)
    requires i < |items|
    ensures StartsWith(items[i].key, prefix) ==>
              WithoutPrefix(items[i..], prefix) == WithoutPrefix(Without(items, i)[i..], prefix) &&
              Without(items, i)[..i] == items[..i]
    ensures !StartsWith(items[i].key, prefix) ==>
              items[..i] + WithoutPrefix(items[i..], prefix) == items[..i + 1] + WithoutPrefix(items[i + 1..], prefix)
  {
    hide WithoutPrefix, StartsWith;
    PrefixCons(items[i], items[i + 1..], prefix);
    assert items[i..] == [items[i]] + items[i + 1..];
    assert Without(items, i)[i..] == items[i + 1..] && Without(items, i)[..i] == items[..i];
    assert items[..i + 1] == items[..i] + [items[i]];
    Associate(items[..i], [items[i]], WithoutPrefix(items[i + 1..], prefix));
  }

  lemma Associate<V>(a: seq<Item<V>>, b: seq<Item<V>>, c: seq<Item<V>>)
    ensures a + (b + c) == (a + b) + c
  {
  }

  lemma PrefixCons<V>(x: Item<V>, rest: seq<Item<V>>, prefix: string)
    ensures WithoutPrefix([x] + rest, prefix) ==
            if StartsWith(x.key, prefix) then WithoutPrefix(rest, prefix) else [x] + WithoutPrefix(rest, prefix)
  {
    assert ([x] + rest)[1..] == rest;
  }
}
