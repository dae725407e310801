/** Which items the memory tier keeps: the most recently used ones, as many as fit, and none that a purge finds. */
module CachePolicy {
  import opened Wrappers
  import opened LruCache
  import opened InMemoryCache

  // Eviction.

  /** Eviction keeps the longest front of the list that fits: it takes no item more than it must. */
  lemma {:induction false} EvictsNoMore<V>(items: seq<Item<V>>, maxSize: nat) returns (k: nat)
    ensures k <= |items| && Front(items, maxSize) == items[..k]
    ensures TotalCost(items[..k]) <= maxSize && (k < |items| ==> TotalCost(items[..k + 1]) > maxSize)
    decreases |items|
  {
    var n := |items|;
    assert items[..n] == items;
    if n == 0 || TotalCost(items) <= maxSize {
      k := n;
      NothingLeft<V>();
    } else {
      k := EvictsNoMore(items[..n - 1], maxSize);
      assert items[..n - 1][..k] == items[..k];
      if k < n - 1 {
        assert items[..n - 1][..k + 1] == items[..k + 1];
      }
    }
  }

  // Purging.

  /** A time before `now` under which the key is listed. */
  ghost predicate ListedBefore(index: seq<Bucket>, now: int, key: string) {
    exists time :: time < now && key in KeysAt(index, time)
  }

  /** A purge takes exactly the items whose key is listed under a time that has passed. */
  lemma {:induction false} PurgedExactly<V>(m: Memory<V>, now: int, x: Item<V>)
    requires WellFormed(m)
    ensures x in Purged(m, now).items <==> x in m.items && !ListedBefore(m.index, now, x.key)
    decreases |m.index|
  {
    if m.index == [] || m.index[0].time >= now {
      hide Purged;
      forall time | time < now
        ensures KeysAt(m.index, time) == []
      {
        NoneSoEarly(m.index, time, now);
      }
      NothingToPurge(m, now);
    } else {
      var t := m.index[0].time;
      var p := PurgedAt(m, t);
      PurgedAtSpec(m, t);
      PurgedExactly(p, now, x);
      ErasedAllSpec(m.items, KeysAt(m.index, t), x);
      forall time
        ensures KeysAt(p.index, time) == if time == t then [] else KeysAt(m.index, time)
      {
        RemoveTimeKeys(m.index, t, time);
      }
      hide KeysAt, WellFormed, ErasedAll, RemoveTime, Listed;
      assert ListedBefore(m.index, now, x.key) <==>
             x.key in KeysAt(m.index, t) || ListedBefore(p.index, now, x.key);
    }
  }

  /** A put begins with a purge: what it keeps under other keys is not listed under a time that has passed. */
  lemma PutPurges<V>(m: Memory<V>, key: string, value: V, seconds: int, size: nat, now: int, x: Item<V>)
    requires WellFormed(m) && x in PutItem(m, key, value, seconds, size, now).items && x.key != key
    ensures x in m.items && !ListedBefore(m.index, now, x.key)
  {
    PurgedExactly(m, now, x);
    hide Purged, Stored, ListedBefore;
    var p := Purged(m, now);
    if x !in p.items {
      StoredItems(p, Item(key, Deadline(seconds, now), value, size), x);
    }
  }

  /** So if all expiring items are listed, no item has expired after a put. */
  lemma PutLeavesNoneExpired<V>(m: Memory<V>, key: string, value: V, seconds: int, size: nat, now: int)
    requires WellFormed(m) && Listed(m)
    ensures NoneExpired(PutItem(m, key, value, seconds, size, now), now)
  {
    PurgedSpec(m, now);
    hide Purged, Stored, WellFormed, Listed;
    var n := PutItem(m, key, value, seconds, size, now);
    forall i | 0 <= i < |n.items| && HasExpiry(n.items[i].expiry)
      ensures n.items[i].expiry >= now
    {
      var p := Purged(m, now);
      if n.items[i] in p.items {
        var j :| 0 <= j < |p.items| && p.items[j] == n.items[i];
      } else {
        StoredItems(p, Item(key, Deadline(seconds, now), value, size), n.items[i]);
      }
    }
  }

  /** A read keeps all items, except that finding the item expired takes all that are listed under its time. */
  lemma GetKeepsExactly<V>(m: Memory<V>, key: string, now: int, x: Item<V>)
    requires WellFormed(m)
    ensures var k := Find(m.items, key);
            x in AfterGet(m, key, now).items <==>
            x in m.items && !(k < |m.items| && m.items[k].expiry < now && x.key in KeysAt(m.index, m.items[k].expiry))
  {
    var k := Find(m.items, key);
    if k < |m.items| {
      var p := Promoted(m.items, k);
      PromotedSpec(m, k);
      WithoutMember(m.items, k, x);
      ErasedAllSpec(p, KeysAt(m.index, m.items[k].expiry), x);
      assert x in p <==> x in m.items by {
        hide Find, KeysAt;
        if x in m.items && x.key == m.items[k].key {
          var i :| 0 <= i < |m.items| && m.items[i] == x;
        }
      }
    }
  }

  lemma NoneSoEarly(index: seq<Bucket>, time: int, now: int)
    requires SortedIndex(index) && time < now && (index == [] || index[0].time >= now)
    ensures KeysAt(index, time) == []
  {
    KeysAtLater(index, time);
  }

  lemma NothingToPurge<V>(m: Memory<V>, now: int)
    requires m.index == [] || m.index[0].time >= now
    ensures Purged(m, now) == m
  {
  }

  // Recency.

  /** The keys come in descending order of `rank`. */
  ghost predicate Ranked<V>(items: seq<Item<V>>, rank: string -> int) {
    forall i, j :: 0 <= i < j < |items| ==> rank(items[i].key) > rank(items[j].key)
  }

  lemma RankedWithout<V>(items: seq<Item<V>>, i: nat, rank: string -> int)
    requires Ranked(items, rank) && i < |items|
    ensures Ranked(Without(items, i), rank)
  {
    var w := Without(items, i);
    assert forall j :: 0 <= j < |w| ==> w[j] == items[if j < i then j else j + 1];
  }

  lemma {:induction false} RankedErased<V>(items: seq<Item<V>>, keys: seq<string>, rank: string -> int)
    requires Ranked(items, rank)
    ensures Ranked(ErasedAll(items, keys), rank)
    decreases |keys|
  {
    if keys != [] {
      if Has(items, keys[0]) {
        RankedWithout(items, Find(items, keys[0]), rank);
      }
      RankedErased(Erased(items, keys[0]), keys[1..], rank);
    }
  }

  lemma {:induction false} RankedPurged<V>(m: Memory<V>, now: int, rank: string -> int)
    requires Ranked(m.items, rank)
    ensures Ranked(Purged(m, now).items, rank)
    decreases |m.index|
  {
    if m.index != [] && m.index[0].time < now {
      RankedErased(m.items, KeysAt(m.index, m.index[0].time), rank);
      RankedPurged(PurgedAt(m, m.index[0].time), now, rank);
    }
  }

  lemma RankedFront<V>(x: Item<V>, items: seq<Item<V>>, rank: string -> int)
    requires Ranked(items, rank) && forall i :: 0 <= i < |items| ==> rank(x.key) > rank(items[i].key)
    ensures Ranked([x] + items, rank)
  {
  }

  lemma {:induction false} RankedPrefixFree<V>(items: seq<Item<V>>, prefix: string, rank: string -> int)
    requires Ranked(items, rank)
    ensures Ranked(WithoutPrefix(items, prefix), rank)
  {
    if items != [] {
      var w := WithoutPrefix(items[1..], prefix);
      RankedPrefixFree(items[1..], prefix, rank);
      if StartsWith(items[0].key, prefix) {
        assert [] + w == w;
      } else {
        forall i | 0 <= i < |w|
          ensures rank(items[0].key) > rank(w[i].key)
        {
          WithoutPrefixItems(items[1..], prefix, w[i]);
          var j :| 0 <= j < |items[1..]| && items[1..][j] == w[i];
          assert items[j + 1] == w[i];
        }
        RankedFront(items[0], w, rank);
      }
    }
  }

  /** The call uses the item of the key: it reads it, or puts a value that has not expired. */
  predicate Uses<V>(op: Op<V>, key: string) {
    (op.Get? && op.key == key) || (op.Put? && op.key == key && (HasExpiry(op.seconds) ==> op.seconds > 0))
  }

  /** The place of the last call that used the key, or -1. */
  function LastUse<V>(ops: seq<Op<V>>, key: string): (n: int)
    ensures -1 <= n < |ops|
  {
    if ops == [] then -1
    else if Uses(ops[|ops| - 1], key) then |ops| - 1
    else LastUse(ops[..|ops| - 1], key)
  }

  ghost function UseRank<V>(ops: seq<Op<V>>): string -> int {
    (key: string) => LastUse(ops, key)
  }

  lemma UseAppend<V>(ops: seq<Op<V>>, op: Op<V>, key: string)
    ensures LastUse(ops + [op], key) == if Uses(op, key) then |ops| else LastUse(ops, key)
  {
    assert (ops + [op])[..|ops|] == ops;
  }

  lemma RankedUnused<V>(items: seq<Item<V>>, ops: seq<Op<V>>, op: Op<V>)
    requires Ranked(items, UseRank(ops)) && forall i :: 0 <= i < |items| ==> !Uses(op, items[i].key)
    ensures Ranked(items, UseRank(ops + [op]))
  {
    hide LastUse, Uses;
    forall i | 0 <= i < |items|
      ensures LastUse(ops + [op], items[i].key) == LastUse(ops, items[i].key)
    {
      UseAppend(ops, op, items[i].key);
    }
  }

  /** The item just used goes in front of the others. */
  lemma RankedUsed<V>(x: Item<V>, rest: seq<Item<V>>, ops: seq<Op<V>>, op: Op<V>)
    requires Ranked(rest, UseRank(ops)) && Uses(op, x.key) && forall i :: 0 <= i < |rest| ==> rest[i].key != x.key
    ensures Ranked([x] + rest, UseRank(ops + [op]))
  {
    hide LastUse;
    RankedUnused(rest, ops, op);
    UseAppend(ops, op, x.key);
    forall i | 0 <= i < |rest|
      ensures LastUse(ops + [op], rest[i].key) < |ops|
    {
      UseAppend(ops, op, rest[i].key);
    }
    RankedFront(x, rest, UseRank(ops + [op]));
  }

  lemma RankedSlice<V>(items: seq<Item<V>>, part: seq<Item<V>>, rank: string -> int)
    requires Ranked(items, rank) && part <= items
    ensures Ranked(part, rank)
  {
  }

  lemma OthersOnly<V>(items: seq<Item<V>>, key: string)
    requires DistinctKeys(items)
    ensures forall i :: 0 <= i < |Erased(items, key)| ==> Erased(items, key)[i].key != key
  {
    forall i | 0 <= i < |Erased(items, key)|
      ensures Erased(items, key)[i].key != key
    {
      ErasedSpec(items, key, Erased(items, key)[i]);
    }
  }

  lemma RankedErasedKey<V>(items: seq<Item<V>>, key: string, rank: string -> int)
    requires Ranked(items, rank)
    ensures Ranked(Erased(items, key), rank)
  {
    if Has(items, key) {
      RankedWithout(items, Find(items, key), rank);
    }
  }

  lemma PutRanked<V>(m: Memory<V>, ops: seq<Op<V>>, op: Op<V>)
    requires WellFormed(m) && Ranked(m.items, UseRank(ops)) && op.Put?
    ensures Ranked(Apply(m, op).items, UseRank(ops + [op]))
  {
    var p := Purged(m, op.now);
    var x := Item(op.key, Deadline(op.seconds, op.now), op.value, op.size);
    RankedPurged(m, op.now, UseRank(ops));
    PurgedSpec(m, op.now);
    hide Purged, Evicted, Ranked, Listed, NoneExpired, SortedIndex, UseRank;
    if HasExpiry(op.seconds) && op.seconds <= 0 {
      RankedUnused(p.items, ops, op);
    } else if Has(p.items, op.key) || Cost(x) <= p.maxSize {
      InFrontSpec(p, x);
      EvictedPrefix(InFront(p, x));
      OthersOnly(p.items, op.key);
      RankedErasedKey(p.items, op.key, UseRank(ops));
      RankedUsed(x, Erased(p.items, op.key), ops, op);
      RankedSlice(InFront(p, x).items, Stored(p, x).items, UseRank(ops + [op]));
    } else {
      NotStored(p, x);
      NoneOfKey(p.items, op.key);
      RankedUnused(p.items, ops, op);
    }
  }

  lemma NoneOfKey<V>(items: seq<Item<V>>, key: string)
    requires !Has(items, key)
    ensures forall i :: 0 <= i < |items| ==> items[i].key != key
  {
  }

  lemma GetRanked<V>(m: Memory<V>, ops: seq<Op<V>>, op: Op<V>)
    requires WellFormed(m) && Ranked(m.items, UseRank(ops)) && op.Get?
    ensures Ranked(Apply(m, op).items, UseRank(ops + [op]))
  {
    var k := Find(m.items, op.key);
    if k == |m.items| {
      RankedUnused(m.items, ops, op);
    } else {
      var x := m.items[k];
      OthersOnly(m.items, op.key);
      RankedErasedKey(m.items, op.key, UseRank(ops));
      RankedUsed(x, Erased(m.items, op.key), ops, op);
      RankedErased(Promoted(m.items, k), KeysAt(m.index, x.expiry), UseRank(ops + [op]));
    }
  }

  lemma StepRanked<V>(m: Memory<V>, ops: seq<Op<V>>, op: Op<V>)
    requires WellFormed(m) && Ranked(m.items, UseRank(ops))
    ensures WellFormed(Apply(m, op)) && Ranked(Apply(m, op).items, UseRank(ops + [op]))
  {
    hide WellFormed, Listed, Ranked, PutItem, AfterGet, Erased, WithoutPrefix, UseRank;
    match op
    case Put(key, value, seconds, size, now) =>
      PutWellFormed(m, key, value, seconds, size, now);
      PutRanked(m, ops, op);
    case Get(key, now) =>
      GetListed(m, key, now);
      GetRanked(m, ops, op);
    case Remove(key) =>
      RemoveListed(m, key);
      RankedErasedKey(m.items, key, UseRank(ops));
      RankedUnused(Erased(m.items, key), ops, op);
    case RemovePrefix(prefix) =>
      PrefixListed(m, prefix);
      RankedPrefixFree(m.items, prefix, UseRank(ops));
      RankedUnused(WithoutPrefix(m.items, prefix), ops, op);
  }

  lemma {:induction false} RunLast<V>(m: Memory<V>, ops: seq<Op<V>>, op: Op<V>)
    ensures RunAll(m, ops + [op]) == Apply(RunAll(m, ops), op)
    decreases |ops|
  {
    hide Apply;
    if ops == [] {
      assert ops + [op] == [op];
      assert RunAll(Apply(m, op), []) == Apply(m, op);
    } else {
      assert (ops + [op])[1..] == ops[1..] + [op];
      RunLast(Apply(m, ops[0]), ops[1..], op);
    }
  }

  /** After any run of calls the items are in the order of their last use, the most recently used first. */
  lemma {:induction false} InOrderOfUse<V>(maxSize: nat, ops: seq<Op<V>>)
    ensures WellFormed(RunAll(Memory([], [], maxSize), ops))
    ensures Ranked(RunAll(Memory([], [], maxSize), ops).items, UseRank(ops))
    decreases |ops|
  {
    var m: Memory<V> := Memory([], [], maxSize);
    if ops != [] {
      var n := |ops| - 1;
      InOrderOfUse(maxSize, ops[..n]);
      hide Apply, RunAll, WellFormed, Ranked, UseRank;
      StepRanked(RunAll(m, ops[..n]), ops[..n], ops[n]);
      assert ops == ops[..n] + [ops[n]];
      RunLast(m, ops[..n], ops[n]);
    }
  }

  /** So what a put evicts was used less recently than everything it keeps. */
  lemma LeastRecentlyUsedGo<V>(maxSize: nat, ops: seq<Op<V>>, op: Op<V>, x: Item<V>, y: Item<V>)
    requires op.Put? && x.key != op.key && x in Purged(RunAll(Memory([], [], maxSize), ops), op.now).items
    requires x !in RunAll(Memory([], [], maxSize), ops + [op]).items
    requires y in RunAll(Memory([], [], maxSize), ops + [op]).items
    ensures LastUse(ops + [op], x.key) < LastUse(ops + [op], y.key)
  {
    var m: Memory<V> := RunAll(Memory([], [], maxSize), ops);
    InOrderOfUse(maxSize, ops);
    RunLast(Memory([], [], maxSize), ops, op);
    EvictedBehind(m, ops, op, x, y);
  }

  lemma EvictedBehind<V>(m: Memory<V>, ops: seq<Op<V>>, op: Op<V>, x: Item<V>, y: Item<V>)
    requires WellFormed(m) && Ranked(m.items, UseRank(ops)) && op.Put? && x.key != op.key
    requires x in Purged(m, op.now).items && x !in Apply(m, op).items && y in Apply(m, op).items
    ensures LastUse(ops + [op], x.key) < LastUse(ops + [op], y.key)
  {
    var p := Purged(m, op.now);
    var z := Item(op.key, Deadline(op.seconds, op.now), op.value, op.size);
    RankedPurged(m, op.now, UseRank(ops));
    PurgedSpec(m, op.now);
    hide Purged, Evicted, Listed, NoneExpired, SortedIndex, Ranked;
    if Has(p.items, op.key) || Cost(z) <= p.maxSize {
      InFrontSpec(p, z);
      EvictedPrefix(InFront(p, z));
      OthersOnly(p.items, op.key);
      RankedErasedKey(p.items, op.key, UseRank(ops));
      RankedUsed(z, Erased(p.items, op.key), ops, op);
      ErasedSpec(p.items, op.key, x);
      hide Erased, LastUse;
      BehindSlice(InFront(p, z).items, Stored(p, z).items, x, y, UseRank(ops + [op]));
    } else {
      NotStored(p, z);
    }
  }

  lemma BehindSlice<V>(items: seq<Item<V>>, part: seq<Item<V>>, x: Item<V>, y: Item<V>, rank: string -> int)
    requires Ranked(items, rank) && part <= items && x in items && x !in part && y in part
    ensures rank(x.key) < rank(y.key)
  {
    var i :| 0 <= i < |items| && items[i] == x;
    var j :| 0 <= j < |part| && part[j] == y;
    assert forall k :: 0 <= k < |part| ==> items[k] == part[k];
  }
}
