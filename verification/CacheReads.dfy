/** What reads of the two-tier cache find, what they bring back into memory, and what is never lost. */
module CacheReads {
  import opened Wrappers
  import opened LruCache
  import opened InMemoryCache
  import opened DiskCache
  import opened DefaultCache
  import Decimals

  ghost predicate Sound<V>(c: Cache<V>) {
    c.isOpen && (c.memory.Some? ==> WellFormed(c.memory.value))
  }

  /** The item of the key is in memory and has not expired. */
  ghost predicate Fresh<V>(c: Cache<V>, key: string, now: int, x: Item<V>) {
    c.memory.Some? && x in c.memory.value.items && x.key == key && now <= x.expiry
  }

  /** The entry of the key is on disk and has time left. */
  ghost predicate Readable<V>(c: Cache<V>, key: string, now: int) {
    c.disk.Some? && key in c.disk.value &&
    (ExpiryKey(key) in c.disk.value ==> now < Decimals.Parse(c.disk.value[ExpiryKey(key)]))
  }

  // What a read returns.

  /** A read returns the item in memory up to and at its expiry, else the entry on disk before its own, else nothing. */
  lemma ReadsExactly<V>(c: Cache<V>, op: DefaultCache.Op<V>)
    requires Sound(c) && op.Get?
    ensures forall x :: Fresh(c, op.key, op.now, x) ==> DefaultCache.Apply(c, op).hit == Some(x.value)
    ensures (forall x :: !Fresh(c, op.key, op.now, x)) ==>
              DefaultCache.Apply(c, op).hit ==
              if Readable(c, op.key, op.now) then Some(op.decode(c.disk.value[op.key])) else None
  {
    hide PutItem, AfterGet, ExpiryKey, Decimals.Parse, SortedIndex;
    if c.memory.Some? {
      var items := c.memory.value.items;
      var k := Find(items, op.key);
      forall x | x in items && x.key == op.key
        ensures k < |items| && x == items[k]
      {
        var i :| 0 <= i < |items| && items[i] == x;
        FindDistinct(items, i);
      }
      assert k < |items| && items[k].expiry >= op.now ==> Fresh(c, op.key, op.now, items[k]);
    }
  }

  /**
   A value that a read finds on disk is in memory afterwards, in front of all others and with its absolute expiry,
   exactly when it fits there.
   */
  lemma ReadPromotes<V>(c: Cache<V>, op: DefaultCache.Op<V>)
    requires Sound(c) && op.Get? && c.memory.Some? && GetValue(c.memory.value, op.key, op.now).None?
    requires Readable(c, op.key, op.now) && op.now >= 0
    requires ExpiryKey(op.key) in c.disk.value ==> Decimals.Parse(c.disk.value[ExpiryKey(op.key)]) < TIME_MAX
    ensures var d := c.disk.value; var m := DefaultCache.Apply(c, op).cache.memory;
            var time := if ExpiryKey(op.key) in d then Decimals.Parse(d[ExpiryKey(op.key)]) else TIME_MAX;
            var x := Item(op.key, time, op.decode(d[op.key]), |d[op.key]|);
            && m.Some? && WellFormed(m.value)
            && (m.value.items != [] && m.value.items[0] == x <==>
                (if d[op.key] == "" then 1 else |d[op.key]|) <= c.memory.value.maxSize)
  {
    var d := c.disk.value;
    var m := AfterGet(c.memory.value, op.key, op.now);
    GetListed(c.memory.value, op.key, op.now);
    GetKeepsSize(c.memory.value, op.key, op.now);
    hide AfterGet, WellFormed, Listed, ExpiryKey, Decimals.Parse, PutItem, GetValue;
    var seconds := Remaining(d, op.key, op.now);
    PutInFront(m, op.key, op.decode(d[op.key]), seconds, |d[op.key]|, op.now);
  }

  lemma GetKeepsSize<V>(m: Memory<V>, key: string, now: int)
    ensures AfterGet(m, key, now).maxSize == m.maxSize
  {
  }

  /** A put that has not expired is in front exactly when it fits. */
  lemma PutInFront<V>(m: Memory<V>, key: string, value: V, seconds: int, size: nat, now: int)
    requires WellFormed(m) && (HasExpiry(seconds) ==> seconds > 0)
    ensures var n := PutItem(m, key, value, seconds, size, now);
            var x := Item(key, Deadline(seconds, now), value, size);
            WellFormed(n) && (n.items != [] && n.items[0] == x <==> (if size == 0 then 1 else size) <= m.maxSize)
  {
    var p := Purged(m, now);
    var x := Item(key, Deadline(seconds, now), value, size);
    PurgedSpec(m, now);
    PutWellFormed(m, key, value, seconds, size, now);
    if Has(p.items, key) || Cost(x) <= p.maxSize {
      InFrontSpec(p, x);
      EvictedPrefix(InFront(p, x));
      EvictedKeepsFirst(InFront(p, x));
      hide Purged, Evicted, Listed, NoneExpired, WellFormed, TotalCost, Erased;
      assert Stored(p, x) == Evicted(InFront(p, x));
    } else {
      NotStored(p, x);
      hide Purged, Stored, Listed, NoneExpired, WellFormed;
      assert p.items != [] && p.items[0] == x ==> Has(p.items, key) by {
        if p.items != [] && p.items[0] == x {
          HasItem(p.items, x);
        }
      }
    }
  }

  /** So the value is read from memory from then on, up to and at its expiry. */
  lemma FrontIsRead<V>(m: Memory<V>, x: Item<V>, later: int)
    requires m.items != [] && m.items[0] == x
    ensures GetValue(m, x.key, later) == if later <= x.expiry then Some(x.value) else None
  {
  }

  /** After a put that has not expired, reported or not, the value is in front in memory exactly when it fits. */
  lemma PutPromotes<V>(c: Cache<V>, op: DefaultCache.Op<V>)
    requires Sound(c) && op.Put? && c.memory.Some? && (HasExpiry(op.seconds) ==> op.seconds > 0)
    ensures var m := DefaultCache.Apply(c, op).cache.memory;
            var time := if op.seconds == TIME_MAX then TIME_MAX else op.now + op.seconds;
            m.Some? && (m.value.items != [] && m.value.items[0] == Item(op.key, time, op.value, |op.encoded|) <==>
                        (if op.encoded == "" then 1 else |op.encoded|) <= c.memory.value.maxSize)
  {
    PutInFront(c.memory.value, op.key, op.value, op.seconds, |op.encoded|, op.now);
    hide PutItem, Accepts, WellFormed;
  }

  /** A read that memory answers leaves the disk and the set of items alone, and moves the item to the front. */
  lemma MemoryReadKeeps<V>(c: Cache<V>, op: DefaultCache.Op<V>, x: Item<V>)
    requires Sound(c) && op.Get? && Fresh(c, op.key, op.now, x)
    ensures var o := DefaultCache.Apply(c, op).cache;
            && o.disk == c.disk && o.memory.Some? && o.memory.value.index == c.memory.value.index
            && o.memory.value.items != [] && o.memory.value.items[0] == x
            && forall y :: y in o.memory.value.items <==> y in c.memory.value.items
  {
    var items := c.memory.value.items;
    var i :| 0 <= i < |items| && items[i] == x;
    FindDistinct(items, i);
    forall y
      ensures y in Promoted(items, i) <==> y in items
    {
      WithoutMember(items, i, y);
      SameKeySameItem(items, i, y);
    }
    hide DistinctKeys, Without;
  }

  lemma SameKeySameItem<V>(items: seq<Item<V>>, i: nat, y: Item<V>)
    requires DistinctKeys(items) && i < |items|
    ensures y in items && y.key == items[i].key ==> y == items[i]
  {
  }

  /** A read that memory does not answer changes the disk only by discarding an entry that has expired. */
  lemma DiskReadKeeps<V>(c: Cache<V>, op: DefaultCache.Op<V>)
    requires Sound(c) && op.Get? && c.disk.Some? && forall x :: !Fresh(c, op.key, op.now, x)
    ensures var d := c.disk.value; var companion := op.key + "::expiry";
            DefaultCache.Apply(c, op).cache.disk ==
            Some(if companion in d && Decimals.Parse(d[companion]) <= op.now
                 then d - (if op.keyGone then {op.key} else {}) - (if op.expiryGone then {companion} else {})
                 else d)
  {
    assert ExpiryKey(op.key) == op.key + "::expiry";
    if c.memory.Some? {
      var items := c.memory.value.items;
      var k := Find(items, op.key);
      assert k < |items| && items[k].expiry >= op.now ==> Fresh(c, op.key, op.now, items[k]);
    }
    var d := c.disk.value;
    assert d - {} == d && forall k :: d - {k} - {} == d - {k};
    hide PutItem, AfterGet, Decimals.Parse, Find;
  }

  // What is not lost.

  /** What a successful put leaves: in memory at most the new item of the key, on disk the new entry. */
  lemma AfterSuccess<V>(c: Cache<V>, op: DefaultCache.Op<V>)
    requires Sound(c) && op.Put? && op.seconds <= TIME_MAX && !IsExpiryKey(op.key)
    requires DefaultCache.Apply(c, op).reported
    ensures var o := DefaultCache.Apply(c, op).cache; var time := Deadline(op.seconds, op.now);
            && Sound(o) && o.memory.Some? == c.memory.Some? && o.disk.Some? == c.disk.Some?
            && (o.memory.Some? ==> forall x :: x in o.memory.value.items && x.key == op.key ==>
                                     x == Item(op.key, time, op.value, |op.encoded|))
            && (o.disk.Some? ==> op.key in o.disk.value && o.disk.value[op.key] == op.encoded)
            && (o.disk.Some? && op.seconds < TIME_MAX ==>
                  ExpiryKey(op.key) in o.disk.value && Decimals.Parse(o.disk.value[ExpiryKey(op.key)]) == time)
            && (o.disk.Some? && op.seconds == TIME_MAX ==> SameEntry(c.disk.value, o.disk.value, ExpiryKey(op.key)))
  {
    SameTiers(c, op);
    ExpiryKeys(op.key);
    Decimals.RoundTrip(op.seconds + op.now);
    if c.memory.Some? {
      var m := c.memory.value;
      PutWellFormed(m, op.key, op.value, op.seconds, |op.encoded|, op.now);
      forall x | x in PutItem(m, op.key, op.value, op.seconds, |op.encoded|, op.now).items && x.key == op.key
        ensures x == Item(op.key, Deadline(op.seconds, op.now), op.value, |op.encoded|)
      {
        AcceptedItems(m, op.key, op.value, op.seconds, |op.encoded|, op.now, x);
      }
    }
    hide PutItem, Accepts, WellFormed, IsExpiryKey, ExpiryKey, Decimals.Parse, Decimals.ToString;
  }

  /** The key's item is in memory. */
  ghost predicate InMemory<V>(c: Cache<V>, key: string) {
    c.memory.Some? && exists x :: x in c.memory.value.items && x.key == key
  }

  /**
   After a put that reports success and any calls about other keys, whatever these evict, purge or fail to do, the
   value is read until its deadline with a disk tier, and up to and at it as long as it is in memory; not otherwise.
   A value without expiry is read from disk unless a companion of an earlier put has expired.
   */
  lemma ReadAfterPut<V>(c: Cache<V>, op: DefaultCache.Op<V>, others: seq<DefaultCache.Op<V>>,
                        get: DefaultCache.Op<V>)
    requires Sound(c) && op.Put? && get.Get? && get.key == op.key && Proper(op, op.key, get.decode)
    requires DefaultCache.Apply(c, op).reported && get.now <= TIME_MAX
    requires AllOthers(others, op.key) && NoneReaches(others, op.key)
    ensures var o := DefaultCache.RunAll(DefaultCache.Apply(c, op).cache, others);
            var hit := DefaultCache.Apply(o, get).hit; var deadline := op.now + op.seconds;
            && (hit.Some? ==> hit.value == op.value)
            && (op.seconds < TIME_MAX ==>
                  (hit.Some? <==> (c.disk.Some? && get.now < deadline) || (InMemory(o, op.key) && get.now <= deadline)))
            && (op.seconds == TIME_MAX ==>
                  (hit.Some? <==>
                   || InMemory(o, op.key)
                   || (c.disk.Some? && (ExpiryKey(op.key) in c.disk.value ==>
                                          get.now < Decimals.Parse(c.disk.value[ExpiryKey(op.key)])))))
  {
    var a := DefaultCache.Apply(c, op).cache;
    var o := DefaultCache.RunAll(a, others);
    AfterSuccess(c, op);
    OthersRun(a, others, op.key);
    hide DefaultCache.Apply, DefaultCache.RunAll, WellFormed, IsExpiryKey, ExpiryKey, Decimals.Parse, AllOthers,
         NoneReaches;
    ReadsExactly(o, get);
    var time := Deadline(op.seconds, op.now);
    if o.memory.Some? {
      forall x | x in o.memory.value.items && x.key == op.key
        ensures x == Item(op.key, time, op.value, |op.encoded|)
      {
        var i :| 0 <= i < |o.memory.value.items| && o.memory.value.items[i] == x;
        assert x in a.memory.value.items;
      }
    }
    var y := Item(op.key, time, op.value, |op.encoded|);
    assert InMemory(o, op.key) && get.now <= time ==> Fresh(o, op.key, get.now, y);
    assert !(InMemory(o, op.key) && get.now <= time) ==> forall x :: !Fresh(o, op.key, get.now, x);
  }

  /** A removal leaves all reads of other keys as they were, unless it reaches into their companion. */
  lemma RemovalLeavesOthers<V>(c: Cache<V>, op: DefaultCache.Op<V>, get: DefaultCache.Op<V>)
    requires Sound(c) && (op.Remove? || op.RemovePrefix?) && get.Get? && !Concerns(op, get.key)
    requires !IsExpiryKey(get.key) && (op.Remove? ==> !IsExpiryKey(op.key)) && NoneReaches([op], get.key)
    ensures DefaultCache.Apply(DefaultCache.Apply(c, op).cache, get).hit == DefaultCache.Apply(c, get).hit
  {
    var o := DefaultCache.Apply(c, op).cache;
    SameTiers(c, op);
    if c.memory.Some? {
      OthersMemory(c, op, get.key);
      SameItems(c, op, get.key);
    }
    if c.disk.Some? {
      assert [op][0] == op;
      OthersDisk(c, op, get.key);
    }
    hide DefaultCache.Apply, WellFormed, IsExpiryKey, ExpiryKey, Decimals.Parse, Concerns, NoneReaches;
    ReadsExactly(c, get);
    ReadsExactly(o, get);
    assert Readable(c, get.key, get.now) <==> Readable(o, get.key, get.now);
    if x :| Fresh(c, get.key, get.now, x) {
      assert Fresh(o, get.key, get.now, x);
    } else {
      assert forall x :: Fresh(o, get.key, get.now, x) ==> Fresh(c, get.key, get.now, x);
    }
  }

  lemma SameItems<V>(c: Cache<V>, op: DefaultCache.Op<V>, key: string)
    requires Sound(c) && c.memory.Some? && (op.Remove? || op.RemovePrefix?) && !Concerns(op, key)
    ensures DefaultCache.Apply(c, op).cache.memory.Some?
    ensures forall x: Item<V> :: x.key == key ==>
              (x in c.memory.value.items <==> x in DefaultCache.Apply(c, op).cache.memory.value.items)
  {
    var items := c.memory.value.items;
    forall x: Item<V> | x.key == key
      ensures op.Remove? ==> (x in Erased(items, op.key) <==> x in items)
      ensures op.RemovePrefix? ==> (x in WithoutPrefix(items, op.prefix) <==> x in items)
    {
      if op.Remove? {
        ErasedSpec(items, op.key, x);
      } else {
        WithoutPrefixItems(items, op.prefix, x);
      }
    }
    hide Erased, WithoutPrefix, KeepWithoutPrefix;
  }

  /** Companion keys are the keys with "::expiry" behind; so the prefix "k:" reaches into that of "k". */
  lemma CompanionExample(key: string)
    ensures ExpiryKey(key) == key + "::expiry" && ReachesCompanion("k:", "k")
  {
    assert ExpiryKey("k")[..2] == "k:";
  }
}
