/**
 The two-tier cache: a memory tier over a disk tier, which keeps the expiry of a key under a companion key.

 The clock is read once per call. Values are of any type; `encoded` is what the caller's encoder returned, and
 `decode` is the caller's decoder.
 */
module DefaultCache {
  import opened Wrappers
  import opened LruCache
  import opened InMemoryCache
  import opened DiskCache
  import Decimals

  const EXPIRY_SUFFIX := "::expiry"

  function ExpiryKey(key: string): string {
    key + EXPIRY_SUFFIX
  }

  predicate IsExpiryKey(key: string) {
    |EXPIRY_SUFFIX| <= |key| && key[|key| - |EXPIRY_SUFFIX|..] == EXPIRY_SUFFIX
  }

  lemma ExpiryKeys(key: string)
    ensures IsExpiryKey(ExpiryKey(key))
    ensures forall k :: ExpiryKey(k) == ExpiryKey(key) ==> k == key
  {
    forall k | ExpiryKey(k) == ExpiryKey(key)
      ensures k == key
    {
      assert k == ExpiryKey(k)[..|k|] && key == ExpiryKey(key)[..|key|];
    }
  }

  type Database = map<string, string>

  datatype Cache<V> = Cache(isOpen: bool, memory: Option<Memory<V>>, disk: Option<Database>)

  /** The state after a call, what the call reported, and the value it returned, if any. */
  datatype Outcome<V> = Outcome(cache: Cache<V>, reported: bool, hit: Option<V>)

  /**
   A call. `expiryFits`, `fits` and `works` say whether the database lets a write through, `keyGone` and
   `expiryGone` whether it lets through the two deletions with which a read discards an expired entry.
   */
  datatype Op<V> =
    | Put(key: string, value: V, encoded: string, seconds: int, now: int, expiryFits: bool, fits: bool)
    | Get(key: string, now: int, decode: string -> V, keyGone: bool, expiryGone: bool)
    | Remove(key: string, works: bool)
    | RemovePrefix(prefix: string, works: bool)

  // The calls on values.

  function StoredExpiry(d: Database, key: string, seconds: int, now: int): Database {
    if seconds < TIME_MAX then d[ExpiryKey(key) := Decimals.ToString(seconds + now)] else d
  }

  function DiskPut<V>(c: Cache<V>, key: string, encoded: string, seconds: int, now: int,
                      expiryFits: bool, fits: bool): Outcome<V>
  {
    if c.disk.None? then Outcome(c, true, None)
    else if seconds < TIME_MAX && !expiryFits then Outcome(c, false, None)
    else
      var d := StoredExpiry(c.disk.value, key, seconds, now);
      if fits then Outcome(c.(disk := Some(d[key := encoded])), true, None)
      else Outcome(c.(disk := Some(d)), false, None)
  }

  function PutCall<V>(c: Cache<V>, key: string, value: V, encoded: string, seconds: int, now: int,
                      expiryFits: bool, fits: bool): Outcome<V>
  {
    if !c.isOpen then Outcome(c, false, None)
    else if c.memory.None? then DiskPut(c, key, encoded, seconds, now, expiryFits, fits)
    else
      var m := c.memory.value;
      var c' := c.(memory := Some(PutItem(m, key, value, seconds, |encoded|, now)));
      if Accepts(m, key, value, seconds, |encoded|, now) then DiskPut(c', key, encoded, seconds, now, expiryFits, fits)
      else Outcome(c', false, None)
  }

  /** How long the entry on disk has to live. */
  function Remaining(d: Database, key: string, now: int): int {
    if ExpiryKey(key) in d then Decimals.Parse(d[ExpiryKey(key)]) - now else TIME_MAX
  }

  /** What is left of an expired entry: the key and then its companion are deleted, as far as that works. */
  function Discarded(d: Database, key: string, keyGone: bool, expiryGone: bool): Database {
    var e := if keyGone then d - {key} else d;
    if expiryGone then e - {ExpiryKey(key)} else e
  }

  function DiskGet<V>(c: Cache<V>, key: string, now: int, decode: string -> V,
                      keyGone: bool, expiryGone: bool): Outcome<V>
  {
    if c.disk.None? then Outcome(c, true, None)
    else
      var d := c.disk.value;
      if Remaining(d, key, now) <= 0 then
        Outcome(c.(disk := Some(Discarded(d, key, keyGone, expiryGone))), true, None)
      else if key !in d then Outcome(c, true, None)
      else
        var v := decode(d[key]);
        var m := if c.memory.None? then None
                 else Some(PutItem(c.memory.value, key, v, Remaining(d, key, now), |d[key]|, now));
        Outcome(c.(memory := m), true, Some(v))
  }

  function GetCall<V>(c: Cache<V>, key: string, now: int, decode: string -> V,
                      keyGone: bool, expiryGone: bool): Outcome<V>
  {
    if !c.isOpen then Outcome(c, true, None)
    else if c.memory.None? then DiskGet(c, key, now, decode, keyGone, expiryGone)
    else
      var m := c.memory.value;
      var c' := c.(memory := Some(AfterGet(m, key, now)));
      if GetValue(m, key, now).Some? then Outcome(c', true, GetValue(m, key, now))
      else DiskGet(c', key, now, decode, keyGone, expiryGone)
  }

  function RemoveCall<V>(c: Cache<V>, key: string, works: bool): Outcome<V> {
    if !c.isOpen then Outcome(c, false, None)
    else
      var m := if c.memory.None? then None else Some(c.memory.value.(items := Erased(c.memory.value.items, key)));
      var d := if c.disk.Some? && works then Some(c.disk.value - {key}) else c.disk;
      Outcome(c.(memory := m, disk := d), c.disk.None? || works, None)
  }

  function RemovePrefixCall<V>(c: Cache<V>, prefix: string, works: bool): Outcome<V> {
    if !c.isOpen then Outcome(c, false, None)
    else
      var m := if c.memory.None? then None
               else Some(c.memory.value.(items := WithoutPrefix(c.memory.value.items, prefix)));
      var d := if c.disk.Some? && works then Some(KeepWithoutPrefix(c.disk.value, prefix)) else c.disk;
      Outcome(c.(memory := m, disk := d), c.disk.None? || works, None)
  }

  function Apply<V>(c: Cache<V>, op: Op<V>): Outcome<V> {
    match op
    case Put(key, value, encoded, seconds, now, e, f) => PutCall(c, key, value, encoded, seconds, now, e, f)
    case Get(key, now, decode, kg, eg) => GetCall(c, key, now, decode, kg, eg)
    case Remove(key, works) => RemoveCall(c, key, works)
    case RemovePrefix(prefix, works) => RemovePrefixCall(c, prefix, works)
  }

  // The reference for one key: the value last put under it since its last removal, and when that expires.

  datatype Record<V> = Record(value: V, deadline: int)

  /** A deadline that is never reached: the largest signed 64-bit number. */
  const NEVER: int := 0x7fff_ffff_ffff_ffff

  predicate Concerns<V>(op: Op<V>, key: string) {
    if op.RemovePrefix? then StartsWith(key, op.prefix) else op.key == key
  }

  function LastAfter<V>(last: Option<Record<V>>, op: Op<V>, key: string): Option<Record<V>> {
    if !Concerns(op, key) || op.Get? then last
    else if op.Put? then Some(Record(op.value, if op.seconds < NEVER then op.now + op.seconds else NEVER))
    else None
  }

  /**
   What callers have to see to: no key looks like a companion key; and for the key in question decoders invert
   encoders and times fit.
   */
  ghost predicate Proper<V>(op: Op<V>, key: string, decode: string -> V) {
    match op
    case Put(k, value, encoded, seconds, now, _, _) =>
      !IsExpiryKey(k) &&
      (k == key ==> decode(encoded) == value && seconds <= TIME_MAX &&
                    (seconds < TIME_MAX ==> seconds + now < TIME_MAX))
    case Get(k, now, d, _, _) => !IsExpiryKey(k) && (k == key ==> d == decode && now >= 0)
    case Remove(k, _) => !IsExpiryKey(k)
    case RemovePrefix(_, _) => true
  }

  // Agreement of the tiers with the reference; `timed` adds that nothing in them outlives its deadline.

  ghost predicate Expires<V>(last: Option<Record<V>>) {
    last.Some? && last.value.deadline < NEVER
  }

  ghost predicate ItemAgrees<V>(x: Item<V>, last: Option<Record<V>>, timed: bool) {
    last.Some? && x.value == last.value.value && (timed && Expires(last) ==> x.expiry <= last.value.deadline)
  }

  ghost predicate MemoryAgrees<V>(m: Memory<V>, key: string, last: Option<Record<V>>, timed: bool) {
    && WellFormed(m)
    && forall i :: 0 <= i < |m.items| && m.items[i].key == key ==> ItemAgrees(m.items[i], last, timed)
  }

  /** The companion of the key has the entry expire by the deadline. */
  ghost predicate ExpiresBy(d: Database, key: string, deadline: int) {
    ExpiryKey(key) in d && Decimals.Parse(d[ExpiryKey(key)]) <= deadline
  }

  ghost predicate DiskAgrees<V>(d: Database, key: string, last: Option<Record<V>>, decode: string -> V, timed: bool) {
    key in d ==> last.Some? && decode(d[key]) == last.value.value &&
                 (timed && Expires(last) ==> ExpiresBy(d, key, last.value.deadline))
  }

  ghost predicate Agrees<V>(c: Cache<V>, key: string, last: Option<Record<V>>, decode: string -> V, timed: bool) {
    && c.isOpen
    && (c.memory.Some? ==> MemoryAgrees(c.memory.value, key, last, timed))
    && (c.disk.Some? ==> DiskAgrees(c.disk.value, key, last, decode, timed))
  }

  lemma MemoryItem<V>(m: Memory<V>, key: string, last: Option<Record<V>>, timed: bool, x: Item<V>)
    requires MemoryAgrees(m, key, last, timed) && x in m.items && x.key == key
    ensures ItemAgrees(x, last, timed)
  {
    var i :| 0 <= i < |m.items| && m.items[i] == x;
  }

  /** The items of the key in `n` were in `m`. */
  ghost predicate OnlyKeeps<V>(m: Memory<V>, n: Memory<V>, key: string) {
    WellFormed(n) && forall i :: 0 <= i < |n.items| && n.items[i].key == key ==> n.items[i] in m.items
  }

  lemma KeptAgrees<V>(m: Memory<V>, n: Memory<V>, key: string, last: Option<Record<V>>, timed: bool)
    requires MemoryAgrees(m, key, last, timed) && OnlyKeeps(m, n, key)
    ensures MemoryAgrees(n, key, last, timed)
  {
    hide WellFormed, ItemAgrees;
    forall i | 0 <= i < |n.items| && n.items[i].key == key
      ensures ItemAgrees(n.items[i], last, timed)
    {
      MemoryItem(m, key, last, timed, n.items[i]);
    }
  }

  /** The prefix removes the companion key of `key` but not the key. */
  predicate ReachesCompanion(prefix: string, key: string) {
    StartsWith(ExpiryKey(key), prefix) && !StartsWith(key, prefix)
  }

  // What a step does to the items and the entry of a key that it is not about.

  ghost predicate SameEntry(d: Database, e: Database, key: string) {
    (key in e <==> key in d) && (key in d && key in e ==> e[key] == d[key])
  }

  lemma PutKeeps<V>(m: Memory<V>, k: string, value: V, seconds: int, size: nat, now: int, key: string)
    requires WellFormed(m) && k != key
    ensures OnlyKeeps(m, PutItem(m, k, value, seconds, size, now), key)
  {
    hide PutItem, WellFormed;
    PutWellFormed(m, k, value, seconds, size, now);
    var n := PutItem(m, k, value, seconds, size, now);
    forall i | 0 <= i < |n.items| && n.items[i].key == key
      ensures n.items[i] in m.items
    {
      PutItems(m, k, value, seconds, size, now, n.items[i]);
    }
  }

  lemma GetKeeps<V>(m: Memory<V>, k: string, now: int, key: string)
    requires WellFormed(m)
    ensures OnlyKeeps(m, AfterGet(m, k, now), key)
  {
    hide AfterGet, WellFormed, Listed;
    GetListed(m, k, now);
    var n := AfterGet(m, k, now);
    forall i | 0 <= i < |n.items| && n.items[i].key == key
      ensures n.items[i] in m.items
    {
      GetItems(m, k, now, n.items[i]);
    }
  }

  lemma KeepsTransitive<V>(m: Memory<V>, n: Memory<V>, o: Memory<V>, key: string)
    requires OnlyKeeps(m, n, key) && OnlyKeeps(n, o, key)
    ensures OnlyKeeps(m, o, key)
  {
    hide WellFormed;
    forall i | 0 <= i < |o.items| && o.items[i].key == key
      ensures o.items[i] in m.items
    {
      var j :| 0 <= j < |n.items| && n.items[j] == o.items[i];
    }
  }

  lemma RemoveKeeps<V>(m: Memory<V>, k: string, key: string)
    requires WellFormed(m)
    ensures OnlyKeeps(m, m.(items := Erased(m.items, k)), key)
    ensures k == key ==> forall i :: 0 <= i < |Erased(m.items, k)| ==> Erased(m.items, k)[i].key != key
  {
    hide Erased, SortedIndex, Listed;
    RemoveListed(m, k);
    var e := Erased(m.items, k);
    forall i | 0 <= i < |e|
      ensures e[i] in m.items && e[i].key != k
    {
      ErasedSpec(m.items, k, e[i]);
    }
  }

  lemma RemovePrefixKeeps<V>(m: Memory<V>, prefix: string, key: string)
    requires WellFormed(m)
    ensures OnlyKeeps(m, m.(items := WithoutPrefix(m.items, prefix)), key)
    ensures StartsWith(key, prefix) ==>
              forall i :: 0 <= i < |WithoutPrefix(m.items, prefix)| ==> WithoutPrefix(m.items, prefix)[i].key != key
  {
    hide WithoutPrefix, WellFormed, Listed, StartsWith;
    PrefixListed(m, prefix);
    var w := WithoutPrefix(m.items, prefix);
    forall i | 0 <= i < |w|
      ensures w[i] in m.items && !StartsWith(w[i].key, prefix)
    {
      WithoutPrefixItems(m.items, prefix, w[i]);
    }
  }

  /** The memory tier after a call: the items of a key that the call is not about are old ones. */
  lemma OthersMemory<V>(c: Cache<V>, op: Op<V>, key: string)
    requires c.isOpen && c.memory.Some? && WellFormed(c.memory.value)
    ensures Apply(c, op).cache.memory.Some? && Apply(c, op).cache.isOpen
    ensures WellFormed(Apply(c, op).cache.memory.value)
    ensures !Concerns(op, key) ==> OnlyKeeps(c.memory.value, Apply(c, op).cache.memory.value, key)
  {
    hide PutItem, Accepts, AfterGet, GetValue, Erased, WithoutPrefix, WellFormed, StartsWith, Remaining, ExpiryKey;
    var m := c.memory.value;
    match op
    case Put(k, value, encoded, seconds, now, _, _) =>
      PutWellFormed(m, k, value, seconds, |encoded|, now);
      if k != key {
        PutKeeps(m, k, value, seconds, |encoded|, now, key);
      }
    case Get(k, now, decode, _, _) =>
      GetKeeps(m, k, now, key);
      var n := AfterGet(m, k, now);
      if c.disk.Some? && k in c.disk.value {
        var d := c.disk.value;
        PutWellFormed(n, k, decode(d[k]), Remaining(d, k, now), |d[k]|, now);
        if k != key {
          PutKeeps(n, k, decode(d[k]), Remaining(d, k, now), |d[k]|, now, key);
          KeepsTransitive(m, n, PutItem(n, k, decode(d[k]), Remaining(d, k, now), |d[k]|, now), key);
        }
      }
    case Remove(k, _) => RemoveKeeps(m, k, key);
    case RemovePrefix(prefix, _) => RemovePrefixKeeps(m, prefix, key);
  }

  /** The disk tier after a call: the entry of a key that the call is not about is the old one. */
  lemma OthersDisk<V>(c: Cache<V>, op: Op<V>, key: string)
    requires c.isOpen && c.disk.Some? && !Concerns(op, key) && !IsExpiryKey(key)
    requires !op.RemovePrefix? ==> !IsExpiryKey(op.key)
    ensures var o := Apply(c, op).cache;
            && o.disk.Some? && SameEntry(c.disk.value, o.disk.value, key)
            && ((op.RemovePrefix? && ReachesCompanion(op.prefix, key)) ||
                SameEntry(c.disk.value, o.disk.value, ExpiryKey(key)))
            && (ExpiryKey(key) in o.disk.value ==> ExpiryKey(key) in c.disk.value)
  {
    hide PutItem, Accepts, AfterGet, GetValue, Erased, WithoutPrefix, IsExpiryKey, ExpiryKey, StartsWith, Remaining,
         Decimals.ToString;
    ExpiryKeys(key);
    if !op.RemovePrefix? {
      ExpiryKeys(op.key);
    }
  }

  ghost predicate AllOthers<V>(ops: seq<Op<V>>, key: string) {
    forall i :: 0 <= i < |ops| ==> !Concerns(ops[i], key) && (!ops[i].RemovePrefix? ==> !IsExpiryKey(ops[i].key))
  }

  ghost predicate NoneReaches<V>(ops: seq<Op<V>>, key: string) {
    forall i :: 0 <= i < |ops| && ops[i].RemovePrefix? ==> !ReachesCompanion(ops[i].prefix, key)
  }

  /** A run of calls about other keys: the key's item may go from memory, its entry stays on disk. */
  lemma {:induction false} OthersRun<V>(c: Cache<V>, ops: seq<Op<V>>, key: string)
    requires c.isOpen && (c.memory.Some? ==> WellFormed(c.memory.value)) && AllOthers(ops, key) && !IsExpiryKey(key)
    ensures var o := RunAll(c, ops);
            && o.isOpen && o.memory.Some? == c.memory.Some? && o.disk.Some? == c.disk.Some?
            && (c.memory.Some? ==> OnlyKeeps(c.memory.value, o.memory.value, key))
            && (c.disk.Some? ==> SameEntry(c.disk.value, o.disk.value, key))
            && (c.disk.Some? && ExpiryKey(key) in o.disk.value ==> ExpiryKey(key) in c.disk.value)
            && (c.disk.Some? && NoneReaches(ops, key) ==> SameEntry(c.disk.value, o.disk.value, ExpiryKey(key)))
    decreases |ops|
  {
    hide Apply, WellFormed, Concerns, IsExpiryKey, ExpiryKey, ReachesCompanion;
    if ops != [] {
      var o := Apply(c, ops[0]).cache;
      SameTiers(c, ops[0]);
      if c.memory.Some? {
        OthersMemory(c, ops[0], key);
      }
      if c.disk.Some? {
        OthersDisk(c, ops[0], key);
      }
      OthersRun(o, ops[1..], key);
      if c.memory.Some? {
        KeepsTransitive(c.memory.value, o.memory.value, RunAll(o, ops[1..]).memory.value, key);
      }
    }
  }

  // Exactly which calls are safe.

  /** The put gets as far as the disk tier. */
  predicate ReachesDisk<V>(c: Cache<V>, op: Op<V>)
    requires op.Put?
  {
    c.disk.Some? &&
    (c.memory.Some? ==> Accepts(c.memory.value, op.key, op.value, op.seconds, |op.encoded|, op.now))
  }

  predicate WritesExpiry<V>(c: Cache<V>, op: Op<V>)
    requires op.Put?
  {
    ReachesDisk(c, op) && op.seconds < TIME_MAX && op.expiryFits
  }

  predicate WritesValue<V>(c: Cache<V>, op: Op<V>)
    requires op.Put?
  {
    ReachesDisk(c, op) && (op.seconds < TIME_MAX ==> op.expiryFits) && op.fits
  }

  /** The memory tier refuses a put that has expired already, and keeps what the purge leaves under the key. */
  predicate KeepsOldItem<V>(m: Memory<V>, key: string, seconds: int, now: int) {
    HasExpiry(seconds) && seconds <= 0 && Has(Purged(m, now).items, key)
  }

  ghost predicate OldItemFits<V>(m: Memory<V>, key: string, value: V, seconds: int, now: int, timed: bool) {
    KeepsOldItem(m, key, seconds, now) ==>
      var items := Purged(m, now).items;
      var x := items[Find(items, key)];
      x.value == value && (timed ==> x.expiry <= seconds + now)
  }

  /** The value that the put leaves on disk is the same, and, if `timed`, expires by then. */
  ghost predicate OldEntryFits<V>(c: Cache<V>, op: Op<V>, decode: string -> V, timed: bool)
    requires op.Put? && c.disk.Some?
  {
    var d := c.disk.value;
    op.key in d && !WritesValue(c, op) ==>
      && decode(d[op.key]) == op.value
      && (timed && op.seconds < TIME_MAX ==> WritesExpiry(c, op) || ExpiresBy(d, op.key, op.seconds + op.now))
  }

  /** A read that finds the entry on disk expired, and deletes its companion but not the entry. */
  predicate HalfDiscards<V>(c: Cache<V>, op: Op<V>)
    requires op.Get?
  {
    && (c.memory.Some? ==> GetValue(c.memory.value, op.key, op.now).None?)
    && c.disk.Some? && op.key in c.disk.value && Remaining(c.disk.value, op.key, op.now) <= 0
    && !op.keyGone && op.expiryGone
  }

  predicate OnDisk<V>(c: Cache<V>, key: string) {
    c.disk.Some? && key in c.disk.value
  }

  /** What has to hold before the call so that it keeps the key's tiers in agreement with the reference. */
  ghost predicate Safe<V>(c: Cache<V>, op: Op<V>, key: string, last: Option<Record<V>>, decode: string -> V,
                          timed: bool)
  {
    match op
    case Put(k, value, _, seconds, now, _, _) =>
      k == key ==>
        && (c.memory.Some? ==> OldItemFits(c.memory.value, key, value, seconds, now, timed))
        && (c.disk.Some? ==> OldEntryFits(c, op, decode, timed))
    case Get(k, _, _, _, _) => k == key && timed && Expires(last) ==> !HalfDiscards(c, op)
    case Remove(k, works) => k == key && OnDisk(c, key) ==> works
    case RemovePrefix(prefix, works) =>
      OnDisk(c, key) ==> if StartsWith(key, prefix) then works
                         else timed && Expires(last) && works ==> !ReachesCompanion(prefix, key)
  }

  // Put.

  /** A put that the memory tier does not refuse leaves no other item of its key. */
  lemma OwnItem<V>(m: Memory<V>, key: string, value: V, seconds: int, size: nat, now: int, y: Item<V>)
    requires WellFormed(m) && (HasExpiry(seconds) ==> seconds > 0)
    requires y in PutItem(m, key, value, seconds, size, now).items && y.key == key
    ensures y == Item(key, Deadline(seconds, now), value, size)
  {
    var p := Purged(m, now);
    var x := Item(key, Deadline(seconds, now), value, size);
    PurgedSpec(m, now);
    hide Purged, Stored, Evicted, Listed, NoneExpired;
    var q := Stored(p, x);
    assert y in q.items;
    if Has(p.items, key) || Cost(x) <= p.maxSize {
      InFrontSpec(p, x);
      EvictedPrefix(InFront(p, x));
      FirstOfKey(InFront(p, x), q.items, y);
    } else {
      NotStored(p, x);
      HasItem(p.items, y);
    }
  }

  lemma FirstOfKey<V>(f: Memory<V>, items: seq<Item<V>>, y: Item<V>)
    requires WellFormed(f) && items <= f.items && y in items && y.key == f.items[0].key
    ensures y == f.items[0]
  {
    var i :| 0 <= i < |items| && items[i] == y;
    assert f.items[i] == y;
  }

  lemma PutMemory<V>(m: Memory<V>, key: string, timed: bool, value: V, seconds: int, size: nat, now: int)
    requires WellFormed(m) && (seconds < TIME_MAX ==> seconds + now < TIME_MAX) && seconds <= TIME_MAX
    ensures MemoryAgrees(PutItem(m, key, value, seconds, size, now), key, Some(Record(value, Deadline(seconds, now))),
                         timed) <==>
            OldItemFits(m, key, value, seconds, now, timed)
  {
    PutWellFormed(m, key, value, seconds, size, now);
    var n := PutItem(m, key, value, seconds, size, now);
    var last := Some(Record(value, Deadline(seconds, now)));
    if HasExpiry(seconds) && seconds <= 0 {
      PurgedMemory(m, key, value, seconds, now, timed);
    } else {
      hide PutItem, Purged, WellFormed;
      forall i | 0 <= i < |n.items| && n.items[i].key == key
        ensures ItemAgrees(n.items[i], last, timed)
      {
        OwnItem(m, key, value, seconds, size, now, n.items[i]);
      }
    }
  }

  lemma PurgedMemory<V>(m: Memory<V>, key: string, value: V, seconds: int, now: int, timed: bool)
    requires HasExpiry(seconds) && seconds <= 0 && WellFormed(Purged(m, now)) && seconds + now < TIME_MAX
    ensures MemoryAgrees(Purged(m, now), key, Some(Record(value, Deadline(seconds, now))), timed) <==>
            OldItemFits(m, key, value, seconds, now, timed)
  {
    hide Purged;
    var n := Purged(m, now);
    forall i | 0 <= i < |n.items| && n.items[i].key == key
      ensures i == Find(n.items, key)
    {
      FindDistinct(n.items, i);
    }
  }

  /** What the put leaves on disk. */
  function DatabaseAfter<V>(d: Database, c: Cache<V>, op: Op<V>): Database
    requires op.Put?
  {
    var e := if WritesExpiry(c, op) then d[ExpiryKey(op.key) := Decimals.ToString(op.seconds + op.now)] else d;
    if WritesValue(c, op) then e[op.key := op.encoded] else e
  }

  lemma DiskAfterPut<V>(c: Cache<V>, op: Op<V>)
    requires c.isOpen && c.disk.Some? && op.Put? && op.seconds <= TIME_MAX
    ensures Apply(c, op).cache.disk == Some(DatabaseAfter(c.disk.value, c, op))
  {
    hide PutItem, Accepts, ExpiryKey, Decimals.ToString;
  }

  lemma PutDisk<V>(c: Cache<V>, op: Op<V>, decode: string -> V, timed: bool)
    requires c.isOpen && c.disk.Some? && op.Put? && Proper(op, op.key, decode)
    ensures DiskAgrees(DatabaseAfter(c.disk.value, c, op), op.key, LastAfter(None, op, op.key), decode, timed) <==>
            OldEntryFits(c, op, decode, timed)
  {
    hide DiskAgrees, ReachesDisk, IsExpiryKey, ExpiryKey, ExpiresBy, Decimals.ToString, Decimals.Parse;
    ExpiryKeys(op.key);
    Decimals.RoundTrip(op.seconds + op.now);
    EntryAfter(c.disk.value, op.key, Decimals.ToString(op.seconds + op.now), op.encoded, WritesExpiry(c, op),
               WritesValue(c, op), op.value, op.seconds, op.now, decode, timed);
  }

  lemma EntryAfter<V>(d: Database, key: string, time: string, encoded: string, writesExpiry: bool, writesValue: bool,
                      value: V, seconds: int, now: int, decode: string -> V, timed: bool)
    requires ExpiryKey(key) != key && Decimals.Parse(time) == seconds + now && decode(encoded) == value
    requires (writesExpiry ==> seconds < TIME_MAX) && (writesValue && seconds < TIME_MAX ==> writesExpiry)
    requires seconds <= TIME_MAX && (seconds < TIME_MAX ==> seconds + now < TIME_MAX)
    ensures var e := if writesExpiry then d[ExpiryKey(key) := time] else d;
            var f := if writesValue then e[key := encoded] else e;
            var deadline := if seconds < NEVER then now + seconds else NEVER;
            DiskAgrees(f, key, Some(Record(value, deadline)), decode, timed) <==>
            (key in d && !writesValue ==>
               && decode(d[key]) == value
               && (timed && seconds < TIME_MAX ==> writesExpiry || ExpiresBy(d, key, seconds + now)))
  {
    hide ExpiryKey, Decimals.Parse;
    var e := if writesExpiry then d[ExpiryKey(key) := time] else d;
    var f := if writesValue then e[key := encoded] else e;
    assert writesExpiry ==> ExpiresBy(f, key, seconds + now);
    assert !writesValue ==> (key in f <==> key in d) && (key in d ==> f[key] == d[key]);
    assert !writesValue && !writesExpiry ==> f == d;
  }

  /** The put agrees with the reference afterwards exactly when it was safe, for every put into an agreeing cache. */
  lemma PutExact<V>(c: Cache<V>, op: Op<V>, key: string, last: Option<Record<V>>, decode: string -> V, timed: bool)
    requires Agrees(c, key, last, decode, timed) && op.Put? && op.key == key
    requires Proper(op, key, decode) && !IsExpiryKey(key)
    ensures Agrees(Apply(c, op).cache, key, LastAfter(last, op, key), decode, timed) <==>
            Safe(c, op, key, last, decode, timed)
  {
    if c.memory.Some? {
      PutMemory(c.memory.value, key, timed, op.value, op.seconds, |op.encoded|, op.now);
    }
    if c.disk.Some? {
      DiskAfterPut(c, op);
      PutDisk(c, op, decode, timed);
    }
    hide MemoryAgrees, DiskAgrees, PutItem, Accepts, OldItemFits, OldEntryFits, IsExpiryKey, StoredExpiry,
         DatabaseAfter;
  }

  /** The report of a put, from the state before it: a value in memory, refused or not, makes it a failure. */
  lemma ReportedExactly<V>(c: Cache<V>, op: Op<V>)
    requires op.Put? && (c.memory.Some? ==> WellFormed(c.memory.value))
    ensures Apply(c, op).reported <==>
              && c.isOpen
              && (c.memory.Some? ==>
                    && (HasExpiry(op.seconds) ==> op.seconds > 0)
                    && !Has(Purged(c.memory.value, op.now).items, op.key)
                    && (if op.encoded == "" then 1 else |op.encoded|) <= c.memory.value.maxSize)
              && (c.disk.Some? ==> (op.seconds < TIME_MAX ==> op.expiryFits) && op.fits)
  {
    if c.memory.Some? {
      PurgedSpec(c.memory.value, op.now);
    }
    hide PutItem, Purged, Has, WellFormed, Listed, NoneExpired;
  }

  // Get.

  /** A value that comes back from disk into memory keeps its absolute expiry. */
  lemma PromoteMemory<V>(m: Memory<V>, d: Database, key: string, last: Option<Record<V>>, decode: string -> V,
                         timed: bool, now: int)
    requires MemoryAgrees(m, key, last, timed) && DiskAgrees(d, key, last, decode, timed)
    requires key in d && now >= 0
    ensures MemoryAgrees(PutItem(m, key, decode(d[key]), Remaining(d, key, now), |d[key]|, now), key, last, timed)
  {
    hide PutItem, WellFormed, ExpiryKey, Decimals.Parse;
    var r := Remaining(d, key, now);
    PutWellFormed(m, key, decode(d[key]), r, |d[key]|, now);
    var n := PutItem(m, key, decode(d[key]), r, |d[key]|, now);
    forall i | 0 <= i < |n.items| && n.items[i].key == key
      ensures ItemAgrees(n.items[i], last, timed)
    {
      PutItems(m, key, decode(d[key]), r, |d[key]|, now, n.items[i]);
      if n.items[i] in m.items {
        MemoryItem(m, key, last, timed, n.items[i]);
      }
    }
  }

  /** Discarding an expired entry keeps the disk in agreement unless the entry stays and its companion goes. */
  lemma DiscardExact<V>(d: Database, key: string, last: Option<Record<V>>, decode: string -> V, timed: bool,
                        keyGone: bool, expiryGone: bool)
    requires DiskAgrees(d, key, last, decode, timed) && !IsExpiryKey(key)
    ensures DiskAgrees(Discarded(d, key, keyGone, expiryGone), key, last, decode, timed) <==>
            (timed && Expires(last) && key in d ==> keyGone || !expiryGone)
  {
    ExpiryKeys(key);
    hide IsExpiryKey, ExpiryKey, Decimals.Parse;
  }

  /** A read keeps the agreement, with all its purges and promotions, exactly when it does not half discard. */
  lemma GetExact<V>(c: Cache<V>, op: Op<V>, key: string, last: Option<Record<V>>, decode: string -> V, timed: bool)
    requires Agrees(c, key, last, decode, timed) && op.Get? && op.key == key
    requires Proper(op, key, decode) && !IsExpiryKey(key)
    ensures Agrees(Apply(c, op).cache, key, last, decode, timed) <==> Safe(c, op, key, last, decode, timed)
  {
    if c.memory.Some? {
      GetKeeps(c.memory.value, key, op.now, key);
      KeptAgrees(c.memory.value, AfterGet(c.memory.value, key, op.now), key, last, timed);
    }
    hide MemoryAgrees, DiskAgrees, PutItem, AfterGet, GetValue, Remaining, IsExpiryKey, ExpiryKey, Expires;
    if c.disk.Some? {
      DiscardExact(c.disk.value, key, last, decode, timed, op.keyGone, op.expiryGone);
      if c.memory.Some? && key in c.disk.value {
        PromoteMemory(AfterGet(c.memory.value, key, op.now), c.disk.value, key, last, decode, timed, op.now);
      }
    }
  }

  /** A hit is the reference's value, and, if the tiers are timed, not past its deadline. */
  lemma HitAgrees<V>(c: Cache<V>, op: Op<V>, last: Option<Record<V>>, decode: string -> V, timed: bool)
    requires op.Get? && Agrees(c, op.key, last, decode, timed) && op.decode == decode
    ensures RightHit(Apply(c, op).hit, op.now, last, timed)
  {
    hide PutItem, AfterGet, IsExpiryKey, ExpiryKey, Decimals.Parse, WellFormed;
    if c.memory.Some? && GetValue(c.memory.value, op.key, op.now).Some? {
      var m := c.memory.value;
      assert ItemAgrees(m.items[Find(m.items, op.key)], last, timed);
    }
  }

  ghost predicate RightHit<V>(hit: Option<V>, now: int, last: Option<Record<V>>, timed: bool) {
    hit.Some? ==> last.Some? && hit.value == last.value.value && (timed && Expires(last) ==> now <= last.value.deadline)
  }

  // Removals.

  lemma RemoveExact<V>(c: Cache<V>, op: Op<V>, key: string, last: Option<Record<V>>, decode: string -> V, timed: bool)
    requires Agrees(c, key, last, decode, timed) && op.Remove? && op.key == key
    ensures Agrees(Apply(c, op).cache, key, None, decode, timed) <==> Safe(c, op, key, last, decode, timed)
  {
    if c.memory.Some? {
      RemoveKeeps(c.memory.value, key, key);
      var n := c.memory.value.(items := Erased(c.memory.value.items, key));
      assert MemoryAgrees(n, key, None, timed);
    }
    hide MemoryAgrees, Erased, ExpiryKey;
  }

  /** The entry of a key outside the prefix is kept in time exactly when its companion, if needed, is kept too. */
  lemma PrefixDisk<V>(d: Database, prefix: string, key: string, last: Option<Record<V>>, decode: string -> V,
                      timed: bool)
    requires DiskAgrees(d, key, last, decode, timed)
    ensures var e := KeepWithoutPrefix(d, prefix);
            && (StartsWith(key, prefix) ==> DiskAgrees(e, key, None, decode, timed))
            && (!StartsWith(key, prefix) ==>
                  (DiskAgrees(e, key, last, decode, timed) <==>
                   (timed && Expires(last) && key in d ==> !ReachesCompanion(prefix, key))))
  {
    hide ExpiryKey, Decimals.Parse, StartsWith;
  }

  lemma RemovePrefixExact<V>(c: Cache<V>, op: Op<V>, key: string, last: Option<Record<V>>, decode: string -> V,
                             timed: bool)
    requires Agrees(c, key, last, decode, timed) && op.RemovePrefix?
    ensures Agrees(Apply(c, op).cache, key, LastAfter(last, op, key), decode, timed) <==>
            Safe(c, op, key, last, decode, timed)
  {
    if c.memory.Some? {
      var m := c.memory.value;
      var n := m.(items := WithoutPrefix(m.items, op.prefix));
      RemovePrefixKeeps(m, op.prefix, key);
      if StartsWith(key, op.prefix) {
        assert MemoryAgrees(n, key, None, timed);
      } else {
        KeptAgrees(m, n, key, last, timed);
      }
    }
    if c.disk.Some? {
      PrefixDisk(c.disk.value, op.prefix, key, last, decode, timed);
    }
    hide MemoryAgrees, WithoutPrefix, KeepWithoutPrefix, ReachesCompanion, StartsWith, ExpiresBy;
  }

  // All calls.

  lemma OthersAgree<V>(c: Cache<V>, op: Op<V>, key: string, last: Option<Record<V>>, decode: string -> V, timed: bool)
    requires Agrees(c, key, last, decode, timed) && Proper(op, key, decode) && !IsExpiryKey(key)
    requires !Concerns(op, key) && !op.RemovePrefix?
    ensures Agrees(Apply(c, op).cache, key, last, decode, timed)
  {
    if c.memory.Some? {
      OthersMemory(c, op, key);
      KeptAgrees(c.memory.value, Apply(c, op).cache.memory.value, key, last, timed);
    }
    if c.disk.Some? {
      OthersDisk(c, op, key);
    }
    SameTiers(c, op);
    hide MemoryAgrees, Apply, IsExpiryKey, ExpiryKey, Decimals.Parse;
  }

  lemma SameTiers<V>(c: Cache<V>, op: Op<V>)
    ensures var o := Apply(c, op).cache;
            o.isOpen == c.isOpen && o.memory.Some? == c.memory.Some? && o.disk.Some? == c.disk.Some?
  {
    hide PutItem, Accepts, AfterGet, GetValue, Erased, WithoutPrefix, KeepWithoutPrefix, Remaining, StoredExpiry,
         Discarded;
  }

  /** For every call and every key: the key's tiers still agree with its reference exactly when the call was safe. */
  lemma StepExact<V>(c: Cache<V>, op: Op<V>, key: string, last: Option<Record<V>>, decode: string -> V, timed: bool)
    requires Agrees(c, key, last, decode, timed) && Proper(op, key, decode) && !IsExpiryKey(key)
    ensures Agrees(Apply(c, op).cache, key, LastAfter(last, op, key), decode, timed) <==>
            Safe(c, op, key, last, decode, timed)
  {
    hide Agrees, Apply, IsExpiryKey, StartsWith, OnDisk, OldItemFits, OldEntryFits, HalfDiscards, ReachesCompanion,
         Expires;
    if op.RemovePrefix? {
      RemovePrefixExact(c, op, key, last, decode, timed);
    } else if op.key != key {
      OthersAgree(c, op, key, last, decode, timed);
    } else if op.Put? {
      PutExact(c, op, key, last, decode, timed);
    } else if op.Get? {
      GetExact(c, op, key, last, decode, timed);
    } else {
      RemoveExact(c, op, key, last, decode, timed);
    }
  }

  /** A call that reports success is safe, as far as values go; for deadlines only removals and reads need care. */
  lemma SuccessIsSafe<V>(c: Cache<V>, op: Op<V>, key: string, last: Option<Record<V>>, decode: string -> V, timed: bool)
    requires c.isOpen && Concerns(op, key) ==> Apply(c, op).reported
    requires timed ==> op.Put? || op.Remove?
    ensures c.isOpen ==> Safe(c, op, key, last, decode, timed)
  {
    hide PutItem, Purged, Find, ExpiryKey, Decimals.Parse, StartsWith, AfterGet, GetValue, Erased, WithoutPrefix,
         KeepWithoutPrefix, Remaining, Inserts;
  }

  // Runs.

  function RunAll<V>(c: Cache<V>, ops: seq<Op<V>>): Cache<V>
    decreases |ops|
  {
    if ops == [] then c else RunAll(Apply(c, ops[0]).cache, ops[1..])
  }

  /** Every call of the run is proper, and safe for the key. */
  ghost predicate SafeRun<V>(c: Cache<V>, ops: seq<Op<V>>, key: string, last: Option<Record<V>>, decode: string -> V,
                             timed: bool)
    decreases |ops|
  {
    ops == [] ||
    (&& Proper(ops[0], key, decode) && Safe(c, ops[0], key, last, decode, timed)
     && SafeRun(Apply(c, ops[0]).cache, ops[1..], key, LastAfter(last, ops[0], key), decode, timed))
  }

  /** Every hit on the key returns the value last put under it, and, if `timed`, not after its deadline. */
  ghost predicate HitsRight<V>(c: Cache<V>, ops: seq<Op<V>>, key: string, last: Option<Record<V>>, timed: bool)
    decreases |ops|
  {
    ops == [] ||
    (&& (ops[0].Get? && ops[0].key == key ==> RightHit(Apply(c, ops[0]).hit, ops[0].now, last, timed))
     && HitsRight(Apply(c, ops[0]).cache, ops[1..], key, LastAfter(last, ops[0], key), timed))
  }

  ghost predicate AllProper<V>(ops: seq<Op<V>>, key: string, decode: string -> V) {
    forall i :: 0 <= i < |ops| ==> Proper(ops[i], key, decode)
  }

  /** The key's tiers agree with its reference before and after every call of the run. */
  ghost predicate AgreesThroughout<V>(c: Cache<V>, ops: seq<Op<V>>, key: string, last: Option<Record<V>>,
                                      decode: string -> V, timed: bool)
    decreases |ops|
  {
    && Agrees(c, key, last, decode, timed)
    && (ops == [] ||
        AgreesThroughout(Apply(c, ops[0]).cache, ops[1..], key, LastAfter(last, ops[0], key), decode, timed))
  }

  /** They do so exactly on the runs whose every call is safe. */
  lemma {:induction false} RunExact<V>(c: Cache<V>, ops: seq<Op<V>>, key: string, last: Option<Record<V>>,
                                       decode: string -> V, timed: bool)
    requires Agrees(c, key, last, decode, timed) && AllProper(ops, key, decode) && !IsExpiryKey(key)
    ensures AgreesThroughout(c, ops, key, last, decode, timed) <==> SafeRun(c, ops, key, last, decode, timed)
    decreases |ops|
  {
    hide Agrees, LastAfter, Apply, Safe, Proper, IsExpiryKey;
    if ops != [] {
      StepExact(c, ops[0], key, last, decode, timed);
      if Safe(c, ops[0], key, last, decode, timed) {
        RunExact(Apply(c, ops[0]).cache, ops[1..], key, LastAfter(last, ops[0], key), decode, timed);
      }
    }
  }

  lemma {:induction false} RunAgrees<V>(c: Cache<V>, ops: seq<Op<V>>, key: string, last: Option<Record<V>>,
                                        decode: string -> V, timed: bool)
    requires Agrees(c, key, last, decode, timed) && SafeRun(c, ops, key, last, decode, timed) && !IsExpiryKey(key)
    ensures HitsRight(c, ops, key, last, timed)
    decreases |ops|
  {
    hide Agrees, LastAfter, Apply, RightHit, Safe, IsExpiryKey;
    if ops != [] {
      if ops[0].Get? && ops[0].key == key {
        HitAgrees(c, ops[0], last, decode, timed);
      }
      StepExact(c, ops[0], key, last, decode, timed);
      RunAgrees(Apply(c, ops[0]).cache, ops[1..], key, LastAfter(last, ops[0], key), decode, timed);
    }
  }

  /** Whether the two tiers are there or not, a fresh cache is empty. */
  function FreshCache<V>(maxMemory: nat, onDisk: bool): Cache<V> {
    Cache(true, if maxMemory > 0 then Some(Memory([], [], maxMemory)) else None, if onDisk then Some(map[]) else None)
  }

  /**
   On every run from a fresh cache that is safe for the key no hit on it is a wrong value, whatever was evicted,
   purged, promoted or failed, and whatever was done to other keys.
   */
  lemma NeverWrong<V>(maxMemory: nat, onDisk: bool, ops: seq<Op<V>>, key: string, decode: string -> V)
    requires SafeRun(FreshCache(maxMemory, onDisk), ops, key, None, decode, false) && !IsExpiryKey(key)
    ensures HitsRight(FreshCache(maxMemory, onDisk), ops, key, None, false)
  {
    RunAgrees(FreshCache(maxMemory, onDisk), ops, key, None, decode, false);
  }

  /** And none is too late, on runs that are safe in time. */
  lemma NeverTooLate<V>(maxMemory: nat, onDisk: bool, ops: seq<Op<V>>, key: string, decode: string -> V)
    requires SafeRun(FreshCache(maxMemory, onDisk), ops, key, None, decode, true) && !IsExpiryKey(key)
    ensures HitsRight(FreshCache(maxMemory, onDisk), ops, key, None, true)
  {
    RunAgrees(FreshCache(maxMemory, onDisk), ops, key, None, decode, true);
  }

  /** Every call about the key reports success. */
  ghost predicate Succeeds<V>(c: Cache<V>, ops: seq<Op<V>>, key: string, decode: string -> V)
    decreases |ops|
  {
    ops == [] ||
    (&& Proper(ops[0], key, decode) && (Concerns(ops[0], key) ==> Apply(c, ops[0]).reported)
     && Succeeds(Apply(c, ops[0]).cache, ops[1..], key, decode))
  }

  /** Runs whose calls about the key report success are safe for it, as far as values go. */
  lemma {:induction false} SuccessRunIsSafe<V>(c: Cache<V>, ops: seq<Op<V>>, key: string, last: Option<Record<V>>,
                                               decode: string -> V)
    requires c.isOpen && Succeeds(c, ops, key, decode)
    ensures SafeRun(c, ops, key, last, decode, false)
    decreases |ops|
  {
    hide LastAfter, Apply, Safe, Proper, Concerns;
    if ops != [] {
      SuccessIsSafe(c, ops[0], key, last, decode, false);
      SameTiers(c, ops[0]);
      SuccessRunIsSafe(Apply(c, ops[0]).cache, ops[1..], key, LastAfter(last, ops[0], key), decode);
    }
  }

  // Starting over.

  lemma {:induction false} RunWellFormed<V>(c: Cache<V>, ops: seq<Op<V>>)
    requires c.isOpen && (c.memory.Some? ==> WellFormed(c.memory.value))
    ensures var o := RunAll(c, ops);
            o.isOpen && o.memory.Some? == c.memory.Some? && (o.memory.Some? ==> WellFormed(o.memory.value))
    decreases |ops|
  {
    hide Apply, WellFormed;
    if ops != [] {
      SameTiers(c, ops[0]);
      if c.memory.Some? {
        OthersMemory(c, ops[0], "");
      }
      RunWellFormed(Apply(c, ops[0]).cache, ops[1..]);
    }
  }

  /**
   Whatever calls came before and however they failed, a removal of the key that reports success makes it right
   again: from there on every hit is the value last put.
   */
  lemma RightSinceRemoval<V>(maxMemory: nat, onDisk: bool, before: seq<Op<V>>, key: string, works: bool,
                             ops: seq<Op<V>>, decode: string -> V, timed: bool)
    requires !IsExpiryKey(key)
    requires var o := RemoveCall(RunAll(FreshCache<V>(maxMemory, onDisk), before), key, works);
             o.reported && SafeRun(o.cache, ops, key, None, decode, timed)
    ensures var o := RemoveCall(RunAll(FreshCache<V>(maxMemory, onDisk), before), key, works);
            HitsRight(o.cache, ops, key, None, timed)
  {
    var empty: Cache<V> := FreshCache(maxMemory, onDisk);
    RunWellFormed(empty, before);
    var c := RunAll(empty, before);
    if c.memory.Some? {
      RemoveKeeps(c.memory.value, key, key);
    }
    hide RunAll, Erased, SafeRun, HitsRight, IsExpiryKey;
    assert Agrees(RemoveCall(c, key, works).cache, key, None, decode, timed);
    RunAgrees(RemoveCall(c, key, works).cache, ops, key, None, decode, timed);
  }

  // The unsafe calls do go wrong.

  /** A put over a value that is still in memory changes the memory tier, reports failure, and leaves the disk alone. */
  lemma OverwriteReportsFailure<V>(c: Cache<V>, key: string, value: V, encoded: string, seconds: int, now: int,
                                   expiryFits: bool, fits: bool)
    requires c.memory.Some? && Has(Purged(c.memory.value, now).items, key)
    ensures var o := PutCall(c, key, value, encoded, seconds, now, expiryFits, fits);
            && !o.reported && o.cache.disk == c.disk
            && (c.isOpen ==> o.cache.memory == Some(PutItem(c.memory.value, key, value, seconds, |encoded|, now)))
  {
    hide PutItem, Purged;
  }

  /**
   So such a put is right exactly when the disk tier is not there, or has no entry of the key, or has the same
   value already.
   */
  lemma OverwriteExact<V>(c: Cache<V>, op: Op<V>, last: Option<Record<V>>, decode: string -> V)
    requires op.Put? && Agrees(c, op.key, last, decode, false) && Proper(op, op.key, decode)
    requires c.memory.Some? && Has(Purged(c.memory.value, op.now).items, op.key)
    requires HasExpiry(op.seconds) ==> op.seconds > 0
    ensures Agrees(Apply(c, op).cache, op.key, LastAfter(last, op, op.key), decode, false) <==>
            (c.disk.None? || op.key !in c.disk.value || decode(c.disk.value[op.key]) == op.value)
  {
    PutExact(c, op, op.key, last, decode, false);
    hide Agrees, Apply, Has, Purged, IsExpiryKey;
  }

  /** An item that takes all of the memory tier drives out all others. */
  lemma FillsMemory<V>(m: Memory<V>, other: string, value: V, size: nat, now: int)
    requires Accepts(m, other, value, TIME_MAX, size, now) && Cost(Item(other, TIME_MAX, value, size)) == m.maxSize
    requires WellFormed(m)
    ensures PutItem(m, other, value, TIME_MAX, size, now).items == [Item(other, TIME_MAX, value, size)]
  {
    PurgedSpec(m, now);
    hide Purged, Evicted, Has, WellFormed, Listed, NoneExpired;
    var p := Purged(m, now);
    var x := Item(other, TIME_MAX, value, size);
    EvictedAlone(p.(items := [x] + p.items));
  }

  lemma OnlyOther<V>(x: Item<V>, key: string)
    requires x.key != key
    ensures Find([x], key) == 1
  {
  }

  /**
   Whenever a value is in memory and on disk, putting another value over it and then filling the memory tier makes
   the next read return the value that was overwritten.
   */
  lemma OverwriteGoesStale<V>(c: Cache<V>, decode: string -> V,
                              key: string, value: V, encoded: string, seconds: int, now: int,
                              other: string, filler: V, fillerEncoded: string, later: int)
    requires c.isOpen && c.memory.Some? && c.disk.Some? && WellFormed(c.memory.value)
    requires Has(Purged(c.memory.value, now).items, key) && key in c.disk.value
    requires !IsExpiryKey(other) && other != key && Remaining(c.disk.value, key, later) > 0
    requires var m := PutItem(c.memory.value, key, value, seconds, |encoded|, now);
             Accepts(m, other, filler, TIME_MAX, |fillerEncoded|, later) &&
             Cost(Item(other, TIME_MAX, filler, |fillerEncoded|)) == m.maxSize
    ensures var c1 := PutCall(c, key, value, encoded, seconds, now, true, true).cache;
            var o := PutCall(c1, other, filler, fillerEncoded, TIME_MAX, later, true, true);
            o.reported && GetCall(o.cache, key, later, decode, true, true).hit == Some(decode(c.disk.value[key]))
  {
    OverwriteReportsFailure(c, key, value, encoded, seconds, now, true, true);
    PutWellFormed(c.memory.value, key, value, seconds, |encoded|, now);
    hide PutItem, Purged, Accepts, Has, WellFormed, ExpiryKey, IsExpiryKey, Decimals.Parse;
    var m := PutItem(c.memory.value, key, value, seconds, |encoded|, now);
    FillsMemory(m, other, filler, |fillerEncoded|, later);
    var x := Item(other, TIME_MAX, filler, |fillerEncoded|);
    OnlyOther(x, key);
    ExpiryKeys(key);
    var c1 := PutCall(c, key, value, encoded, seconds, now, true, true).cache;
    assert c1 == c.(memory := Some(m));
    var o := PutCall(c1, other, filler, fillerEncoded, TIME_MAX, later, true, true);
    var d := c.disk.value[other := fillerEncoded];
    assert o.cache.disk == Some(d) && o.cache.memory.value.items == [x];
    assert Remaining(d, key, later) == Remaining(c.disk.value, key, later) && d[key] == c.disk.value[key];
    ReadsThrough(o.cache, key, later, decode, true, true);
  }

  /** A key that is not in memory is read from disk while it has time left. */
  lemma ReadsThrough<V>(c: Cache<V>, key: string, now: int, decode: string -> V, keyGone: bool, expiryGone: bool)
    requires c.isOpen && c.disk.Some? && key in c.disk.value && Remaining(c.disk.value, key, now) > 0
    requires c.memory.Some? ==> !Has(c.memory.value.items, key)
    ensures GetCall(c, key, now, decode, keyGone, expiryGone).hit == Some(decode(c.disk.value[key]))
  {
    hide PutItem, Remaining, Find;
  }

  /**
   Removing a prefix that reaches into a companion key makes the value on disk immortal: once out of memory it is
   returned at any time, however long after its deadline.
   */
  lemma PrefixUnexpires<V>(c: Cache<V>, decode: string -> V, prefix: string, key: string, now: int)
    requires c.isOpen && c.disk.Some? && key in c.disk.value && ReachesCompanion(prefix, key)
    requires c.memory.Some? ==> !Has(c.memory.value.items, key)
    ensures var o := RemovePrefixCall(c, prefix, true);
            GetCall(o.cache, key, now, decode, true, true).hit == Some(decode(c.disk.value[key]))
  {
    hide Find, WithoutPrefix, ExpiryKey, StartsWith, Has;
    var o := RemovePrefixCall(c, prefix, true).cache;
    if c.memory.Some? {
      HasWithoutPrefix(c.memory.value.items, prefix, key);
    }
    assert ExpiryKey(key) !in o.disk.value && key in o.disk.value;
    ReadsThrough(o, key, now, decode, true, true);
  }

  /** So does a read that finds the entry expired and deletes the companion only: every later read returns it. */
  lemma HalfDiscardUnexpires<V>(c: Cache<V>, op: Op<V>, later: int, decode: string -> V)
    requires c.isOpen && op.Get? && HalfDiscards(c, op) && !IsExpiryKey(op.key)
    requires c.memory.Some? ==> !Has(c.memory.value.items, op.key)
    ensures Apply(c, op).hit == None
    ensures GetCall(Apply(c, op).cache, op.key, later, decode, true, true).hit == Some(decode(c.disk.value[op.key]))
  {
    ExpiryKeys(op.key);
    hide Find, ExpiryKey, IsExpiryKey, Decimals.Parse;
    ReadsThrough(Apply(c, op).cache, op.key, later, decode, true, true);
  }

  // The cache.

  class TwoTierCache<V> {
    var isOpen: bool
    var memory: MemoryCache?<V>
    var disk: Disk?

    /** The objects of the memory tier. */
    ghost function MemoryTier(): set<object>
      reads this
    {
      if memory == null then {} else {memory, memory.lru}
    }

    ghost predicate Valid()
      reads this, MemoryTier()
    {
      memory != null ==> memory.Valid()
    }

    ghost function View(): Cache<V>
      reads this, MemoryTier(), disk
    {
      Cache(isOpen, if memory == null then None else Some(memory.View()), if disk == null then None else Some(disk.db))
    }

    constructor (maxMemory: nat, onDisk: bool)
      ensures Valid() && View() == FreshCache(maxMemory, onDisk)
      ensures (memory != null ==> fresh(memory) && fresh(memory.lru)) && (disk != null ==> fresh(disk))
    {
      isOpen, memory, disk := true, null, null;
      new;
      if maxMemory > 0 {
        memory := new MemoryCache<V>(maxMemory);
      }
      if onDisk {
        disk := new Disk();
      }
    }

    method StoreExpiry(key: string, seconds: int, now: int, fits: bool) returns (ok: bool)
      requires disk != null
      modifies disk
      ensures ok == fits
      ensures disk.db == if fits then old(disk.db)[ExpiryKey(key) := Decimals.ToString(seconds + now)]
                         else old(disk.db)
    {
      ok := disk.Put(ExpiryKey(key), Decimals.ToString(seconds + now), fits);
    }

    method Put(key: string, value: V, encoded: string, seconds: int, now: int, expiryFits: bool, fits: bool)
      returns (ok: bool)
      requires Valid()
      modifies MemoryTier(), disk
      ensures Valid()
      ensures var o := PutCall(old(View()), key, value, encoded, seconds, now, expiryFits, fits);
              View() == o.cache && ok == o.reported
    {
      hide PutItem, Accepts, WellFormed, ExpiryKey;
      if !isOpen {
        return false;
      }
      if memory != null {
        var stored := memory.Put(key, value, seconds, |encoded|, now);
        if !stored {
          return false;
        }
      }
      if disk != null {
        if seconds < TIME_MAX {
          var stored := StoreExpiry(key, seconds, now, expiryFits);
          if !stored {
            return false;
          }
        }
        var stored := disk.Put(key, encoded, fits);
        if !stored {
          return false;
        }
      }
      return true;
    }

    method GetRemainingExpiryTime(key: string, now: int) returns (expiry: int)
      requires disk != null
      ensures expiry == Remaining(disk.db, key, now)
    {
      expiry := TIME_MAX;
      var expiryValue := disk.Get(ExpiryKey(key));
      if expiryValue.Some? {
        expiry := Decimals.Parse(expiryValue.value);
        expiry := expiry - now;
      }
    }

    method PurgeDiskItem(key: string, keyGone: bool, expiryGone: bool)
      requires disk != null
      modifies disk
      ensures disk.db == Discarded(old(disk.db), key, keyGone, expiryGone)
    {
      var _ := disk.Remove(key, keyGone);
      var _ := disk.Remove(ExpiryKey(key), expiryGone);
    }

    method Get(key: string, now: int, decode: string -> V, keyGone: bool, expiryGone: bool) returns (r: Option<V>)
      requires Valid()
      modifies MemoryTier(), disk
      ensures Valid()
      ensures var o := GetCall(old(View()), key, now, decode, keyGone, expiryGone);
              View() == o.cache && r == o.hit
    {
      hide PutItem, AfterGet, GetValue, WellFormed, Listed, ExpiryKey, Remaining;
      if !isOpen {
        return None;
      }
      if memory != null {
        var value := memory.Get(key, now);
        if value.Some? {
          return value;
        }
      }
      if disk != null {
        var expiry := GetRemainingExpiryTime(key, now);
        if expiry <= 0 {
          PurgeDiskItem(key, keyGone, expiryGone);
          return None;
        }
        var value := disk.Get(key);
        if value.Some? {
          var decoded := decode(value.value);
          if memory != null {
            var _ := memory.Put(key, decoded, expiry, |value.value|, now);
          }
          return Some(decoded);
        }
      }
      return None;
    }

    method Remove(key: string, works: bool) returns (ok: bool)
      requires Valid()
      modifies MemoryTier(), disk
      ensures Valid()
      ensures var o := RemoveCall(old(View()), key, works); View() == o.cache && ok == o.reported
    {
      hide Erased, WellFormed, Listed;
      if !isOpen {
        return false;
      }
      if memory != null {
        memory.Remove(key);
      }
      if disk != null {
        var removed := disk.Remove(key, works);
        if !removed {
          return false;
        }
      }
      return true;
    }

    /** `order` is the order in which the database iterates. */
    method RemoveKeysWithPrefix(prefix: string, order: seq<string>, works: bool) returns (ok: bool)
      requires Valid() && (disk != null ==> IsIteration(order, disk.db))
      modifies MemoryTier(), disk
      ensures Valid()
      ensures var o := RemovePrefixCall(old(View()), prefix, works); View() == o.cache && ok == o.reported
    {
      hide WithoutPrefix, WellFormed, Listed, KeepWithoutPrefix, IsIteration;
      if !isOpen {
        return false;
      }
      if memory != null {
        memory.RemoveKeysWithPrefix(prefix);
      }
      if disk != null {
        ok := disk.RemoveKeysWithPrefix(prefix, order, works);
        return;
      }
      return true;
    }
  }
}
