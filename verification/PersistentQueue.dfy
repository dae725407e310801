/**
 The publish queue over the two-tier cache: how its list of keys fares there.

 The client puts the list and the requests without an expiry, and ignores what the puts report.
 */
module PersistentQueue {
  import opened Wrappers
  import opened LruCache
  import opened InMemoryCache
  import opened DefaultCache
  import opened StreamQueue

  function ListDecoder(): string -> Cached {
    (s: string) => List(s)
  }

  function PutList(listKey: string, text: string, now: int, fits: bool): DefaultCache.Op<Cached> {
    DefaultCache.Op.Put(listKey, List(text), text, TIME_MAX, now, true, fits)
  }

  function WriteList(c: Cache<Cached>, listKey: string, text: string, now: int, fits: bool): Cache<Cached> {
    DefaultCache.Apply(c, PutList(listKey, text, now, fits)).cache
  }

  function ReadList(c: Cache<Cached>, listKey: string, now: int): Option<Cached> {
    GetCall(c, listKey, now, ListDecoder(), true, true).hit
  }

  /** `QueueSize`: the commas of the list that the cache returns, or none. */
  function SizeRead(c: Cache<Cached>, listKey: string, now: int): nat {
    match ReadList(c, listKey, now)
    case Some(List(text)) => Commas(text)
    case _ => 0
  }

  /** The key has no companion on disk, as a key that is only put without expiry. */
  ghost predicate Unexpiring(c: Cache<Cached>, key: string) {
    c.disk.Some? ==> ExpiryKey(key) !in c.disk.value
  }

  ghost predicate Sound(c: Cache<Cached>) {
    c.isOpen && (c.memory.Some? ==> WellFormed(c.memory.value))
  }

  predicate InMemory(c: Cache<Cached>, key: string) {
    c.memory.Some? && Has(c.memory.value.items, key)
  }

  /** The list that a write leaves on disk. */
  lemma ListOnDisk(c: Cache<Cached>, listKey: string, text: string, now: int, fits: bool)
    requires Sound(c) && !IsExpiryKey(listKey) && Unexpiring(c, listKey)
    ensures var o := WriteList(c, listKey, text, now, fits); var op := PutList(listKey, text, now, fits);
            && Sound(o) && Unexpiring(o, listKey)
            && o.memory.Some? == c.memory.Some? && o.disk.Some? == c.disk.Some?
            && (c.disk.Some? ==> o.disk.value == if WritesValue(c, op) then c.disk.value[listKey := text]
                                                 else c.disk.value)
  {
    var op := PutList(listKey, text, now, fits);
    ExpiryKeys(listKey);
    SameTiers(c, op);
    if c.disk.Some? {
      DiskAfterPut(c, op);
    }
    if c.memory.Some? {
      OthersMemory(c, op, "");
    }
    hide DefaultCache.Apply, ExpiryKey, IsExpiryKey, WellFormed, WritesValue;
  }

  /** The item that a write leaves in memory, if any. */
  lemma ListInMemory(c: Cache<Cached>, listKey: string, text: string, now: int, fits: bool, x: Item<Cached>)
    requires Sound(c) && c.memory.Some?
    requires var o := WriteList(c, listKey, text, now, fits);
             o.memory.Some? && x in o.memory.value.items && x.key == listKey
    ensures x == Item(listKey, TIME_MAX, List(text), |text|)
  {
    hide PutItem, Accepts;
    OwnItem(c.memory.value, listKey, List(text), TIME_MAX, |text|, now, x);
  }

  /** A list is read from memory if it is there, and otherwise from disk. */
  lemma ReadsEither(c: Cache<Cached>, listKey: string, text: string, now: int)
    requires Sound(c) && Unexpiring(c, listKey) && now <= TIME_MAX
    requires forall i :: c.memory.Some? && 0 <= i < |c.memory.value.items| && c.memory.value.items[i].key == listKey ==>
               c.memory.value.items[i] == Item(listKey, TIME_MAX, List(text), |text|)
    ensures ReadList(c, listKey, now) ==
            if InMemory(c, listKey) then Some(List(text))
            else if OnDisk(c, listKey) then Some(List(c.disk.value[listKey]))
            else None
  {
    hide PutItem, ExpiryKey, WellFormed;
  }

  /**
   After a write and any calls about other keys, the list read back is the one last written exactly when it is
   still in memory, or the write got through to disk, or the disk had the same list before.
   */
  lemma ReadBackExactly(c: Cache<Cached>, listKey: string, text: string, now: int, fits: bool,
                        others: seq<DefaultCache.Op<Cached>>, later: int)
    requires Sound(c) && !IsExpiryKey(listKey) && Unexpiring(c, listKey) && AllOthers(others, listKey)
    requires later <= TIME_MAX
    ensures var o := DefaultCache.RunAll(WriteList(c, listKey, text, now, fits), others);
            && (ReadList(o, listKey, later) == Some(List(text)) <==>
                  || InMemory(o, listKey)
                  || WritesValue(c, PutList(listKey, text, now, fits))
                  || (OnDisk(c, listKey) && c.disk.value[listKey] == text))
            && (!InMemory(o, listKey) && !WritesValue(c, PutList(listKey, text, now, fits)) ==>
                  ReadList(o, listKey, later) ==
                  if OnDisk(c, listKey) then Some(List(c.disk.value[listKey])) else None)
  {
    var w := WriteList(c, listKey, text, now, fits);
    var o := DefaultCache.RunAll(w, others);
    ListOnDisk(c, listKey, text, now, fits);
    OthersRun(w, others, listKey);
    if c.memory.Some? {
      forall i | 0 <= i < |o.memory.value.items| && o.memory.value.items[i].key == listKey
        ensures o.memory.value.items[i] == Item(listKey, TIME_MAX, List(text), |text|)
      {
        ListInMemory(c, listKey, text, now, fits, o.memory.value.items[i]);
      }
    }
    hide WriteList, DefaultCache.RunAll, WellFormed, ExpiryKey, IsExpiryKey, ReadList, WritesValue, Has;
    ReadsEither(o, listKey, text, later);
  }

  // The list on disk is out of date as soon as a list in memory is overwritten.

  /** Writes one list after the other, each at its time. */
  function WriteAll(c: Cache<Cached>, listKey: string, lists: seq<(string, int)>): Cache<Cached>
    decreases |lists|
  {
    if lists == [] then c else WriteAll(WriteList(c, listKey, lists[0].0, lists[0].1, true), listKey, lists[1..])
  }

  /** Each write finds the list in memory. */
  ghost predicate StaysInMemory(c: Cache<Cached>, listKey: string, lists: seq<(string, int)>)
    decreases |lists|
  {
    lists == [] ||
    (&& c.memory.Some? && Has(Purged(c.memory.value, lists[0].1).items, listKey)
     && StaysInMemory(WriteList(c, listKey, lists[0].0, lists[0].1, true), listKey, lists[1..]))
  }

  /** While the list stays in memory no update of it reaches the disk, however many there are. */
  lemma {:induction false} DiskFrozen(c: Cache<Cached>, listKey: string, lists: seq<(string, int)>)
    requires StaysInMemory(c, listKey, lists)
    ensures WriteAll(c, listKey, lists).disk == c.disk
    decreases |lists|
  {
    if lists != [] {
      var (text, now) := lists[0];
      OverwriteReportsFailure(c, listKey, List(text), text, TIME_MAX, now, true, true);
      hide PutCall, Purged, Has;
      DiskFrozen(WriteList(c, listKey, text, now, true), listKey, lists[1..]);
    }
  }

  /**
   So when it is driven out of memory after any such updates, the queue is read as it was before all of them:
   the old `keys` are counted, whatever the last list written was.
   */
  lemma StaleQueue(c: Cache<Cached>, listKey: string, keys: seq<string>, lists: seq<(string, int)>,
                   text: string, now: int, others: seq<DefaultCache.Op<Cached>>, later: int)
    requires Sound(WriteAll(c, listKey, lists)) && !IsExpiryKey(listKey) && Unexpiring(c, listKey)
    requires StaysInMemory(c, listKey, lists + [(text, now)]) && AllOthers(others, listKey) && later <= TIME_MAX
    requires AllCommaFree(keys) && OnDisk(c, listKey) && c.disk.value[listKey] == Joined(keys)
    requires !InMemory(DefaultCache.RunAll(WriteList(WriteAll(c, listKey, lists), listKey, text, now, true), others),
                       listKey)
    ensures var o := DefaultCache.RunAll(WriteList(WriteAll(c, listKey, lists), listKey, text, now, true), others);
            ReadList(o, listKey, later) == Some(List(Joined(keys))) && SizeRead(o, listKey, later) == |keys|
  {
    SplitWrites(c, listKey, lists, text, now);
    DiskFrozen(c, listKey, lists);
    hide *;
    StaleRead(WriteAll(c, listKey, lists), listKey, keys, text, now, others, later);
  }

  lemma StaleRead(w: Cache<Cached>, listKey: string, keys: seq<string>, text: string, now: int,
                  others: seq<DefaultCache.Op<Cached>>, later: int)
    requires Sound(w) && !IsExpiryKey(listKey) && Unexpiring(w, listKey) && later <= TIME_MAX
    requires w.memory.Some? && Has(Purged(w.memory.value, now).items, listKey) && AllOthers(others, listKey)
    requires AllCommaFree(keys) && OnDisk(w, listKey) && w.disk.value[listKey] == Joined(keys)
    requires !InMemory(DefaultCache.RunAll(WriteList(w, listKey, text, now, true), others), listKey)
    ensures var o := DefaultCache.RunAll(WriteList(w, listKey, text, now, true), others);
            ReadList(o, listKey, later) == Some(List(Joined(keys))) && SizeRead(o, listKey, later) == |keys|
  {
    CountKeys(keys);
    ReadBackExactly(w, listKey, text, now, true, others, later);
    assert !WritesValue(w, PutList(listKey, text, now, true));
    hide Joined, WriteList, AllOthers, ReadList, InMemory, Sound, DefaultCache.RunAll, Has, Purged, WritesValue;
  }

  lemma {:induction false} SplitWrites(c: Cache<Cached>, listKey: string, lists: seq<(string, int)>,
                                       text: string, now: int)
    requires StaysInMemory(c, listKey, lists + [(text, now)])
    ensures StaysInMemory(c, listKey, lists)
    ensures var w := WriteAll(c, listKey, lists); w.memory.Some? && Has(Purged(w.memory.value, now).items, listKey)
    decreases |lists|
  {
    hide WriteList, Has, Purged;
    if lists == [] {
      assert lists + [(text, now)] == [(text, now)];
    } else {
      assert (lists + [(text, now)])[1..] == lists[1..] + [(text, now)];
      SplitWrites(WriteList(c, listKey, lists[0].0, lists[0].1, true), listKey, lists[1..], text, now);
    }
  }

  /** It happens from a fresh cache: two lists written, then something that takes all of the memory tier. */
  lemma StaleExample(maxMemory: nat, listKey: string, first: seq<string>, second: seq<string>,
                     other: string, filler: Cached, encoded: string, now: int)
    requires !IsExpiryKey(listKey) && !IsExpiryKey(other) && other != listKey && AllCommaFree(first)
    requires 0 < maxMemory == |encoded| && |Joined(first)| <= maxMemory && now <= TIME_MAX
    ensures var c1 := WriteList(FreshCache(maxMemory, true), listKey, Joined(first), now, true);
            var c2 := WriteList(c1, listKey, Joined(second), now, true);
            var o := PutCall(c2, other, filler, encoded, TIME_MAX, now, true, true);
            o.reported && SizeRead(o.cache, listKey, now) == |first|
  {
    var text := Joined(first);
    CountKeys(first);
    FirstWrite(maxMemory, listKey, text, now);
    SecondWrite(maxMemory, listKey, text, Joined(second), now, other, filler, |encoded|);
    hide Joined, PutItem, Purged, Has, ExpiryKey, IsExpiryKey, WellFormed, Accepts;
    var c1 := WriteList(FreshCache(maxMemory, true), listKey, text, now, true);
    OverwriteGoesStale(c1, ListDecoder(), listKey, List(Joined(second)), Joined(second), TIME_MAX, now,
                       other, filler, encoded, now);
  }

  function OneItem(listKey: string, text: string, maxMemory: nat): Memory<Cached> {
    Memory([Item(listKey, TIME_MAX, List(text), |text|)], [], maxMemory)
  }

  lemma OneCost(x: Item<Cached>)
    ensures TotalCost([x]) == Cost(x) && TotalCost<Cached>([]) == 0
  {
    assert [x][..0] == [];
  }

  lemma FirstWrite(maxMemory: nat, listKey: string, text: string, now: int)
    requires 0 < maxMemory && |text| <= maxMemory
    ensures WriteList(FreshCache(maxMemory, true), listKey, text, now, true) ==
            Cache(true, Some(OneItem(listKey, text, maxMemory)), Some(map[listKey := text]))
  {
    var x := Item(listKey, TIME_MAX, List(text), |text|);
    OneCost(x);
    assert [x] + [] == [x];
    assert PutItem(Memory([], [], maxMemory), listKey, List(text), TIME_MAX, |text|, now) ==
           OneItem(listKey, text, maxMemory);
  }

  lemma SecondWrite(maxMemory: nat, listKey: string, text: string, next: string, now: int,
                    other: string, filler: Cached, size: nat)
    requires 0 < maxMemory == size && other != listKey
    ensures var m := OneItem(listKey, text, maxMemory); var n := PutItem(m, listKey, List(next), TIME_MAX, |next|, now);
            && WellFormed(m) && Has(Purged(m, now).items, listKey)
            && Accepts(n, other, filler, TIME_MAX, size, now)
            && Cost(Item(other, TIME_MAX, filler, size)) == n.maxSize
  {
    var m := OneItem(listKey, text, maxMemory);
    var y := Item(listKey, TIME_MAX, List(next), |next|);
    OneCost(y);
    assert [y] + Without(m.items, 0) == [y] && [y][..0] == [];
    assert Purged(m, now) == m && Find(m.items, listKey) == 0;
    var f := OneItem(listKey, next, maxMemory);
    var e: Memory<Cached> := Memory([], [], maxMemory);
    assert Stored(m, y) == Evicted(f) && Evicted(e) == e;
    assert Evicted(f) == if Cost(y) <= maxMemory then f else Evicted(e) by {
      assert f.items[..0] == [];
      assert f.(items := f.items[..0], index := IndexAfterEviction(f.index, y)) == e;
    }
    var n := PutItem(m, listKey, List(next), TIME_MAX, |next|, now);
    assert n == f || n == e;
  }

  // Without a memory tier the cache is the plain map that the client takes it for.

  function TextOf(hit: Option<Cached>): string {
    match hit
    case Some(List(text)) => text
    case _ => ""
  }

  /** `Queue`, past its checks: the request under a new key, and the key at the end of the list. */
  function QueueOver(c: Cache<Cached>, listKey: string, r: PublishRequest, encoded: string, uuid: string, now: int):
    Cache<Cached>
  {
    var c1 := PutCall(c, uuid, Entry(r), encoded, TIME_MAX, now, true, true).cache;
    var g := GetCall(c1, listKey, now, ListDecoder(), true, true);
    WriteList(g.cache, listKey, TextOf(g.hit) + (uuid + ","), now, true)
  }

  /** `PopFromQueue`; `fits` says whether the database takes the shorter list. */
  function PopOver(c: Cache<Cached>, listKey: string, now: int, decode: string -> Cached, fits: bool):
    (Cache<Cached>, Option<PublishRequest>)
  {
    var g := GetCall(c, listKey, now, ListDecoder(), true, true);
    var text := TextOf(g.hit);
    var pos := FirstComma(text);
    if pos == |text| then (g.cache, None) else
      var h := GetCall(g.cache, text[..pos], now, decode, true, true);
      var c1 := RemoveCall(h.cache, text[..pos], true).cache;
      var r := if h.hit.Some? && h.hit.value.Entry? then Some(h.hit.value.request) else None;
      (WriteList(c1, listKey, text[pos + 1..], now, fits), r)
  }

  /** What the disk holds for its clients. */
  ghost function Ideal(d: Database, listKey: string, decode: string -> Cached): map<string, Cached> {
    map k | k in d && !IsExpiryKey(k) :: if k == listKey then List(d[k]) else decode(d[k])
  }

  /** No key of the queue is or has a companion. */
  ghost predicate Plain(d: Database, listKey: string, keys: seq<string>) {
    && !IsExpiryKey(listKey) && ExpiryKey(listKey) !in d
    && forall i :: 0 <= i < |keys| ==> !IsExpiryKey(keys[i]) && ExpiryKey(keys[i]) !in d
  }

  /** The queue on disk is the list of those requests. */
  ghost predicate Holds(d: Database, listKey: string, keys: seq<string>, decode: string -> Cached,
                        items: seq<Option<PublishRequest>>)
  {
    var ideal := Ideal(d, listKey, decode);
    Plain(d, listKey, keys) && Consistent(ideal, listKey, keys) && Items(keys, ideal) == items
  }

  lemma ReadDisk(d: Database, key: string, now: int, decode: string -> Cached)
    requires ExpiryKey(key) !in d
    ensures var c := Cache(true, None, Some(d));
            GetCall(c, key, now, decode, true, true) ==
            Outcome(c, true, if key in d then Some(decode(d[key])) else None)
  {
    hide ExpiryKey;
  }

  lemma WriteDisk(d: Database, key: string, value: Cached, encoded: string, now: int)
    ensures PutCall(Cache(true, None, Some(d)), key, value, encoded, TIME_MAX, now, true, true).cache ==
            Cache(true, None, Some(d[key := encoded]))
  {
  }

  lemma IdealAfter(d: Database, listKey: string, decode: string -> Cached, key: string, encoded: string)
    requires !IsExpiryKey(key)
    ensures Ideal(d[key := encoded], listKey, decode) ==
            Ideal(d, listKey, decode)[key := if key == listKey then List(encoded) else decode(encoded)]
    ensures Ideal(d - {key}, listKey, decode) == Ideal(d, listKey, decode) - {key}
  {
    hide IsExpiryKey;
  }

  lemma ListText(d: Database, listKey: string, keys: seq<string>, decode: string -> Cached,
                 items: seq<Option<PublishRequest>>)
    requires Holds(d, listKey, keys, decode, items)
    ensures TextOf(if listKey in d then Some(List(d[listKey])) else None) == Joined(keys)
  {
    var ideal := Ideal(d, listKey, decode);
    assert listKey in d <==> listKey in ideal;
    hide Items, IsExpiryKey, ExpiryKey;
  }

  /** The size read is the length of the queue. */
  lemma DiskOnlySize(d: Database, listKey: string, keys: seq<string>, decode: string -> Cached,
                     items: seq<Option<PublishRequest>>, now: int)
    requires Holds(d, listKey, keys, decode, items)
    ensures SizeRead(Cache(true, None, Some(d)), listKey, now) == |items|
  {
    ListText(d, listKey, keys, decode, items);
    ReadDisk(d, listKey, now, ListDecoder());
    CountKeys(keys);
    ItemsLength(keys, Ideal(d, listKey, decode));
    hide Joined, Items, GetCall, Ideal, Plain;
  }

  /** Queueing appends the request. */
  lemma DiskOnlyQueue(d: Database, listKey: string, keys: seq<string>, decode: string -> Cached,
                      items: seq<Option<PublishRequest>>, r: PublishRequest, encoded: string, uuid: string, now: int)
    requires Holds(d, listKey, keys, decode, items) && Publishable(r) && decode(encoded) == Entry(r)
    requires !IsExpiryKey(uuid) && ExpiryKey(uuid) !in d && FreshKey(Ideal(d, listKey, decode), listKey, keys, uuid)
    ensures var o := QueueOver(Cache(true, None, Some(d)), listKey, r, encoded, uuid, now);
            && o.memory.None? && o.disk.Some? && o.isOpen
            && Holds(o.disk.value, listKey, keys + [uuid], decode, items + [Some(r)])
            && o.disk.value - {listKey} == d[uuid := encoded] - {listKey}
  {
    hide Joined, Items, QueueOver, Consistent, IsExpiryKey, ExpiryKey, Ideal, ItemOf, CommaFree, TextOf, Publishable;
    var text := Joined(keys) + (uuid + ",");
    var e := d[uuid := encoded][listKey := text];
    ListText(d, listKey, keys, decode, items);
    QueueDisk(d, listKey, Joined(keys), r, encoded, uuid, now);
    QueueKeeps(Ideal(d, listKey, decode), listKey, keys, uuid, r);
    IdealAfter(d, listKey, decode, uuid, encoded);
    IdealAfter(d[uuid := encoded], listKey, decode, listKey, text);
    PlainAfter(d, e, listKey, keys, uuid);
    IdealText(d, listKey, keys, decode);
  }

  lemma IdealText(d: Database, listKey: string, keys: seq<string>, decode: string -> Cached)
    requires Consistent(Ideal(d, listKey, decode), listKey, keys)
    ensures var ideal := Ideal(d, listKey, decode);
            (if listKey in ideal then ideal[listKey].text else "") == Joined(keys)
  {
    hide IsExpiryKey, ItemOf;
  }

  lemma QueueDisk(d: Database, listKey: string, text: string, r: PublishRequest, encoded: string, uuid: string,
                  now: int)
    requires TextOf(if listKey in d then Some(List(d[listKey])) else None) == text
    requires ExpiryKey(listKey) !in d && !IsExpiryKey(uuid) && uuid != listKey
    ensures QueueOver(Cache(true, None, Some(d)), listKey, r, encoded, uuid, now) ==
            Cache(true, None, Some(d[uuid := encoded][listKey := text + (uuid + ",")]))
  {
    WriteDisk(d, uuid, Entry(r), encoded, now);
    ExpiryKeys(listKey);
    ReadDisk(d[uuid := encoded], listKey, now, ListDecoder());
    WriteDisk(d[uuid := encoded], listKey, List(text + (uuid + ",")), text + (uuid + ","), now);
    hide GetCall, PutCall, IsExpiryKey, ExpiryKey;
  }

  lemma PlainAfter(d: Database, e: Database, listKey: string, keys: seq<string>, uuid: string)
    requires Plain(d, listKey, keys) && !IsExpiryKey(uuid) && ExpiryKey(uuid) !in d
    requires e.Keys == d.Keys + {uuid, listKey}
    ensures Plain(e, listKey, keys + [uuid])
  {
    ExpiryKeys(listKey);
    ExpiryKeys(uuid);
    forall i | 0 <= i < |keys|
      ensures !IsExpiryKey(keys[i]) && ExpiryKey(keys[i]) !in e
    {
      ExpiryKeys(keys[i]);
    }
    hide IsExpiryKey, ExpiryKey;
  }

  /** Popping takes the first request off, and gives it unless it is missing. */
  lemma DiskOnlyPop(d: Database, listKey: string, keys: seq<string>, decode: string -> Cached,
                    items: seq<Option<PublishRequest>>, now: int)
    requires Holds(d, listKey, keys, decode, items) && keys != []
    ensures var (o, r) := PopOver(Cache(true, None, Some(d)), listKey, now, decode, true);
            && o.memory.None? && o.disk.Some? && o.isOpen && items != [] && r == items[0]
            && Holds(o.disk.value, listKey, keys[1..], decode, items[1..])
            && o.disk.value - {listKey} == d - {listKey, keys[0]}
  {
    hide Joined, Items, PopOver, Consistent, IsExpiryKey, ExpiryKey, Ideal, CommaFree, TextOf, Publishable;
    var ideal := Ideal(d, listKey, decode);
    var key := keys[0];
    var text := Joined(keys[1..]);
    PopDisk(d, listKey, keys, decode, items, now);
    PopKeeps(ideal, listKey, keys);
    ItemsLength(keys, ideal);
    IdealAfter(d, listKey, decode, key, "");
    IdealAfter(d - {key}, listKey, decode, listKey, text);
    PlainRest(d, (d - {key})[listKey := text], listKey, keys);
  }

  lemma PopDisk(d: Database, listKey: string, keys: seq<string>, decode: string -> Cached,
                items: seq<Option<PublishRequest>>, now: int)
    requires Holds(d, listKey, keys, decode, items) && keys != []
    ensures keys[0] != listKey
    ensures PopOver(Cache(true, None, Some(d)), listKey, now, decode, true) ==
            (Cache(true, None, Some((d - {keys[0]})[listKey := Joined(keys[1..])])),
             ItemOf(keys[0], Ideal(d, listKey, decode)))
  {
    var key := keys[0];
    var text := Joined(keys[1..]);
    ListText(d, listKey, keys, decode, items);
    FindKey(keys);
    assert key != listKey && ExpiryKey(key) !in d && ExpiryKey(listKey) !in d;
    assert key in d <==> key in Ideal(d, listKey, decode);
    ReadDisk(d, listKey, now, ListDecoder());
    ReadDisk(d, key, now, decode);
    WriteDisk(d - {key}, listKey, List(text), text, now);
    hide Joined, Items, GetCall, PutCall, Consistent, Plain, Holds, ExpiryKey, IsExpiryKey, FirstComma;
  }

  /**
   If the database refuses the shorter list, popping loses the request but not its key: the size read stays what it
   was, and every further pop is the same again, with nothing returned. So a flush that meets this does not end.
   */
  lemma PopWithoutProgress(d: Database, listKey: string, keys: seq<string>, decode: string -> Cached,
                           items: seq<Option<PublishRequest>>, now: int, later: int)
    requires Holds(d, listKey, keys, decode, items) && keys != []
    ensures var c := Cache(true, None, Some(d)); var (o, r) := PopOver(c, listKey, now, decode, false);
            && SizeRead(o, listKey, later) == SizeRead(c, listKey, later) == |items| > 0
            && PopOver(o, listKey, later, decode, false) == (o, None)
  {
    var key := keys[0];
    var e := d - {key};
    DiskOnlySize(d, listKey, keys, decode, items, later);
    ItemsLength(keys, Ideal(d, listKey, decode));
    ListText(d, listKey, keys, decode, items);
    FindKey(keys);
    assert key != listKey && ExpiryKey(key) !in d && ExpiryKey(listKey) !in d;
    ReadDisk(d, listKey, now, ListDecoder());
    ReadDisk(d, listKey, later, ListDecoder());
    ReadDisk(d, key, now, decode);
    ReadDisk(e, listKey, later, ListDecoder());
    ReadDisk(e, key, later, decode);
    RefusedList(e, listKey, Joined(keys[1..]), now);
    RefusedList(e, listKey, Joined(keys[1..]), later);
    hide Joined, Items, GetCall, WriteList, Holds, ExpiryKey, FirstComma, Commas;
    assert PopOver(Cache(true, None, Some(d)), listKey, now, decode, false).0 == Cache(true, None, Some(e));
    assert e - {key} == e;
  }

  /** So a pop makes the queue shorter exactly when the database takes the shorter list. */
  lemma PopProgressExactly(d: Database, listKey: string, keys: seq<string>, decode: string -> Cached,
                           items: seq<Option<PublishRequest>>, now: int, fits: bool)
    requires Holds(d, listKey, keys, decode, items) && keys != []
    ensures var c := Cache(true, None, Some(d)); var (o, _) := PopOver(c, listKey, now, decode, fits);
            SizeRead(o, listKey, now) < SizeRead(c, listKey, now) <==> fits
  {
    DiskOnlySize(d, listKey, keys, decode, items, now);
    hide PopOver, SizeRead, Holds;
    if fits {
      DiskOnlyPop(d, listKey, keys, decode, items, now);
      var (o, _) := PopOver(Cache(true, None, Some(d)), listKey, now, decode, true);
      DiskOnlySize(o.disk.value, listKey, keys[1..], decode, items[1..], now);
    } else {
      PopWithoutProgress(d, listKey, keys, decode, items, now, now);
    }
  }

  lemma RefusedList(d: Database, listKey: string, text: string, now: int)
    ensures WriteList(Cache(true, None, Some(d)), listKey, text, now, false) == Cache(true, None, Some(d))
  {
  }

  lemma PlainRest(d: Database, e: Database, listKey: string, keys: seq<string>)
    requires Plain(d, listKey, keys) && keys != [] && e.Keys <= d.Keys + {listKey}
    ensures Plain(e, listKey, keys[1..])
  {
    ExpiryKeys(listKey);
    forall i | 0 <= i < |keys[1..]|
      ensures !IsExpiryKey(keys[1..][i]) && ExpiryKey(keys[1..][i]) !in e
    {
      ExpiryKeys(keys[i + 1]);
    }
    hide IsExpiryKey, ExpiryKey;
  }
}
