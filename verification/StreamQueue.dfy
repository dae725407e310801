/**
 The publish queue of a stream layer: requests stored in a key-value cache, their keys in one comma-separated
 string under a fixed cache key, and a flush loop that publishes them.
 */
module StreamQueue {
  import opened Wrappers

  datatype PublishRequest = PublishRequest(hasData: bool, layerId: string, payload: nat)

  /** What the cache holds: the list of keys, or a request. */
  datatype Cached = List(text: string) | Entry(request: PublishRequest)

  // The list of keys as a string.

  predicate CommaFree(s: string) {
    ',' !in s
  }

  function Joined(keys: seq<string>): string {
    if keys == [] then "" else keys[0] + "," + Joined(keys[1..])
  }

  function Commas(s: string): nat {
    if s == "" then 0 else (if s[0] == ',' then 1 else 0) + Commas(s[1..])
  }

  /** `find(",")`: the place of the first comma, or the length. */
  function FirstComma(s: string): (k: nat)
    ensures k <= |s| && (k < |s| ==> s[k] == ',')
  {
    if s == "" || s[0] == ',' then 0 else 1 + FirstComma(s[1..])
  }

  /** The keys in a list string, read by repeated `find` and `erase`. */
  function Keys(s: string): seq<string>
    decreases |s|
  {
    var k := FirstComma(s);
    if k == |s| then [] else [s[..k]] + Keys(s[k + 1..])
  }

  ghost predicate AllCommaFree(keys: seq<string>) {
    forall i :: 0 <= i < |keys| ==> CommaFree(keys[i])
  }

  lemma ListExample()
    ensures Joined(["a", "b"]) == "a,b," && Joined([]) == ""
  {
    assert ["a", "b"][1..] == ["b"] && ["b"][1..] == [];
  }

  lemma {:induction false} CommasConcat(a: string, b: string)
    ensures Commas(a + b) == Commas(a) + Commas(b)
  {
    if a == "" {
      assert a + b == b;
    } else {
      assert (a + b)[1..] == a[1..] + b;
      CommasConcat(a[1..], b);
    }
  }

  lemma {:induction false} NoCommas(s: string)
    requires CommaFree(s)
    ensures Commas(s) == 0
  {
    if s != "" {
      assert s[0] in s;
      NoCommas(s[1..]);
    }
  }

  lemma {:induction false} FirstCommaAfter(key: string, rest: string)
    requires CommaFree(key)
    ensures FirstComma(key + "," + rest) == |key|
  {
    var s := key + "," + rest;
    if key != "" {
      assert s[1..] == key[1..] + "," + rest;
      FirstCommaAfter(key[1..], rest);
    }
  }

  /** The number of commas is the number of keys. */
  lemma {:induction false} CountKeys(keys: seq<string>)
    requires AllCommaFree(keys)
    ensures Commas(Joined(keys)) == |keys|
  {
    if keys != [] {
      var rest := Joined(keys[1..]);
      assert Joined(keys) == keys[0] + ("," + rest);
      CommasConcat(keys[0], "," + rest);
      assert ("," + rest)[1..] == rest;
      NoCommas(keys[0]);
      CountKeys(keys[1..]);
    }
  }

  /** The text before the first comma is the first key, and the text behind it the list of the others. */
  lemma SplitFirst(keys: seq<string>)
    requires AllCommaFree(keys) && keys != []
    ensures var s := Joined(keys); var k := FirstComma(s);
            k < |s| && s[..k] == keys[0] && s[k + 1..] == Joined(keys[1..])
  {
    FirstCommaAfter(keys[0], Joined(keys[1..]));
  }

  /** The string determines the keys: reading a list string gives back the keys it was made of. */
  lemma {:induction false} KeysRoundTrip(keys: seq<string>)
    requires AllCommaFree(keys)
    ensures Keys(Joined(keys)) == keys
  {
    if keys != [] {
      SplitFirst(keys);
      KeysRoundTrip(keys[1..]);
    }
  }

  lemma {:induction false} JoinedAppend(keys: seq<string>, key: string)
    ensures Joined(keys + [key]) == Joined(keys) + (key + ",")
  {
    if keys == [] {
      assert keys + [key] == [key] && [key][1..] == [];
      assert key + "," + "" == key + ",";
    } else {
      assert (keys + [key])[1..] == keys[1..] + [key];
      JoinedAppend(keys[1..], key);
    }
  }

  // The list string as a queue of keys.

  datatype KeyOp = Append(key: string) | TakeFirst

  /** The list string after the operations, as `Queue` and `PopFromQueue` rewrite it, and the keys taken. */
  function RunText(text: string, ops: seq<KeyOp>): (string, seq<string>)
    decreases |ops|
  {
    if ops == [] then (text, [])
    else match ops[0]
      case Append(key) => RunText(text + (key + ","), ops[1..])
      case TakeFirst =>
        var k := FirstComma(text);
        if k == |text| then RunText(text, ops[1..]) else
          var (rest, taken) := RunText(text[k + 1..], ops[1..]);
          (rest, [text[..k]] + taken)
  }

  /** The same operations on a first-in, first-out queue. */
  function RunQueue(keys: seq<string>, ops: seq<KeyOp>): (seq<string>, seq<string>)
    decreases |ops|
  {
    if ops == [] then (keys, [])
    else match ops[0]
      case Append(key) => RunQueue(keys + [key], ops[1..])
      case TakeFirst =>
        if keys == [] then RunQueue(keys, ops[1..]) else
          var (rest, taken) := RunQueue(keys[1..], ops[1..]);
          (rest, [keys[0]] + taken)
  }

  /** Over any operations the string holds the queue's keys, and the keys are taken in the queue's order. */
  lemma {:induction false} TextIsQueue(keys: seq<string>, ops: seq<KeyOp>)
    requires AllCommaFree(keys) && forall op :: op in ops && op.Append? ==> CommaFree(op.key)
    ensures var (text, taken) := RunText(Joined(keys), ops); var (rest, gone) := RunQueue(keys, ops);
            text == Joined(rest) && taken == gone && AllCommaFree(rest) && Commas(text) == |rest|
    decreases |ops|
  {
    if ops == [] {
      CountKeys(keys);
    } else {
      assert ops[0] in ops && forall op :: op in ops[1..] ==> op in ops;
      match ops[0]
      case Append(key) =>
        JoinedAppend(keys, key);
        TextIsQueue(keys + [key], ops[1..]);
      case TakeFirst =>
        FindKey(keys);
        if keys == [] {
          TextIsQueue(keys, ops[1..]);
        } else {
          TextIsQueue(keys[1..], ops[1..]);
        }
    }
  }

  // The abstract queue.

  predicate Publishable(r: PublishRequest) {
    r.hasData && r.layerId != ""
  }

  /** The queued requests in order; a request is missing if the cache has lost it. */
  function Items(keys: seq<string>, cache: map<string, Cached>): seq<Option<PublishRequest>> {
    if keys == [] then [] else [ItemOf(keys[0], cache)] + Items(keys[1..], cache)
  }

  function ItemOf(key: string, cache: map<string, Cached>): Option<PublishRequest> {
    if key in cache && cache[key].Entry? then Some(cache[key].request) else None
  }

  /** The requests that are not missing. */
  function Present(items: seq<Option<PublishRequest>>): seq<PublishRequest> {
    if items == [] then []
    else IfPresent(items[0]) + Present(items[1..])
  }

  lemma {:induction false} ItemsSame(keys: seq<string>, c: map<string, Cached>, d: map<string, Cached>)
    requires forall i :: 0 <= i < |keys| ==> ItemOf(keys[i], c) == ItemOf(keys[i], d)
    ensures Items(keys, c) == Items(keys, d)
  {
    if keys != [] {
      ItemsSame(keys[1..], c, d);
    }
  }

  lemma {:induction false} ItemsAppend(keys: seq<string>, key: string, c: map<string, Cached>)
    ensures Items(keys + [key], c) == Items(keys, c) + [ItemOf(key, c)]
  {
    if keys == [] {
      assert keys + [key] == [key] && [key][1..] == [];
    } else {
      assert (keys + [key])[1..] == keys[1..] + [key];
      ItemsAppend(keys[1..], key, c);
    }
  }

  function IfPresent(x: Option<PublishRequest>): seq<PublishRequest> {
    if x.Some? then [x.value] else []
  }

  lemma {:induction false} PresentAppend(items: seq<Option<PublishRequest>>, x: Option<PublishRequest>)
    ensures Present(items + [x]) == Present(items) + IfPresent(x)
  {
    if items == [] {
      assert items + [x] == [x] && [x][1..] == [];
    } else {
      assert (items + [x])[1..] == items[1..] + [x];
      PresentAppend(items[1..], x);
    }
  }

  lemma {:induction false} ItemsLength(keys: seq<string>, c: map<string, Cached>)
    ensures |Items(keys, c)| == |keys|
  {
    if keys != [] {
      ItemsLength(keys[1..], c);
    }
  }

  // The cache and the keys it lists.

  /** `keys` are listed under `listKey`, and what is stored under them could be queued again. */
  ghost predicate Consistent(cache: map<string, Cached>, listKey: string, keys: seq<string>) {
    && AllCommaFree(keys)
    && (forall i :: 0 <= i < |keys| ==> keys[i] != listKey)
    && (forall i, j :: 0 <= i < j < |keys| ==> keys[i] != keys[j])
    && (if listKey in cache then cache[listKey] == List(Joined(keys)) else keys == [])
    && (forall i :: 0 <= i < |keys| && ItemOf(keys[i], cache).Some? ==> Publishable(ItemOf(keys[i], cache).value))
  }

  ghost predicate FreshKey(cache: map<string, Cached>, listKey: string, keys: seq<string>, key: string) {
    CommaFree(key) && key !in cache && key !in keys && key != listKey
  }

  lemma QueueKeeps(c: map<string, Cached>, listKey: string, keys: seq<string>, uuid: string, r: PublishRequest)
    requires Consistent(c, listKey, keys) && FreshKey(c, listKey, keys, uuid) && Publishable(r)
    ensures var text := (if listKey in c then c[listKey].text else "") + (uuid + ",");
            var d := c[uuid := Entry(r)][listKey := List(text)];
            Consistent(d, listKey, keys + [uuid]) && Items(keys + [uuid], d) == Items(keys, c) + [Some(r)]
  {
    var text := (if listKey in c then c[listKey].text else "") + (uuid + ",");
    var d := c[uuid := Entry(r)][listKey := List(text)];
    JoinedAppend(keys, uuid);
    hide Joined, Items;
    assert forall i :: 0 <= i < |keys| ==> ItemOf(keys[i], d) == ItemOf(keys[i], c);
    ItemsSame(keys, c, d);
    ItemsAppend(keys, uuid, d);
  }

  lemma PopKeeps(c: map<string, Cached>, listKey: string, keys: seq<string>)
    requires Consistent(c, listKey, keys) && keys != []
    ensures var d := (c - {keys[0]})[listKey := List(Joined(keys[1..]))];
            && Consistent(d, listKey, keys[1..]) && Items(keys[1..], d) == Items(keys, c)[1..]
            && Items(keys, c)[0] == ItemOf(keys[0], c)
  {
    var d := (c - {keys[0]})[listKey := List(Joined(keys[1..]))];
    assert Items(keys, c)[1..] == Items(keys[1..], c);
    hide Joined, Items;
    assert forall i :: 0 <= i < |keys[1..]| ==> ItemOf(keys[1..][i], d) == ItemOf(keys[1..][i], c);
    ItemsSame(keys[1..], c, d);
  }

  // The client.

  class StreamLayerClient {
    const hasCache: bool
    const listKey: string
    const maximumRequests: Option<nat>
    const eventsPerSingleFlush: Option<int>
    var cache: map<string, Cached>
    ghost var keys: seq<string>

    ghost predicate Valid()
      reads this
    {
      && Consistent(cache, listKey, keys)
      && (maximumRequests.Some? ==> |Contents()| <= maximumRequests.value)
    }

    /** The abstract queue. */
    ghost function Contents(): seq<Option<PublishRequest>>
      reads this
    {
      Items(keys, cache)
    }

    /** A key as a new random identifier is. */
    ghost predicate Fresh(key: string)
      reads this
    {
      FreshKey(cache, listKey, keys, key)
    }

    constructor (cached: bool, key: string, maximum: Option<nat>, perFlush: Option<int>)
      ensures Valid() && Contents() == [] && cache == map[]
      ensures hasCache == cached && listKey == key && maximumRequests == maximum && eventsPerSingleFlush == perFlush
    {
      hasCache, listKey, maximumRequests, eventsPerSingleFlush := cached, key, maximum, perFlush;
      cache, keys := map[], [];
    }

    /** The number of commas in the list is the length of the queue. */
    method QueueSize() returns (n: nat)
      requires Valid()
      ensures n == |Contents()|
    {
      ItemsLength(keys, cache);
      n := 0;
      if listKey in cache {
        CountKeys(keys);
        n := Commas(cache[listKey].text);
      }
    }

    /** The request goes to the end of the queue, unless it or the queue is not fit for that. */
    method Queue(request: PublishRequest, uuid: string) returns (error: Option<string>)
      requires Valid() && Fresh(uuid)
      modifies this
      ensures Valid()
      ensures error == None <==> hasCache && Publishable(request) &&
                                 (maximumRequests.Some? ==> |old(Contents())| < maximumRequests.value)
      ensures error != None ==> Contents() == old(Contents()) && cache == old(cache)
      ensures error == None ==> Contents() == old(Contents()) + [Some(request)]
      ensures error == None ==> cache - {listKey} == old(cache)[uuid := Entry(request)] - {listKey}
    {
      hide Items, Joined, Consistent;
      if !hasCache {
        return Some("No cache provided to StreamLayerClient");
      }
      if !request.hasData {
        return Some("PublishDataRequest does not contain any Data");
      }
      if request.layerId == "" {
        return Some("PublishDataRequest does not contain a Layer ID");
      }
      if maximumRequests.Some? {
        var size := QueueSize();
        if !(size < maximumRequests.value) {
          return Some("Maximum number of requests has reached");
        }
      }
      QueueKeeps(cache, listKey, keys, uuid, request);
      ListIsText(cache, listKey, keys);
      var list := if listKey in cache then cache[listKey].text else "";
      cache := cache[uuid := Entry(request)];
      cache := cache[listKey := List(list + (uuid + ","))];
      keys := keys + [uuid];
      return None;
    }

    /** The oldest request, which may be missing; its key leaves the list in any case. */
    method PopFromQueue() returns (r: Option<PublishRequest>)
      requires Valid()
      modifies this
      ensures Valid()
      ensures old(Contents()) == [] ==> r == None && Contents() == []
      ensures old(Contents()) != [] ==> r == old(Contents())[0] && Contents() == old(Contents())[1..]
      ensures old(keys) != [] ==> cache - {listKey} == old(cache) - {listKey, old(keys)[0]}
      ensures forall key :: old(Fresh(key)) ==> Fresh(key)
      ensures r.Some? ==> Publishable(r.value)
    {
      ItemsLength(keys, cache);
      hide Items, Joined;
      if listKey !in cache {
        return None;
      }
      var list := cache[listKey].text;
      var pos := FirstComma(list);
      FindKey(keys);
      if pos == |list| {
        return None;
      }
      PopKeeps(cache, listKey, keys);
      var key := list[..pos];
      r := ItemOf(key, cache);
      cache := cache - {key};
      cache := cache[listKey := List(list[pos + 1..])];
      keys := keys[1..];
    }

    /**
     Publishes queued requests until the queue is empty, the limit is reached, or it is cancelled.
     `cancelledBefore(i)` and `cancelledAfter(i)` say whether the flush is cancelled before and after the i-th
     publication; `uuid` is the new identifier for a request that goes back into the queue.
     It takes a prefix off the queue, and in each round the queue gets shorter, whether a request is missing or not.
     Cancelled, it puts the request in hand back: the request is in the queue again, at its end.
     */
    method Flush(cancelledBefore: nat -> bool, cancelledAfter: nat -> bool, uuid: string)
      returns (published: seq<PublishRequest>, requeued: Option<PublishRequest>,
               ghost taken: seq<Option<PublishRequest>>)
      requires Valid() && hasCache && Fresh(uuid)
      requires forall i :: cancelledBefore(i) ==> cancelledAfter(i)
      modifies this
      ensures Valid()
      ensures eventsPerSingleFlush.Some? ==>
                |published| <= if eventsPerSingleFlush.value <= 0 then 0 else eventsPerSingleFlush.value
      ensures requeued == None ==>
                && old(Contents()) == taken + Contents() && published == Present(taken)
                && (forall i :: 0 <= i < |published| ==> !cancelledAfter(i))
                && (Contents() == [] || (eventsPerSingleFlush.Some? && |published| >= eventsPerSingleFlush.value))
      ensures requeued.Some? ==>
                && |taken| < |old(Contents())| && taken == old(Contents())[..|taken|]
                && old(Contents())[|taken|] == requeued
                && Contents() == old(Contents())[|taken| + 1..] + [requeued]
                && cancelledAfter(|Present(taken)|)
                && published == Present(taken) + if cancelledBefore(|Present(taken)|) then [] else [requeued.value]
    {
      hide Items, Consistent, FreshKey, Present;
      published, requeued, taken := [], None, [];
      PresentNothing();
      if eventsPerSingleFlush.Some? && eventsPerSingleFlush.value <= 0 {
        return;
      }
      var counter := 0;
      var size := QueueSize();
      while (if eventsPerSingleFlush.Some? then counter < eventsPerSingleFlush.value else true) && size > 0
        invariant Valid() && Fresh(uuid) && size == |Contents()|
        invariant old(Contents()) == taken + Contents()
        invariant published == Present(taken) && counter == |published|
        invariant eventsPerSingleFlush.Some? ==> counter <= eventsPerSingleFlush.value
        invariant forall i :: 0 <= i < counter ==> !cancelledAfter(i)
        decreases size
      {
        ghost var before := Contents();
        var request := PopFromQueue();
        PresentAppend(taken, request);
        TakeOne(old(Contents()), taken, before);
        if request.None? {
          taken := taken + [request];
          size := QueueSize();
          continue;
        }
        if !cancelledBefore(counter) {
          published := published + [request.value];
        }
        if cancelledAfter(counter) {
          requeued := request;
          var error := Queue(request.value, uuid);
          return;
        }
        taken := taken + [request];
        counter := counter + 1;
        size := QueueSize();
      }
    }
  }

  lemma TakeOne(whole: seq<Option<PublishRequest>>, taken: seq<Option<PublishRequest>>,
                rest: seq<Option<PublishRequest>>)
    requires whole == taken + rest && rest != []
    ensures taken == whole[..|taken|] && whole[|taken|] == rest[0] && whole[|taken| + 1..] == rest[1..]
    ensures whole == (taken + [rest[0]]) + rest[1..]
  {
  }

  lemma PresentNothing()
    ensures Present([]) == []
  {
  }

  lemma ListIsText(cache: map<string, Cached>, listKey: string, keys: seq<string>)
    requires Consistent(cache, listKey, keys)
    ensures listKey in cache ==> cache[listKey].List?
  {
  }

  /** Looking for the first comma finds the first key, if there is one. */
  lemma FindKey(keys: seq<string>)
    requires AllCommaFree(keys)
    ensures var s := Joined(keys); var k := FirstComma(s);
            && (k == |s| <==> keys == [])
            && (keys != [] ==> s[..k] == keys[0] && s[k + 1..] == Joined(keys[1..]))
  {
    if keys != [] {
      SplitFirst(keys);
    }
  }
}
