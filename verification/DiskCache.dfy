/** The disk tier: a key-value database whose iterator visits the keys in lexicographic order. */
module DiskCache {
  import opened Wrappers
  import opened LruCache
  import opened InMemoryCache

  /** The order of the database: byte by byte, a proper prefix before its extensions. */
  predicate Less(a: string, b: string) {
    b != "" && (a == "" || (if a[0] != b[0] then a[0] < b[0] else Less(a[1..], b[1..])))
  }

  /** What an iterator visits: every key once, in order. */
  ghost predicate IsIteration(order: seq<string>, db: map<string, string>) {
    && (forall i, j :: 0 <= i < j < |order| ==> Less(order[i], order[j]))
    && (forall k :: k in db <==> k in order)
  }

  function KeepWithoutPrefix(db: map<string, string>, prefix: string): map<string, string> {
    map k | k in db && !StartsWith(k, prefix) :: db[k]
  }

  // Keys with a prefix are next to each other.

  lemma StartsWithTail(key: string, prefix: string)
    requires prefix != ""
    ensures StartsWith(key, prefix) <==> key != "" && key[0] == prefix[0] && StartsWith(key[1..], prefix[1..])
  {
    var n := |prefix|;
    assert prefix == [prefix[0]] + prefix[1..];
    if n <= |key| {
      assert key[..n] == [key[0]] + key[1..][..n - 1];
    }
  }

  lemma {:induction false} PrefixNotBefore(key: string, prefix: string)
    requires StartsWith(key, prefix)
    ensures !Less(key, prefix)
    decreases |prefix|
  {
    if prefix != "" {
      StartsWithTail(key, prefix);
      PrefixNotBefore(key[1..], prefix[1..]);
    }
  }

  /** Behind a key that is not before the prefix and does not have it, no key has it. */
  lemma {:induction false} PrefixRunEnds(a: string, b: string, prefix: string)
    requires !Less(a, prefix) && !StartsWith(a, prefix) && Less(a, b)
    ensures !StartsWith(b, prefix)
    decreases |prefix|
  {
    StartsWithTail(a, prefix);
    StartsWithTail(b, prefix);
    if a[0] == b[0] == prefix[0] {
      PrefixRunEnds(a[1..], b[1..], prefix[1..]);
    }
  }

  class Disk {
    var db: map<string, string>

    constructor ()
      ensures db == map[]
    {
      db := map[];
    }

    /** `fits` says whether the size limit and the database let the write through. */
    method Put(key: string, value: string, fits: bool) returns (ok: bool)
      modifies this
      ensures ok == fits && db == if fits then old(db)[key := value] else old(db)
    {
      if !fits {
        return false;
      }
      db := db[key := value];
      return true;
    }

    method Get(key: string) returns (r: Option<string>)
      ensures r == if key in db then Some(db[key]) else None
    {
      r := if key in db then Some(db[key]) else None;
    }

    method Remove(key: string, works: bool) returns (ok: bool)
      modifies this
      ensures ok == works && db == if works then old(db) - {key} else old(db)
    {
      if !works {
        return false;
      }
      db := db - {key};
      return true;
    }

    /** Seeks the first key that is not before the prefix and deletes from there while keys have the prefix. */
    method RemoveKeysWithPrefix(prefix: string, order: seq<string>, works: bool) returns (ok: bool)
      requires IsIteration(order, db)
      modifies this
      ensures ok == works && db == if works then KeepWithoutPrefix(old(db), prefix) else old(db)
    {
      var batch := BatchFor(order, prefix);
      if !works {
        return false;
      }
      db := db - batch;
      assert db == KeepWithoutPrefix(old(db), prefix);
      return true;
    }
  }

  /** The keys that the scan puts into the delete batch: exactly those with the prefix. */
  method BatchFor(order: seq<string>, prefix: string) returns (batch: set<string>)
    requires forall i, j :: 0 <= i < j < |order| ==> Less(order[i], order[j])
    ensures forall k :: k in batch <==> k in order && StartsWith(k, prefix)
  {
    batch := {};
    if prefix == "" {
      batch := set k | k in order;
      return;
    }
    var start := 0;
    while start < |order| && Less(order[start], prefix)
      invariant start <= |order|
      invariant forall i :: 0 <= i < start ==> Less(order[i], prefix)
    {
      start := start + 1;
    }
    var i := start;
    while i < |order| && StartsWith(order[i], prefix)
      invariant start <= i <= |order|
      invariant forall j :: start <= j < i ==> StartsWith(order[j], prefix)
      invariant batch == set j | start <= j < i :: order[j]
    {
      batch := batch + {order[i]};
      i := i + 1;
    }
    Contiguous(order, prefix, start, i);
  }

  /** In sorted order the keys with the prefix are those from the seek position to the first without it. */
  lemma Contiguous(order: seq<string>, prefix: string, start: nat, end: nat)
    requires start <= end <= |order|
    requires forall i, j :: 0 <= i < j < |order| ==> Less(order[i], order[j])
    requires forall i :: 0 <= i < start ==> Less(order[i], prefix)
    requires start < |order| ==> !Less(order[start], prefix)
    requires forall i :: start <= i < end ==> StartsWith(order[i], prefix)
    requires end < |order| ==> !StartsWith(order[end], prefix)
    ensures forall i :: 0 <= i < |order| ==> (StartsWith(order[i], prefix) <==> start <= i < end)
  {
    forall i | 0 <= i < |order|
      ensures StartsWith(order[i], prefix) <==> start <= i < end
    {
      if i < start && StartsWith(order[i], prefix) {
        PrefixNotBefore(order[i], prefix);
      } else if end < i {
        NotBeforeLater(order, prefix, start, end);
        PrefixRunEnds(order[end], order[i], prefix);
      }
    }
  }

  lemma NotBeforeLater(order: seq<string>, prefix: string, start: nat, end: nat)
    requires start <= end < |order|
    requires forall i, j :: 0 <= i < j < |order| ==> Less(order[i], order[j])
    requires !Less(order[start], prefix)
    ensures !Less(order[end], prefix)
  {
    if start < end && Less(order[end], prefix) {
      LessTransitive(order[start], order[end], prefix);
    }
  }

  lemma {:induction false} LessTransitive(a: string, b: string, c: string)
    requires Less(a, b) && Less(b, c)
    ensures Less(a, c)
    decreases |a|
  {
    if a != "" && a[0] == b[0] && b[0] == c[0] {
      LessTransitive(a[1..], b[1..], c[1..]);
    }
  }

  lemma {:induction false} HasWithoutPrefix<V>(items: seq<Item<V>>, prefix: string, k: string)
    ensures Has(WithoutPrefix(items, prefix), k) <==> Has(items, k) && !StartsWith(k, prefix)
  {
    if items != [] {
      HasWithoutPrefix(items[1..], prefix, k);
      var rest := WithoutPrefix(items[1..], prefix);
      assert ([items[0]] + rest)[1..] == rest && [] + rest == rest;
    }
  }

  /** Both tiers keep exactly the keys without the prefix that they had, so tiers that agree on a key still do. */
  lemma TiersAgree<V>(items: seq<Item<V>>, db: map<string, string>, prefix: string, k: string)
    ensures Has(WithoutPrefix(items, prefix), k) <==> Has(items, k) && !StartsWith(k, prefix)
    ensures k in KeepWithoutPrefix(db, prefix) <==> k in db && !StartsWith(k, prefix)
    ensures (Has(items, k) <==> k in db) ==>
              (Has(WithoutPrefix(items, prefix), k) <==> k in KeepWithoutPrefix(db, prefix))
  {
    HasWithoutPrefix(items, prefix, k);
  }
}
