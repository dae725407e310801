/**
 The least-recently-used cache under the memory tier: a map of buckets that are chained, in order of use, by
 iterators into the map itself, and a running sum of their costs.

 An iterator is the key it stands at, the end iterator is `None`. The specification is a list of items, the most
 recently used first; every operation on the chain is proved to be the operation on the list.
 */
module LruCache {
  import opened Wrappers

  datatype Item<V> = Item(key: string, expiry: int, value: V, size: nat)

  /** The cost of an item: its size, but at least one. */
  function Cost<V>(x: Item<V>): nat {
    if x.size == 0 then 1 else x.size
  }

  function TotalCost<V>(items: seq<Item<V>>): nat {
    if items == [] then 0 else TotalCost(items[..|items| - 1]) + Cost(items[|items| - 1])
  }

  // The list.

  /** The place of the item of that key, or the length of the list. */
  function Find<V>(items: seq<Item<V>>, key: string): (k: nat)
    ensures k <= |items| && (k < |items| ==> items[k].key == key)
    ensures forall i :: 0 <= i < k ==> items[i].key != key
  {
    if items == [] || items[0].key == key then 0 else 1 + Find(items[1..], key)
  }

  predicate Has<V>(items: seq<Item<V>>, key: string) {
    Find(items, key) < |items|
  }

  function Without<T>(s: seq<T>, i: nat): seq<T>
    requires i < |s|
  {
    s[..i] + s[i + 1..]
  }

  function Erased<V>(items: seq<Item<V>>, key: string): seq<Item<V>> {
    if Has(items, key) then Without(items, Find(items, key)) else items
  }

  function Promoted<V>(items: seq<Item<V>>, i: nat): seq<Item<V>>
    requires i < |items|
  {
    [items[i]] + Without(items, i)
  }

  /** What is left when the last items go until the cost fits. */
  function Front<V>(items: seq<Item<V>>, maxSize: nat): seq<Item<V>> {
    if items == [] || TotalCost(items) <= maxSize then items else Front(items[..|items| - 1], maxSize)
  }

  /** The items that go, in the order in which they go. */
  function Popped<V>(items: seq<Item<V>>, maxSize: nat): seq<Item<V>> {
    if items == [] || TotalCost(items) <= maxSize then []
    else [items[|items| - 1]] + Popped(items[..|items| - 1], maxSize)
  }

  predicate Inserts<V>(items: seq<Item<V>>, maxSize: nat, x: Item<V>) {
    !Has(items, x.key) && Cost(x) <= maxSize
  }

  /** The list with the item in front, before eviction; an item that cannot fit is not inserted. */
  function WithItem<V>(items: seq<Item<V>>, maxSize: nat, x: Item<V>): seq<Item<V>> {
    if Has(items, x.key) then [x] + Without(items, Find(items, x.key))
    else if Cost(x) > maxSize then items
    else [x] + items
  }

  lemma HasItem<V>(items: seq<Item<V>>, y: Item<V>)
    requires y in items
    ensures Has(items, y.key)
  {
    var i :| 0 <= i < |items| && items[i] == y;
    assert Find(items, y.key) <= i;
  }

  lemma NothingLeft<V>()
    ensures TotalCost<V>([]) == 0
  {
  }

  lemma {:induction false} CostInFront<V>(x: Item<V>, items: seq<Item<V>>)
    ensures TotalCost([x] + items) == Cost(x) + TotalCost(items)
    decreases |items|
  {
    var s := [x] + items;
    if items == [] {
      assert s[..0] == [];
    } else {
      var n := |items|;
      assert s[..n] == [x] + items[..n - 1];
      CostInFront(x, items[..n - 1]);
    }
  }

  lemma {:induction false} CostWithout<V>(items: seq<Item<V>>, i: nat)
    requires i < |items|
    ensures TotalCost(items) == TotalCost(Without(items, i)) + Cost(items[i])
    decreases |items|
  {
    var n := |items|;
    if i == n - 1 {
      assert Without(items, i) == items[..n - 1];
    } else {
      var w := Without(items, i);
      CostWithout(items[..n - 1], i);
      assert w[..n - 2] == Without(items[..n - 1], i);
    }
  }

  // The chain.

  datatype Link<V> = Link(next: Option<string>, previous: Option<string>, value: Item<V>)

  type Links<V> = map<string, Link<V>>

  function KeyAt(order: seq<string>, i: int): Option<string> {
    if 0 <= i < |order| then Some(order[i]) else None
  }

  ghost predicate LinkedAt<V>(links: Links<V>, order: seq<string>, i: nat)
    requires i < |order|
  {
    && order[i] in links && links[order[i]].value.key == order[i]
    && links[order[i]].previous == KeyAt(order, i - 1) && links[order[i]].next == KeyAt(order, i + 1)
  }

  ghost predicate DistinctOrder(order: seq<string>) {
    forall i, j :: 0 <= i < j < |order| ==> order[i] != order[j]
  }

  /** The buckets are chained in that order, forwards and backwards, and there are no others. */
  ghost predicate Linked<V>(links: Links<V>, first: Option<string>, last: Option<string>, order: seq<string>) {
    && DistinctOrder(order)
    && (forall k :: k in links ==> k in order)
    && AllLinked(links, order)
    && first == KeyAt(order, 0) && last == KeyAt(order, |order| - 1)
  }

  ghost predicate AllIn<V>(links: Links<V>, order: seq<string>) {
    forall i :: 0 <= i < |order| ==> order[i] in links
  }

  ghost function ItemsOf<V>(links: Links<V>, order: seq<string>): (items: seq<Item<V>>)
    ensures AllIn(links, order) ==>
              |items| == |order| && forall i :: 0 <= i < |order| ==> items[i] == links[order[i]].value
  {
    if AllIn(links, order) then seq(|order|, i requires 0 <= i < |order| => links[order[i]].value) else []
  }

  lemma SameKeyAt(order: seq<string>, m: int, k: nat)
    requires DistinctOrder(order) && k < |order|
    ensures KeyAt(order, m) == Some(order[k]) <==> m == k
  {
  }

  lemma KeyAtWithout(order: seq<string>, i: nat, j: int)
    requires i < |order|
    ensures KeyAt(Without(order, i), j) == KeyAt(order, if j < i then j else j + 1)
  {
  }

  /** The buckets without one, its neighbours linked to each other. */
  ghost function Dropped<V>(links: Links<V>, key: string): Links<V>
    requires key in links
  {
    var b := links[key];
    map k | k in links && k != key ::
      Link(if b.previous == Some(k) then b.next else links[k].next,
           if b.next == Some(k) then b.previous else links[k].previous, links[k].value)
  }

  lemma DroppedAt<V>(links: Links<V>, order: seq<string>, i: nat, j: nat)
    requires DistinctOrder(order) && i < |order| && j < |order| - 1
    requires LinkedAt(links, order, i) && LinkedAt(links, order, if j < i then j else j + 1)
    ensures LinkedAt(Dropped(links, order[i]), Without(order, i), j)
    ensures Dropped(links, order[i])[Without(order, i)[j]].value == links[order[if j < i then j else j + 1]].value
  {
    var k := if j < i then j else j + 1;
    KeyAtWithout(order, i, j - 1);
    KeyAtWithout(order, i, j + 1);
    SameKeyAt(order, i - 1, k);
    SameKeyAt(order, i + 1, k);
    assert Without(order, i)[j] == order[k] && order[k] != order[i];
    hide KeyAt, Without;
  }

  /** Dropping a bucket drops its item from the list. */
  lemma DropLinked<V>(links: Links<V>, first: Option<string>, last: Option<string>, order: seq<string>, i: nat)
    requires Linked(links, first, last, order) && i < |order|
    ensures order[i] in links && AllIn(links, order)
    ensures var b := links[order[i]]; var l := Dropped(links, order[i]);
            && Linked(l, if b.previous.None? then b.next else first, if b.next.None? then b.previous else last,
                      Without(order, i))
            && AllIn(l, Without(order, i)) && ItemsOf(l, Without(order, i)) == Without(ItemsOf(links, order), i)
  {
    hide KeyAt, LinkedAt, Without, ItemsOf;
    LinkedAll(links, first, last, order);
    var l, rest := Dropped(links, order[i]), Without(order, i);
    DropOrder(order, i);
    DropAll(links, order, i);
    DropItems(links, order, i);
    DropEnds(links, order, i);
    KeysDropped(links, order[i]);
    hide Dropped, DistinctOrder;
  }

  ghost predicate AllLinked<V>(links: Links<V>, order: seq<string>) {
    forall i: nat :: i < |order| ==> LinkedAt(links, order, i)
  }

  lemma DropAll<V>(links: Links<V>, order: seq<string>, i: nat)
    requires DistinctOrder(order) && AllLinked(links, order) && i < |order|
    ensures order[i] in links && AllLinked(Dropped(links, order[i]), Without(order, i))
  {
    assert LinkedAt(links, order, i);
    forall j: nat | j < |Without(order, i)|
      ensures LinkedAt(Dropped(links, order[i]), Without(order, i), j)
    {
      assert LinkedAt(links, order, if j < i then j else j + 1);
      DroppedAt(links, order, i, j);
    }
  }

  lemma DropItems<V>(links: Links<V>, order: seq<string>, i: nat)
    requires DistinctOrder(order) && AllIn(links, order) && i < |order|
    ensures AllIn(Dropped(links, order[i]), Without(order, i))
    ensures ItemsOf(Dropped(links, order[i]), Without(order, i)) == Without(ItemsOf(links, order), i)
  {
    var rest := Without(order, i);
    assert forall j :: 0 <= j < |rest| ==> rest[j] == order[if j < i then j else j + 1];
  }

  lemma DropEnds<V>(links: Links<V>, order: seq<string>, i: nat)
    requires i < |order| && LinkedAt(links, order, i)
    ensures var b := links[order[i]]; var rest := Without(order, i);
            && KeyAt(rest, 0) == (if b.previous.None? then b.next else KeyAt(order, 0))
            && KeyAt(rest, |rest| - 1) == (if b.next.None? then b.previous else KeyAt(order, |order| - 1))
  {
    KeyAtWithout(order, i, 0);
    KeyAtWithout(order, i, |order| - 2);
  }

  lemma KeysDropped<V>(links: Links<V>, key: string)
    requires key in links
    ensures forall k :: k in Dropped(links, key) <==> k in links && k != key
  {
  }

  lemma LinkedAll<V>(links: Links<V>, first: Option<string>, last: Option<string>, order: seq<string>)
    requires Linked(links, first, last, order)
    ensures AllIn(links, order)
  {
    forall i: nat | i < |order|
      ensures order[i] in links
    {
      assert LinkedAt(links, order, i);
    }
  }

  lemma DropOrder(order: seq<string>, i: nat)
    requires DistinctOrder(order) && i < |order|
    ensures DistinctOrder(Without(order, i))
    ensures forall k :: k in Without(order, i) <==> k in order && k != order[i]
  {
    var rest := Without(order, i);
    assert forall j :: 0 <= j < |rest| ==> rest[j] == order[if j < i then j else j + 1];
    forall k | k in order && k != order[i]
      ensures k in rest
    {
      var j :| 0 <= j < |order| && order[j] == k;
      assert rest[if j < i then j else j - 1] == k;
    }
  }

  /** The buckets with one more, linked in front of all others. */
  ghost function Pushed<V>(links: Links<V>, first: Option<string>, x: Item<V>): Links<V> {
    map k | k in links.Keys + {x.key} ::
      if k == x.key then Link(first, None, x)
      else links[k].(previous := if first == Some(k) then Some(x.key) else links[k].previous)
  }

  lemma PushedAt<V>(links: Links<V>, order: seq<string>, x: Item<V>, i: nat)
    requires DistinctOrder(order) && x.key !in order && i < |order| && LinkedAt(links, order, i)
    ensures LinkedAt(Pushed(links, KeyAt(order, 0), x), [x.key] + order, i + 1)
    ensures Pushed(links, KeyAt(order, 0), x)[order[i]].value == links[order[i]].value
  {
    SameKeyAt(order, 0, i);
    var all := [x.key] + order;
    assert all[i + 1] == order[i] && order[i] in order;
    assert KeyAt(all, i) == (if i == 0 then Some(x.key) else KeyAt(order, i - 1));
    assert KeyAt(all, i + 2) == KeyAt(order, i + 1);
  }

  lemma PushLinked<V>(links: Links<V>, first: Option<string>, last: Option<string>, order: seq<string>, x: Item<V>)
    requires Linked(links, first, last, order) && x.key !in order
    ensures var l := Pushed(links, first, x);
            && Linked(l, Some(x.key), if first.None? then Some(x.key) else last, [x.key] + order)
            && AllIn(links, order) && AllIn(l, [x.key] + order)
            && ItemsOf(l, [x.key] + order) == [x] + ItemsOf(links, order)
  {
    hide KeyAt, LinkedAt, ItemsOf;
    LinkedAll(links, first, last, order);
    PushAll(links, order, x);
    PushItems(links, first, order, x);
    PushEnds(order, x.key);
    assert forall k :: k in Pushed(links, first, x) ==> k in [x.key] + order;
    hide Pushed, DistinctOrder;
  }

  lemma PushAll<V>(links: Links<V>, order: seq<string>, x: Item<V>)
    requires DistinctOrder(order) && AllLinked(links, order) && x.key !in order
    ensures AllLinked(Pushed(links, KeyAt(order, 0), x), [x.key] + order)
  {
    var l, all := Pushed(links, KeyAt(order, 0), x), [x.key] + order;
    forall i: nat | i < |all|
      ensures LinkedAt(l, all, i)
    {
      if i > 0 {
        assert LinkedAt(links, order, i - 1);
        PushedAt(links, order, x, i - 1);
      }
    }
  }

  lemma PushItems<V>(links: Links<V>, first: Option<string>, order: seq<string>, x: Item<V>)
    requires AllIn(links, order) && x.key !in order
    ensures var l := Pushed(links, first, x);
            AllIn(l, [x.key] + order) && ItemsOf(l, [x.key] + order) == [x] + ItemsOf(links, order)
  {
    var l, all := Pushed(links, first, x), [x.key] + order;
    forall i | 0 <= i < |all|
      ensures all[i] in l && l[all[i]].value == if i == 0 then x else links[order[i - 1]].value
    {
      assert i > 0 ==> all[i] == order[i - 1] && all[i] in order;
    }
    hide Pushed;
  }

  lemma PushEnds(order: seq<string>, key: string)
    requires DistinctOrder(order) && key !in order
    ensures var all := [key] + order;
            && DistinctOrder(all) && KeyAt(all, 0) == Some(key)
            && KeyAt(all, |all| - 1) == (if KeyAt(order, 0).None? then Some(key) else KeyAt(order, |order| - 1))
  {
    var all := [key] + order;
    assert forall i :: 1 <= i < |all| ==> all[i] == order[i - 1] && all[i] in order;
  }

  lemma PlaceOfKey<V>(links: Links<V>, first: Option<string>, last: Option<string>, order: seq<string>, i: nat)
    requires Linked(links, first, last, order) && AllIn(links, order) && i < |order|
    ensures Find(ItemsOf(links, order), order[i]) == i && ItemsOf(links, order)[i] == links[order[i]].value
  {
    var items := ItemsOf(links, order);
    forall j: nat | j < |order|
      ensures items[j].key == order[j]
    {
      assert LinkedAt(links, order, j);
    }
    var k := Find(items, order[i]);
    assert k <= i && items[k].key == order[i];
  }

  lemma HasExactlyLinked<V>(links: Links<V>, first: Option<string>, last: Option<string>, order: seq<string>,
                            key: string)
    requires Linked(links, first, last, order) && AllIn(links, order)
    ensures Has(ItemsOf(links, order), key) <==> key in links
    ensures key in links <==> key in order
  {
    var items := ItemsOf(links, order);
    if key in links {
      var i :| 0 <= i < |order| && order[i] == key;
      PlaceOfKey(links, first, last, order, i);
    }
    if Has(items, key) {
      var k := Find(items, key);
      PlaceOfKey(links, first, last, order, k);
      assert LinkedAt(links, order, k);
    }
  }

  /** The place of a key in the order. */
  ghost function PlaceIn(order: seq<string>, key: string): (i: nat)
    requires key in order
    ensures i < |order| && order[i] == key
  {
    var i :| 0 <= i < |order| && order[i] == key;
    i
  }

  /** `it->setPrevious(key)`, unless the iterator is at the end. */
  function WithPrevious<V>(links: Links<V>, it: Option<string>, key: Option<string>): (l: Links<V>)
    requires it.Some? ==> it.value in links
    ensures l.Keys == links.Keys
  {
    if it.None? then links else links[it.value := links[it.value].(previous := key)]
  }

  /** `it->setNext(key)`, unless the iterator is at the end. */
  function WithNext<V>(links: Links<V>, it: Option<string>, key: Option<string>): (l: Links<V>)
    requires it.Some? ==> it.value in links
    ensures l.Keys == links.Keys
  {
    if it.None? then links else links[it.value := links[it.value].(next := key)]
  }

  ghost predicate Apart<V>(links: Links<V>, key: string) {
    key in links &&
    var b := links[key];
    && (b.next.Some? ==> b.next.value in links && b.next.value != key)
    && (b.previous.Some? ==> b.previous.value in links && b.previous.value != key)
    && (b.next.Some? && b.previous.Some? ==> b.next.value != b.previous.value)
  }

  /** Linking the neighbours of a bucket to each other and erasing it, one after the other. */
  lemma DropSteps<V>(links: Links<V>, key: string)
    requires Apart(links, key)
    ensures var b := links[key];
            WithNext(WithPrevious(links, b.next, b.previous), b.previous, b.next) - {key} == Dropped(links, key)
  {
    var b := links[key];
    var l := WithNext(WithPrevious(links, b.next, b.previous), b.previous, b.next) - {key};
    var d := Dropped(links, key);
    assert l.Keys == d.Keys;
    forall k | k in l
      ensures l[k] == d[k]
    {
    }
  }

  lemma Neighbours<V>(links: Links<V>, first: Option<string>, last: Option<string>, order: seq<string>, i: nat)
    requires Linked(links, first, last, order) && AllIn(links, order) && i < |order|
    ensures Apart(links, order[i])
    ensures links[order[i]].previous.None? <==> first == Some(order[i])
    ensures first.Some? && first.value in links
  {
    assert LinkedAt(links, order, i);
  }

  /** The chain is linked in that order, and its size the sum of the costs. */
  ghost predicate Sound<V>(links: Links<V>, first: Option<string>, last: Option<string>, size: int,
                           order: seq<string>)
  {
    Linked(links, first, last, order) && AllIn(links, order) && size == TotalCost(ItemsOf(links, order))
  }

  /** What erasing comes to. */
  lemma EraseSpec<V>(links: Links<V>, first: Option<string>, last: Option<string>, size: int, order: seq<string>,
                     key: string, i: nat)
    requires Sound(links, first, last, size, order) && i < |order| && order[i] == key
    ensures Apart(links, key)
    ensures var b := links[key];
            var l := WithNext(WithPrevious(links, b.next, b.previous), b.previous, b.next) - {key};
            && size >= Cost(b.value)
            && Sound(l, if b.previous.None? then b.next else first, if b.next.None? then b.previous else last,
                     size - Cost(b.value), Without(order, i))
            && ItemsOf(l, Without(order, i)) == Erased(ItemsOf(links, order), key)
  {
    PlaceOfKey(links, first, last, order, i);
    DropLinked(links, first, last, order, i);
    CostWithout(ItemsOf(links, order), i);
    Neighbours(links, first, last, order, i);
    DropSteps(links, key);
    hide Linked, AllIn, ItemsOf, Without, Dropped, Find, TotalCost, Apart, WithNext, WithPrevious;
  }

  class Chain<V> {
    var links: Links<V>
    var first: Option<string>
    var last: Option<string>
    var size: nat
    const maxSize: nat
    ghost var order: seq<string>

    ghost predicate Valid()
      reads this
    {
      Sound(links, first, last, size, order)
    }

    /** The items in order of use. */
    ghost function Items(): seq<Item<V>>
      reads this
    {
      ItemsOf(links, order)
    }

    constructor (max: nat)
      ensures Valid() && Items() == [] && maxSize == max
    {
      links, first, last, size, maxSize, order := map[], None, None, 0, max, [];
    }

    lemma PlaceOf(i: nat)
      requires Valid() && i < |Items()|
      ensures Has(Items(), Items()[i].key) && Find(Items(), Items()[i].key) == i && Items()[i].key in links
    {
      OrderIsKeys(links, first, last, size, order, i);
      NextInOrder(links, first, last, size, order, i);
    }

    method Begin() returns (it: Option<string>)
      requires Valid()
      ensures it == KeyIn(Items(), 0)
    {
      OrderIsKeys(links, first, last, size, order, 0);
      it := first;
    }

    /** Steps from the bucket to the next less recently used one. */
    method Next(key: string) returns (it: Option<string>)
      requires Valid() && Has(Items(), key)
      ensures it == KeyIn(Items(), Find(Items(), key) + 1)
    {
      KeysInOrder(links, first, last, size, order, key);
      ghost var i := PlaceIn(order, key);
      OrderIsKeys(links, first, last, size, order, i + 1);
      NextInOrder(links, first, last, size, order, i);
      hide Sound, ItemsOf, Find;
      it := links[key].next;
    }

    /** Unlinks the bucket and takes its cost off. */
    method EraseAt(key: string)
      requires Valid() && key in links
      modifies this
      ensures Valid() && Items() == Erased(old(Items()), key)
    {
      hide Sound, ItemsOf, Without, Erased, Cost, PlaceIn;
      KeysInOrder(links, first, last, size, order, key);
      ghost var i := PlaceIn(order, key);
      EraseSpec(links, first, last, size, order, key, i);
      var b := links[key];
      if b.next.None? {
        last := b.previous;
      } else {
        links := links[b.next.value := links[b.next.value].(previous := b.previous)];
      }
      if b.previous.None? {
        first := b.next;
      } else {
        links := links[b.previous.value := links[b.previous.value].(next := b.next)];
      }
      links := links - {key};
      size := size - Cost(b.value);
      order := Without(order, i);
    }

    method Erase(key: string) returns (erased: bool)
      requires Valid()
      modifies this
      ensures Valid() && Items() == Erased(old(Items()), key) && erased == Has(old(Items()), key)
    {
      KeysInOrder(links, first, last, size, order, key);
      hide Sound, ItemsOf, Has;
      if key !in links {
        return false;
      }
      EraseAt(key);
      return true;
    }

    /** Relinks the bucket in front of all others. */
    method Promote(key: string)
      requires Valid() && key in links
      modifies this
      ensures Valid() && Has(old(Items()), key) && size == old(size)
      ensures Items() == Promoted(old(Items()), Find(old(Items()), key))
      ensures order != [] && order[0] == key && links.Keys == old(links.Keys)
    {
      hide Sound, ItemsOf, Without, Promoted, Cost, PlaceIn, Find;
      KeysInOrder(links, first, last, size, order, key);
      ghost var i := PlaceIn(order, key);
      if first == Some(key) {
        FirstInPlace(links, first, last, size, order, key);
        return;
      }
      PromoteSpec(links, first, last, size, order, key, i);
      var b := links[key];
      links := links[b.previous.value := links[b.previous.value].(next := b.next)];
      if b.next.Some? {
        links := links[b.next.value := links[b.next.value].(previous := b.previous)];
      } else {
        last := b.previous;
      }
      links := links[key := links[key].(previous := None, next := first)];
      links := links[first.value := links[first.value].(previous := Some(key))];
      first := Some(key);
      order := [key] + Without(order, i);
    }

    /** The item of the key, which becomes the most recently used one. */
    method Lookup(key: string) returns (r: Option<Item<V>>)
      requires Valid()
      modifies this
      ensures Valid() && (r.Some? <==> Has(old(Items()), key))
      ensures r.None? ==> Items() == old(Items())
      ensures r.Some? ==> var k := Find(old(Items()), key);
                          r.value == old(Items())[k] && Items() == Promoted(old(Items()), k)
    {
      KeysInOrder(links, first, last, size, order, key);
      hide Sound, ItemsOf, Promoted, Find;
      if key !in links {
        return None;
      }
      Promote(key);
      FirstItem(links, first, last, size, order);
      r := Some(links[key].value);
    }

    /** `PopLast` while the size is too large: the least recently used items go until the cost fits. */
    method Evict() returns (evicted: seq<Item<V>>)
      requires Valid()
      modifies this
      ensures Valid()
      ensures Items() == Front(old(Items()), maxSize) && evicted == Popped(old(Items()), maxSize)
    {
      hide Sound, ItemsOf, Front, Popped, TotalCost;
      evicted := [];
      SizeIsCost(links, first, last, size, order);
      while size > maxSize
        invariant Valid() && size == TotalCost(Items())
        invariant Front(Items(), maxSize) == Front(old(Items()), maxSize)
        invariant evicted + Popped(Items(), maxSize) == Popped(old(Items()), maxSize)
        decreases |Items()|
      {
        LastItem(links, first, last, size, order);
        PopStep(Items(), maxSize);
        var x := links[last.value].value;
        EraseAt(last.value);
        evicted := evicted + [x];
        SizeIsCost(links, first, last, size, order);
      }
      NothingToPop(Items(), maxSize);
    }

    /** Links a new bucket in front of all others. */
    method Insert(x: Item<V>)
      requires Valid() && x.key !in links
      modifies this
      ensures Valid() && Items() == [x] + old(Items())
    {
      hide Sound, ItemsOf, Cost;
      KeysInOrder(links, first, last, size, order, x.key);
      PushSpec(links, first, last, size, order, x);
      EmptyChain(links, first, last, size, order);
      ghost var before := links;
      links := links[x.key := Link(None, None, x)];
      if |links| == 1 {
        assert before == map[];
        last, first := Some(x.key), Some(x.key);
      } else {
        assert |before| != 0;
        links := links[x.key := links[x.key].(next := first)];
        assert links == before[x.key := Link(first, None, x)];
        links := links[first.value := links[first.value].(previous := Some(x.key))];
        first := Some(x.key);
      }
      size := size + Cost(x);
      order := [x.key] + order;
    }

    /** Gives the bucket another value and promotes it. */
    method Assign(x: Item<V>)
      requires Valid() && x.key in links
      modifies this
      ensures Valid() && Has(old(Items()), x.key)
      ensures Items() == [x] + Without(old(Items()), Find(old(Items()), x.key))
    {
      hide Sound, ItemsOf, Promoted, Without, Find, Cost;
      AssignSpec(links, first, last, size, order, x);
      var oldCost := Cost(links[x.key].value);
      links := links[x.key := links[x.key].(value := x)];
      size := size + Cost(x) - oldCost;
      Promote(x.key);
    }

    /** Puts the item in front and evicts; an assignment is not reported, and an item that cannot fit not inserted. */
    method InsertOrAssign(x: Item<V>) returns (inserted: bool, evicted: seq<Item<V>>)
      requires Valid()
      modifies this
      ensures Valid() && inserted == Inserts(old(Items()), maxSize, x)
      ensures Has(old(Items()), x.key) || inserted ==>
                Items() == Front(WithItem(old(Items()), maxSize, x), maxSize) &&
                evicted == Popped(WithItem(old(Items()), maxSize, x), maxSize)
      ensures !Has(old(Items()), x.key) && !inserted ==> Items() == old(Items()) && evicted == []
    {
      KeysInOrder(links, first, last, size, order, x.key);
      hide Sound, ItemsOf, Front, Popped, Without, Find;
      if x.key in links {
        Assign(x);
        evicted := Evict();
        return false, evicted;
      }
      if Cost(x) > maxSize {
        return false, [];
      }
      Insert(x);
      evicted := Evict();
      return true, evicted;
    }
  }

  /** An iterator at that place of the list. */
  ghost function KeyIn<V>(items: seq<Item<V>>, i: nat): Option<string> {
    if i < |items| then Some(items[i].key) else None
  }

  lemma OrderIsKeys<V>(links: Links<V>, first: Option<string>, last: Option<string>, size: int, order: seq<string>,
                       i: nat)
    requires Sound(links, first, last, size, order)
    ensures KeyAt(order, i) == KeyIn(ItemsOf(links, order), i)
    ensures i == 0 ==> first == KeyIn(ItemsOf(links, order), 0)
  {
    assert i < |order| ==> LinkedAt(links, order, i);
  }

  lemma NextInOrder<V>(links: Links<V>, first: Option<string>, last: Option<string>, size: int, order: seq<string>,
                       i: nat)
    requires Sound(links, first, last, size, order) && i < |order|
    ensures order[i] in links && links[order[i]].next == KeyAt(order, i + 1)
    ensures Find(ItemsOf(links, order), order[i]) == i
  {
    assert LinkedAt(links, order, i);
    PlaceOfKey(links, first, last, order, i);
  }

  lemma FirstInPlace<V>(links: Links<V>, first: Option<string>, last: Option<string>, size: int, order: seq<string>,
                        key: string)
    requires Sound(links, first, last, size, order) && first == Some(key)
    ensures var items := ItemsOf(links, order);
            order != [] && order[0] == key && Find(items, key) < |items| && Promoted(items, Find(items, key)) == items
  {
    PlaceOfKey(links, first, last, order, 0);
  }

  lemma FirstItem<V>(links: Links<V>, first: Option<string>, last: Option<string>, size: int, order: seq<string>)
    requires Sound(links, first, last, size, order) && order != []
    ensures order[0] in links && ItemsOf(links, order) != [] && ItemsOf(links, order)[0] == links[order[0]].value
  {
  }

  lemma SizeIsCost<V>(links: Links<V>, first: Option<string>, last: Option<string>, size: int, order: seq<string>)
    requires Sound(links, first, last, size, order)
    ensures size == TotalCost(ItemsOf(links, order))
  {
  }

  lemma LastItem<V>(links: Links<V>, first: Option<string>, last: Option<string>, size: int, order: seq<string>)
    requires Sound(links, first, last, size, order) && size > 0
    ensures var items := ItemsOf(links, order);
            && items != [] && last.Some? && last.value in links && links[last.value].value == items[|items| - 1]
            && Erased(items, last.value) == items[..|items| - 1]
  {
    NothingLeft<V>();
    assert order != [];
    PlaceOfKey(links, first, last, order, |order| - 1);
  }

  lemma PopStep<V>(items: seq<Item<V>>, maxSize: nat)
    requires items != [] && TotalCost(items) > maxSize
    ensures Front(items, maxSize) == Front(items[..|items| - 1], maxSize)
    ensures Popped(items, maxSize) == [items[|items| - 1]] + Popped(items[..|items| - 1], maxSize)
  {
  }

  lemma NothingToPop<V>(items: seq<Item<V>>, maxSize: nat)
    requires TotalCost(items) <= maxSize
    ensures Front(items, maxSize) == items && Popped(items, maxSize) == []
  {
  }

  lemma EmptyChain<V>(links: Links<V>, first: Option<string>, last: Option<string>, size: int, order: seq<string>)
    requires Sound(links, first, last, size, order)
    ensures first.None? <==> links == map[]
    ensures first.Some? ==> first.value in links
  {
    assert order != [] ==> LinkedAt(links, order, 0);
  }

  /** Assigning another value to a bucket, with the size corrected. */
  lemma AssignSpec<V>(links: Links<V>, first: Option<string>, last: Option<string>, size: int, order: seq<string>,
                      x: Item<V>)
    requires Sound(links, first, last, size, order) && x.key in links
    ensures var l := links[x.key := links[x.key].(value := x)]; var items := ItemsOf(links, order);
            var k := Find(items, x.key);
            && size >= Cost(links[x.key].value)
            && Sound(l, first, last, size + Cost(x) - Cost(links[x.key].value), order)
            && k < |items| && ItemsOf(l, order) == items[k := x] && Find(ItemsOf(l, order), x.key) == k
            && Promoted(ItemsOf(l, order), k) == [x] + Without(items, k)
  {
    KeysInOrder(links, first, last, size, order, x.key);
    var i := PlaceIn(order, x.key);
    PlaceOfKey(links, first, last, order, i);
    var l, items := links[x.key := links[x.key].(value := x)], ItemsOf(links, order);
    AssignLinked(links, first, last, order, x, i);
    PlaceOfKey(l, first, last, order, i);
    CostWithout(items, i);
    CostWithout(items[i := x], i);
    assert Without(items[i := x], i) == Without(items, i);
  }

  lemma AssignLinked<V>(links: Links<V>, first: Option<string>, last: Option<string>, order: seq<string>, x: Item<V>,
                        i: nat)
    requires Linked(links, first, last, order) && AllIn(links, order) && i < |order| && order[i] == x.key
    ensures var l := links[x.key := links[x.key].(value := x)];
            Linked(l, first, last, order) && AllIn(l, order) && ItemsOf(l, order) == ItemsOf(links, order)[i := x]
  {
    var l := links[x.key := links[x.key].(value := x)];
    forall j: nat | j < |order|
      ensures LinkedAt(l, order, j)
    {
      assert LinkedAt(links, order, j);
    }
  }

  /** What linking in front comes to, for a bucket that is not linked yet. */
  lemma PushSpec<V>(links: Links<V>, first: Option<string>, last: Option<string>, size: int, order: seq<string>,
                    x: Item<V>)
    requires Sound(links, first, last, size, order) && x.key !in order
    ensures first.Some? ==> first.value in links && first.value != x.key
    ensures var l := WithPrevious(links[x.key := Link(first, None, x)], first, Some(x.key));
            && Sound(l, Some(x.key), if first.None? then Some(x.key) else last, size + Cost(x), [x.key] + order)
            && ItemsOf(l, [x.key] + order) == [x] + ItemsOf(links, order)
  {
    hide ItemsOf, Pushed, TotalCost, WithPrevious, AllIn, Cost;
    PushSteps(links, first, last, order, x);
    PushLinked(links, first, last, order, x);
    CostInFront(x, ItemsOf(links, order));
    hide Linked;
  }

  lemma PushSteps<V>(links: Links<V>, first: Option<string>, last: Option<string>, order: seq<string>, x: Item<V>)
    requires Linked(links, first, last, order) && x.key !in order
    ensures first.Some? ==> first.value in links && first.value != x.key
    ensures WithPrevious(links[x.key := Link(first, None, x)], first, Some(x.key)) == Pushed(links, first, x)
  {
    assert order != [] ==> LinkedAt(links, order, 0) && order[0] in order;
    hide Linked;
  }

  /** What promoting comes to: a bucket that is not the first is bypassed and linked in front. */
  lemma PromoteSpec<V>(links: Links<V>, first: Option<string>, last: Option<string>, size: int, order: seq<string>,
                       key: string, i: nat)
    requires Sound(links, first, last, size, order) && i < |order| && order[i] == key && first != Some(key)
    ensures Apart(links, key) && links[key].previous.Some? && first.Some? && first.value in links && first.value != key
    ensures var b := links[key];
            var l := WithPrevious(WithNext(links, b.previous, b.next), b.next, b.previous);
            var p := WithPrevious(l[key := Link(first, None, b.value)], first, Some(key));
            && Sound(p, Some(key), if b.next.None? then b.previous else last, size, [key] + Without(order, i))
            && Find(ItemsOf(links, order), key) < |ItemsOf(links, order)|
            && ItemsOf(p, [key] + Without(order, i)) ==
               Promoted(ItemsOf(links, order), Find(ItemsOf(links, order), key))
  {
    hide ItemsOf, TotalCost, Linked, AllIn, WithNext, WithPrevious, Cost;
    PromoteNeighbours(links, first, last, size, order, key, i);
    EraseSpec(links, first, last, size, order, key, i);
    var b := links[key];
    var d := WithNext(WithPrevious(links, b.next, b.previous), b.previous, b.next) - {key};
    WithoutKey(links, first, last, size, order, key, i);
    PushSpec(d, first, if b.next.None? then b.previous else last, size - Cost(b.value), Without(order, i), b.value);
    PromoteSteps(links, key, first);
    hide Sound, Without, Apart;
  }

  lemma PromoteNeighbours<V>(links: Links<V>, first: Option<string>, last: Option<string>, size: int,
                             order: seq<string>, key: string, i: nat)
    requires Sound(links, first, last, size, order) && i < |order| && order[i] == key && first != Some(key)
    ensures Apart(links, key) && links[key].previous.Some? && first.Some? && first.value in links && first.value != key
    ensures links[key].value.key == key
  {
    Neighbours(links, first, last, order, i);
    assert LinkedAt(links, order, i);
  }

  lemma WithoutKey<V>(links: Links<V>, first: Option<string>, last: Option<string>, size: int, order: seq<string>,
                      key: string, i: nat)
    requires Sound(links, first, last, size, order) && i < |order| && order[i] == key
    ensures key !in Without(order, i)
    ensures Find(ItemsOf(links, order), key) == i && i < |ItemsOf(links, order)|
    ensures ItemsOf(links, order)[i] == links[key].value
  {
    DropOrder(order, i);
    PlaceOfKey(links, first, last, order, i);
  }

  /** Erasing a bucket and linking it in front again is relinking it in place. */
  lemma PromoteSteps<V>(links: Links<V>, key: string, first: Option<string>)
    requires Apart(links, key) && links[key].previous.Some? && first.Some? && first.value in links && first.value != key
    ensures var b := links[key];
            var l := WithPrevious(WithNext(links, b.previous, b.next), b.next, b.previous);
            var d := WithNext(WithPrevious(links, b.next, b.previous), b.previous, b.next) - {key};
            WithPrevious(l[key := Link(first, None, b.value)], first, Some(key)) ==
            WithPrevious(d[key := Link(first, None, b.value)], first, Some(key))
  {
    var b := links[key];
    var l := WithPrevious(WithNext(links, b.previous, b.next), b.next, b.previous);
    var d := WithNext(WithPrevious(links, b.next, b.previous), b.previous, b.next) - {key};
    assert l - {key} == d;
    assert l[key := Link(first, None, b.value)] == d[key := Link(first, None, b.value)];
  }

  lemma KeysInOrder<V>(links: Links<V>, first: Option<string>, last: Option<string>, size: int, order: seq<string>,
                       key: string)
    requires Sound(links, first, last, size, order)
    ensures key in links <==> key in order
    ensures key in links <==> Has(ItemsOf(links, order), key)
  {
    HasExactlyLinked(links, first, last, order, key);
  }
}
