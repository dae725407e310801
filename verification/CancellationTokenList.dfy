/** The list of cancellable tasks, kept sorted by id so that ids are found by binary search. */
module CancellationTokenList {

  datatype Task<T> = Task(id: int, token: T)

  ghost predicate Sorted<T>(list: seq<Task<T>>) {
    forall i, j :: 0 <= i < j < |list| ==> list[i].id <= list[j].id
  }

  ghost predicate DistinctIds<T>(list: seq<Task<T>>) {
    forall i, j :: 0 <= i < j < |list| ==> list[i].id != list[j].id
  }

  function Ids<T>(list: seq<Task<T>>): (ids: seq<int>)
    ensures |ids| == |list| && forall i :: 0 <= i < |list| ==> ids[i] == list[i].id
  {
    seq(|list|, i requires 0 <= i < |list| => list[i].id)
  }

  /** The first task of that id, or the length of the list. */
  function First<T>(list: seq<Task<T>>, id: int): (k: nat)
    ensures k <= |list| && (k < |list| ==> list[k].id == id)
    ensures forall i :: 0 <= i < k ==> list[i].id != id
  {
    if list == [] || list[0].id == id then 0 else 1 + First(list[1..], id)
  }

  /** The entries `CancelAll` cancels, by their places, in order: for each entry the one found under its id. */
  function CancelLog<T>(list: seq<Task<T>>, n: nat): (log: seq<nat>)
    requires n <= |list|
    ensures |log| == n && forall i :: 0 <= i < n ==> log[i] < |list| && log[i] == First(list, list[i].id)
  {
    if n == 0 then [] else CancelLog(list, n - 1) + [First(list, list[n - 1].id)]
  }

  function TokensAt<T>(list: seq<Task<T>>, places: seq<nat>): (tokens: seq<T>)
    requires forall i :: 0 <= i < |places| ==> places[i] < |list|
    ensures |tokens| == |places|
  {
    seq(|places|, i requires 0 <= i < |places| => list[places[i]].token)
  }

  /** The tokens of the first `n` cancelled entries. */
  function Cancelled<T>(list: seq<Task<T>>, n: nat): seq<T>
    requires n <= |list|
  {
    TokensAt(list, CancelLog(list, n))
  }

  /** `std::lower_bound` for the sorted list. */
  method LowerBound<T>(list: seq<Task<T>>, id: int) returns (k: nat)
    requires Sorted(list)
    ensures k <= |list|
    ensures forall i :: 0 <= i < k ==> list[i].id < id
    ensures forall i :: k <= i < |list| ==> id <= list[i].id
  {
    k := 0;
    var hi := |list|;
    while k < hi
      invariant k <= hi <= |list|
      invariant forall i :: 0 <= i < k ==> list[i].id < id
      invariant forall i :: hi <= i < |list| ==> id <= list[i].id
    {
      var mid := (k + hi) / 2;
      if list[mid].id < id {
        k := mid + 1;
      } else {
        hi := mid;
      }
    }
  }

  /** `std::upper_bound` for the sorted list. */
  method UpperBound<T>(list: seq<Task<T>>, id: int) returns (k: nat)
    requires Sorted(list)
    ensures k <= |list|
    ensures forall i :: 0 <= i < k ==> list[i].id <= id
    ensures forall i :: k <= i < |list| ==> id < list[i].id
  {
    k := 0;
    var hi := |list|;
    while k < hi
      invariant k <= hi <= |list|
      invariant forall i :: 0 <= i < k ==> list[i].id <= id
      invariant forall i :: hi <= i < |list| ==> id < list[i].id
    {
      var mid := (k + hi) / 2;
      if id < list[mid].id {
        hi := mid;
      } else {
        k := mid + 1;
      }
    }
  }

  /** In a sorted list the binary search finds the first task of an id exactly when there is one. */
  method FindTask<T>(list: seq<Task<T>>, id: int) returns (k: nat, found: bool)
    requires Sorted(list)
    ensures found <==> id in Ids(list)
    ensures found ==> k < |list| && k == First(list, id)
  {
    k := LowerBound(list, id);
    found := k < |list| && list[k].id == id;
    if found {
      assert Ids(list)[k] == id;
    }
  }

  /** Stable insertion by id. */
  function Inserted<T>(list: seq<Task<T>>, t: Task<T>): seq<Task<T>> {
    if list == [] || t.id < list[0].id then [t] + list else [list[0]] + Inserted(list[1..], t)
  }

  lemma {:induction false} InsertedAt<T>(list: seq<Task<T>>, t: Task<T>, k: nat)
    requires k <= |list| && (k < |list| ==> t.id < list[k].id)
    requires forall i :: 0 <= i < k ==> list[i].id <= t.id
    ensures Inserted(list, t) == list[..k] + [t] + list[k..]
  {
    if k > 0 {
      InsertedAt(list[1..], t, k - 1);
      assert list[1..][..k - 1] == list[1..k] && list[1..][k - 1..] == list[k..];
      assert list[..k] == [list[0]] + list[1..k];
    }
  }

  ghost predicate SplicedAt<T>(r: seq<Task<T>>, list: seq<Task<T>>, t: Task<T>, k: nat) {
    && k <= |list| && |r| == |list| + 1 && r[k] == t
    && (forall i :: 0 <= i < k ==> r[i] == list[i])
    && (forall i :: k < i < |r| ==> r[i] == list[i - 1])
  }

  lemma InsertedSpliced<T>(list: seq<Task<T>>, t: Task<T>, k: nat)
    requires k <= |list| && (k < |list| ==> t.id < list[k].id)
    requires forall i :: 0 <= i < k ==> list[i].id <= t.id
    ensures Inserted(list, t) == list[..k] + [t] + list[k..] && SplicedAt(Inserted(list, t), list, t, k)
  {
    InsertedAt(list, t, k);
    hide Inserted;
  }

  /** Insertion keeps the list sorted. */
  lemma InsertedSorted<T>(r: seq<Task<T>>, list: seq<Task<T>>, t: Task<T>, k: nat)
    requires SplicedAt(r, list, t, k) && Sorted(list)
    requires forall i :: 0 <= i < k ==> list[i].id <= t.id
    requires forall i :: k <= i < |list| ==> t.id < list[i].id
    ensures Sorted(r)
  {
    forall i, j | 0 <= i < j < |r|
      ensures r[i].id <= r[j].id
    {
      var a, b := if i < k then i else i - 1, if j < k then j else j - 1;
      assert (i == k || r[i] == list[a]) && (j == k || r[j] == list[b]);
    }
  }

  /** And ids distinct if the new one is. */
  lemma InsertedDistinct<T>(r: seq<Task<T>>, list: seq<Task<T>>, t: Task<T>, k: nat)
    requires SplicedAt(r, list, t, k) && DistinctIds(list) && t.id !in Ids(list)
    ensures DistinctIds(r)
  {
    assert forall i :: 0 <= i < |list| ==> list[i].id != t.id by {
      assert forall i :: 0 <= i < |list| ==> Ids(list)[i] in Ids(list);
    }
    forall i, j | 0 <= i < j < |r|
      ensures r[i].id != r[j].id
    {
      var a, b := if i < k then i else i - 1, if j < k then j else j - 1;
      assert (i == k || r[i] == list[a]) && (j == k || r[j] == list[b]);
    }
  }

  class TokenList<T> {
    var tokenList: seq<Task<T>>

    ghost predicate Valid()
      reads this
    {
      Sorted(tokenList)
    }

    constructor ()
      ensures Valid() && tokenList == []
    {
      tokenList := [];
    }

    /** The new entry goes behind all entries of its id and smaller ones, and before all others. */
    method AddTask(id: int, token: T)
      requires Valid()
      modifies this
      ensures Valid()
      ensures tokenList == Inserted(old(tokenList), Task(id, token))
      ensures old(DistinctIds(tokenList)) && id !in Ids(old(tokenList)) ==> DistinctIds(tokenList)
    {
      var k := UpperBound(tokenList, id);
      var task := Task(id, token);
      InsertedSpliced(tokenList, task, k);
      InsertedSorted(Inserted(tokenList, task), tokenList, task, k);
      if id !in Ids(tokenList) && DistinctIds(tokenList) {
        InsertedDistinct(Inserted(tokenList, task), tokenList, task, k);
      }
      tokenList := tokenList[..k] + [task] + tokenList[k..];
    }

    /** Removes the first task of the id, if there is one, and keeps the order of the rest. */
    method RemoveTask(id: int)
      requires Valid()
      modifies this
      ensures Valid()
      ensures id !in Ids(old(tokenList)) ==> tokenList == old(tokenList)
      ensures id in Ids(old(tokenList)) ==>
                var k := First(old(tokenList), id);
                k < |old(tokenList)| && tokenList == old(tokenList)[..k] + old(tokenList)[k + 1..]
    {
      var k, found := FindTask(tokenList, id);
      if !found {
        return;
      }
      var rotated := tokenList[..k] + (tokenList[k + 1..] + [tokenList[k]]);
      var rest := rotated[..|rotated| - 1];
      assert rest == tokenList[..k] + tokenList[k + 1..];
      tokenList := rest;
    }

    /** Cancels what it finds under each id, then removes those entries, until none is left. */
    method CancelAll() returns (cancelled: seq<T>)
      requires Valid()
      modifies this
      ensures tokenList == []
      ensures cancelled == Cancelled(old(tokenList), |old(tokenList)|)
    {
      hide Cancelled, First;
      NoneCancelled(tokenList);
      cancelled := [];
      while true
        invariant Valid()
        invariant || (tokenList == old(tokenList) && cancelled == [])
                  || (tokenList == [] && cancelled == Cancelled(old(tokenList), |old(tokenList)|))
        decreases |tokenList|
      {
        var idList := Ids(tokenList);
        if idList == [] {
          return;
        }
        var log := CancelListed(tokenList, idList);
        cancelled := cancelled + log;
        tokenList := RemoveListed(tokenList, idList);
      }
    }
  }

  lemma NoneCancelled<T>(list: seq<Task<T>>)
    ensures Cancelled(list, 0) == []
  {
  }

  /** One pass over the ids: cancels the token found under each. */
  method CancelListed<T>(list: seq<Task<T>>, idList: seq<int>) returns (cancelled: seq<T>)
    requires Sorted(list) && idList == Ids(list)
    ensures cancelled == Cancelled(list, |list|)
  {
    hide Sorted, First;
    cancelled := [];
    for i := 0 to |idList|
      invariant cancelled == Cancelled(list, i)
    {
      var k, found := FindTask(list, idList[i]);
      assert found && idList[i] == list[i].id;
      if found {
        cancelled := cancelled + [list[k].token];
      }
    }
  }

  /** `std::remove_if` of the entries whose id is listed. */
  method RemoveListed<T>(list: seq<Task<T>>, idList: seq<int>) returns (kept: seq<Task<T>>)
    ensures (forall i :: 0 <= i < |list| ==> list[i].id in idList) ==> kept == []
    ensures forall t :: t in kept <==> t in list && t.id !in idList
  {
    kept := [];
    for i := 0 to |list|
      invariant (forall j :: 0 <= j < i ==> list[j].id in idList) ==> kept == []
      invariant forall t :: t in kept <==> t in list[..i] && t.id !in idList
    {
      if list[i].id !in idList {
        kept := kept + [list[i]];
      }
    }
  }

  // What is cancelled.

  /** How often the place is in the log. */
  function Times(log: seq<nat>, k: nat): nat {
    if log == [] then 0 else Times(log[..|log| - 1], k) + (if log[|log| - 1] == k then 1 else 0)
  }

  lemma {:induction false} NotThere(log: seq<nat>, k: nat)
    requires forall i :: 0 <= i < |log| ==> log[i] != k
    ensures Times(log, k) == 0
    decreases |log|
  {
    if log != [] {
      NotThere(log[..|log| - 1], k);
    }
  }

  /** The places 0 to n - 1, each once. */
  lemma {:induction false} EachPlaceOnce(places: seq<nat>, k: nat)
    requires forall i :: 0 <= i < |places| ==> places[i] == i
    ensures Times(places, k) == if k < |places| then 1 else 0
    decreases |places|
  {
    var n := |places|;
    if n > 0 {
      EachPlaceOnce(places[..n - 1], k);
    }
  }

  /** `CancelAll` cancels every entry exactly once if and only if no two entries share an id. */
  lemma EachCancelledOnce<T>(list: seq<Task<T>>)
    ensures (forall k: nat :: k < |list| ==> Times(CancelLog(list, |list|), k) == 1) <==> DistinctIds(list)
  {
    hide First, CancelLog, Times;
    if DistinctIds(list) {
      LogInOrder(list);
      forall k: nat | k < |list|
        ensures Times(CancelLog(list, |list|), k) == 1
      {
        EachPlaceOnce(CancelLog(list, |list|), k);
      }
    } else {
      var i: nat, j: nat :| i < j < |list| && list[i].id == list[j].id;
      NeverCancelled(list, i, j);
    }
  }

  /** An entry behind another of its id is not cancelled at all. */
  lemma NeverCancelled<T>(list: seq<Task<T>>, i: nat, j: nat)
    requires i < j < |list| && list[i].id == list[j].id
    ensures Times(CancelLog(list, |list|), j) == 0
  {
    NotThere(CancelLog(list, |list|), j);
  }

  /** With distinct ids that is in the order of the list. */
  lemma LogInOrder<T>(list: seq<Task<T>>)
    requires DistinctIds(list)
    ensures forall i :: 0 <= i < |list| ==> CancelLog(list, |list|)[i] == i
    ensures Cancelled(list, |list|) == TokensAt(list, seq(|list|, i => i))
  {
    var log := CancelLog(list, |list|);
    forall i | 0 <= i < |list|
      ensures log[i] == i
    {
      assert list[log[i]].id == list[i].id;
    }
    assert log == seq(|list|, i => i);
  }

  /** Entries that share an id: the first is cancelled twice, the second not at all. */
  lemma SharedIdExample<T>(id: int, a: T, b: T)
    ensures var list := [Task(id, a), Task(id, b)]; Sorted(list) && Cancelled(list, 2) == [a, a]
  {
    var list := [Task(id, a), Task(id, b)];
    assert First(list, id) == 0;
  }
}
