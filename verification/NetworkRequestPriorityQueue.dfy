/**
 The request queue: one deque per priority. It behaves like one list of requests in arrival order from which
 the earliest of the most urgent ones is taken.
 */
module NetworkRequestPriorityQueue {

  const PRIORITY_MAX: nat := 5

  type Priority = p: nat | p <= PRIORITY_MAX

  /** A request context. `uid` tells contexts apart, as their addresses do; `id` is the caller's. */
  datatype Request = Request(uid: nat, id: int, priority: Priority)

  datatype Popped = Nothing | Got(request: Request)

  // The list in arrival order.

  /** The request alone, if it passes the test. */
  function Only(r: Request, f: Request -> bool): seq<Request> {
    if f(r) then [r] else []
  }

  function Filter(q: seq<Request>, f: Request -> bool): seq<Request> {
    if q == [] then [] else Filter(q[..|q| - 1], f) + Only(q[|q| - 1], f)
  }

  function HasPriority(p: int): Request -> bool {
    (r: Request) => r.priority == p
  }

  function ByPriority(q: seq<Request>, p: int): seq<Request> {
    Filter(q, HasPriority(p))
  }

  /** The earliest of the most urgent requests. */
  function Best(q: seq<Request>): (b: nat)
    requires q != []
    ensures b < |q|
    ensures forall i :: 0 <= i < |q| ==> q[i].priority <= q[b].priority
    ensures forall i :: 0 <= i < b ==> q[i].priority < q[b].priority
  {
    var n := |q| - 1;
    if n == 0 then 0 else
      var b := Best(q[..n]);
      assert forall i :: 0 <= i < n ==> q[..n][i] == q[i];
      if q[b].priority < q[n].priority then n else b
  }

  function Without(q: seq<Request>, i: nat): seq<Request>
    requires i < |q|
  {
    q[..i] + q[i + 1..]
  }

  // Filters.

  lemma FilterAppend(q: seq<Request>, r: Request, f: Request -> bool)
    ensures Filter(q + [r], f) == Filter(q, f) + Only(r, f)
  {
    assert (q + [r])[..|q|] == q;
  }

  lemma FilterLast(q: seq<Request>, f: Request -> bool)
    requires q != []
    ensures Filter(q, f) == Filter(q[..|q| - 1], f) + Only(q[|q| - 1], f)
  {
  }

  lemma {:induction false} FilterConcat(a: seq<Request>, b: seq<Request>, f: Request -> bool)
    ensures Filter(a + b, f) == Filter(a, f) + Filter(b, f)
    decreases b
  {
    if b == [] {
      assert a + b == a;
    } else {
      var n := |b| - 1;
      assert a + b == (a + b[..n]) + [b[n]];
      FilterLast(b, f);
      hide Filter, Only;
      FilterAppend(a + b[..n], b[n], f);
      FilterConcat(a, b[..n], f);
    }
  }

  lemma FilterOne(r: Request, f: Request -> bool)
    ensures Filter([r], f) == Only(r, f)
  {
    assert [] + [r] == [r];
    FilterAppend([], r, f);
  }

  lemma {:induction false} FilterSwap(q: seq<Request>, f: Request -> bool, g: Request -> bool)
    ensures Filter(Filter(q, f), g) == Filter(Filter(q, g), f)
  {
    if q != [] {
      var a, x := q[..|q| - 1], q[|q| - 1];
      FilterSwap(a, f, g);
      FilterLast(q, f);
      FilterLast(q, g);
      OnlySwap(x, f, g);
      hide Filter, Only;
      FilterConcat(Filter(a, f), Only(x, f), g);
      FilterConcat(Filter(a, g), Only(x, g), f);
    }
  }

  lemma OnlySwap(x: Request, f: Request -> bool, g: Request -> bool)
    ensures Filter(Only(x, f), g) == Filter(Only(x, g), f)
  {
    FilterOne(x, f);
    FilterOne(x, g);
  }

  lemma {:induction false} FilterNone(q: seq<Request>, f: Request -> bool)
    requires forall i :: 0 <= i < |q| ==> !f(q[i])
    ensures Filter(q, f) == []
  {
    if q != [] {
      FilterNone(q[..|q| - 1], f);
    }
  }

  lemma SplitAt(q: seq<Request>, i: nat)
    requires i < |q|
    ensures q == q[..i] + ([q[i]] + q[i + 1..])
  {
  }

  /** Taking the best request takes the front of its priority and leaves the other priorities alone. */
  lemma TakeBest(q: seq<Request>, p: int)
    requires q != []
    ensures var b := Best(q);
            if p == q[b].priority then ByPriority(q, p) == [q[b]] + ByPriority(Without(q, b), p)
            else ByPriority(Without(q, b), p) == ByPriority(q, p)
  {
    hide Best, Filter, Only;
    var b := Best(q);
    var f := HasPriority(p);
    SplitAt(q, b);
    FilterAround(q[..b], q[b], q[b + 1..], f);
    OnlyCases(q[b], f);
    if p == q[b].priority {
      FilterNone(q[..b], f);
    }
  }

  lemma OnlyCases(x: Request, f: Request -> bool)
    ensures f(x) ==> Only(x, f) == [x]
    ensures !f(x) ==> Only(x, f) == []
  {
  }

  lemma FilterAround(a: seq<Request>, x: Request, c: seq<Request>, f: Request -> bool)
    ensures Filter(a + ([x] + c), f) == Filter(a, f) + (Only(x, f) + Filter(c, f))
    ensures Filter(a + c, f) == Filter(a, f) + Filter(c, f)
  {
    hide Filter, Only;
    FilterConcat(a, [x] + c, f);
    FilterConcat([x], c, f);
    FilterConcat(a, c, f);
    FilterOne(x, f);
  }

  lemma NoneAbove(q: seq<Request>, p: nat)
    requires q != [] && q[Best(q)].priority < p
    ensures ByPriority(q, p) == []
  {
    FilterNone(q, HasPriority(p));
  }

  // The order in which requests leave.

  function Drain(q: seq<Request>): seq<Request>
    decreases |q|
  {
    if q == [] then [] else [q[Best(q)]] + Drain(Without(q, Best(q)))
  }

  /** The requests of the priorities below `n`, the most urgent first, each priority in arrival order. */
  function Descending(q: seq<Request>, n: nat): seq<Request> {
    if n == 0 then [] else ByPriority(q, n - 1) + Descending(q, n - 1)
  }

  lemma {:induction false} DescendingTake(q: seq<Request>, n: nat)
    requires q != []
    ensures var b := Best(q);
            if q[b].priority < n then Descending(q, n) == [q[b]] + Descending(Without(q, b), n)
            else Descending(q, n) == Descending(Without(q, b), n)
    decreases n
  {
    hide ByPriority, Without;
    if n > 0 {
      TakeBest(q, n - 1);
      DescendingTake(q, n - 1);
      if q[Best(q)].priority < n - 1 {
        NoneAbove(q, n - 1);
      }
    }
  }

  lemma {:induction false} DescendingEmpty(n: nat)
    ensures Descending([], n) == []
  {
    if n > 0 {
      DescendingEmpty(n - 1);
    }
  }

  /** Popping until the queue is empty yields all requests in stable descending order of priority. */
  lemma {:induction false} DrainOrder(q: seq<Request>)
    ensures Drain(q) == Descending(q, 6)
    decreases |q|
  {
    if q == [] {
      DescendingEmpty(PRIORITY_MAX + 1);
    } else {
      DescendingTake(q, PRIORITY_MAX + 1);
      DrainOrder(Without(q, Best(q)));
    }
  }

  // The size.

  function CountBelow(q: seq<Request>, n: nat): nat {
    if n == 0 then 0 else |ByPriority(q, n - 1)| + CountBelow(q, n - 1)
  }

  lemma {:induction false} CountAppend(q: seq<Request>, r: Request, n: nat)
    ensures CountBelow(q + [r], n) == CountBelow(q, n) + if r.priority < n then 1 else 0
    decreases n
  {
    if n > 0 {
      FilterAppend(q, r, HasPriority(n - 1));
      CountAppend(q, r, n - 1);
    }
  }

  lemma {:induction false} CountNone(n: nat)
    ensures CountBelow([], n) == 0
  {
    if n > 0 {
      CountNone(n - 1);
    }
  }

  lemma {:induction false} CountAll(q: seq<Request>)
    ensures CountBelow(q, PRIORITY_MAX + 1) == |q|
  {
    if q == [] {
      CountNone(PRIORITY_MAX + 1);
    } else {
      var n := |q| - 1;
      assert q == q[..n] + [q[n]];
      CountAppend(q[..n], q[n], PRIORITY_MAX + 1);
      CountAll(q[..n]);
    }
  }

  // What RemoveIf returns.

  /** The requests of the priorities below `n`, the least urgent first, each priority in arrival order. */
  function Ascending(q: seq<Request>, n: nat): seq<Request> {
    if n == 0 then [] else Ascending(q, n - 1) + ByPriority(q, n - 1)
  }

  lemma {:induction false} FilterCount(q: seq<Request>, f: Request -> bool, x: Request)
    ensures multiset(Filter(q, f))[x] == if f(x) then multiset(q)[x] else 0
  {
    if q != [] {
      var a, last := q[..|q| - 1], q[|q| - 1];
      FilterCount(a, f, x);
      assert q == a + [last];
      FilterLast(q, f);
      OnlyCases(last, f);
      hide Filter, Only;
      assert multiset(q)[x] == multiset(a)[x] + multiset([last])[x];
      assert multiset(Filter(q, f))[x] == multiset(Filter(a, f))[x] + multiset(Only(last, f))[x];
    }
  }

  /** Nothing is lost or doubled by taking the priorities one after the other. */
  lemma {:induction false} AscendingCount(q: seq<Request>, n: nat, x: Request)
    ensures multiset(Ascending(q, n))[x] == if x.priority < n then multiset(q)[x] else 0
    decreases n
  {
    hide ByPriority;
    if n > 0 {
      AscendingCount(q, n - 1, x);
      PriorityCount(q, n - 1, x);
      assert multiset(Ascending(q, n))[x] == multiset(Ascending(q, n - 1))[x] + multiset(ByPriority(q, n - 1))[x];
    }
  }

  lemma PriorityCount(q: seq<Request>, p: nat, x: Request)
    ensures multiset(ByPriority(q, p))[x] == if x.priority == p then multiset(q)[x] else 0
  {
    FilterCount(q, HasPriority(p), x);
  }

  /** RemoveIf returns exactly the matching requests, each as often as it was queued. */
  lemma AscendingAll(q: seq<Request>)
    ensures multiset(Ascending(q, PRIORITY_MAX + 1)) == multiset(q)
  {
    hide Ascending;
    forall x: Request
      ensures multiset(Ascending(q, PRIORITY_MAX + 1))[x] == multiset(q)[x]
    {
      AscendingCount(q, PRIORITY_MAX + 1, x);
    }
  }

  // The queue.

  class PriorityQueue {
    var requests: array<seq<Request>>
    ghost var Arrivals: seq<Request>

    ghost predicate Valid()
      reads this, requests
    {
      && requests.Length == PRIORITY_MAX + 1
      && forall p :: 0 <= p <= PRIORITY_MAX ==> requests[p] == ByPriority(Arrivals, p)
    }

    constructor ()
      ensures Valid() && fresh(requests) && Arrivals == []
    {
      requests := new seq<Request>[PRIORITY_MAX + 1](_ => []);
      Arrivals := [];
    }

    method Push(r: Request)
      requires Valid()
      modifies this`Arrivals, requests
      ensures Valid() && Arrivals == old(Arrivals) + [r]
    {
      forall p
        ensures ByPriority(Arrivals + [r], p) == ByPriority(Arrivals, p) + Only(r, HasPriority(p))
      {
        FilterAppend(Arrivals, r, HasPriority(p));
      }
      hide ByPriority;
      requests[r.priority] := requests[r.priority] + [r];
      Arrivals := Arrivals + [r];
    }

    /** The earliest of the most urgent requests, if there is any. */
    method Pop() returns (r: Popped)
      requires Valid()
      modifies this`Arrivals, requests
      ensures Valid()
      ensures old(Arrivals) == [] ==> r == Nothing && Arrivals == []
      ensures old(Arrivals) != [] ==>
                var b := Best(old(Arrivals));
                r == Got(old(Arrivals)[b]) && Arrivals == Without(old(Arrivals), b)
    {
      hide ByPriority, Without;
      var i: int := PRIORITY_MAX;
      while i >= 0
        invariant -1 <= i <= PRIORITY_MAX
        invariant forall p :: i < p <= PRIORITY_MAX ==> requests[p] == []
        invariant Valid() && Arrivals == old(Arrivals) && requests == old(requests)
      {
        if requests[i] != [] {
          TopPriority(Arrivals, i);
          forall p
            ensures ByPriority(Without(Arrivals, Best(Arrivals)), p) ==
                    if p == i then ByPriority(Arrivals, p)[1..] else ByPriority(Arrivals, p)
          {
            TakeBest(Arrivals, p);
          }
          TakeBest(Arrivals, i);
          r := Got(requests[i][0]);
          requests[i] := requests[i][1..];
          Arrivals := Without(Arrivals, Best(Arrivals));
          return;
        }
        i := i - 1;
      }
      AllEmpty(Arrivals);
      r := Nothing;
    }

    /** Takes out all matches and keeps the arrival order of the rest. */
    method RemoveIf(f: Request -> bool) returns (removed: seq<Request>)
      requires Valid()
      modifies this`Arrivals, requests
      ensures Valid()
      ensures Arrivals == Filter(old(Arrivals), x => !f(x))
      ensures removed == Ascending(Filter(old(Arrivals), f), PRIORITY_MAX + 1)
    {
      hide ByPriority, Filter;
      removed := [];
      var rest := x => !f(x);
      for i := 0 to PRIORITY_MAX + 1
        invariant requests == old(requests) && Arrivals == old(Arrivals) && requests.Length == PRIORITY_MAX + 1
        invariant forall p :: 0 <= p < i ==> requests[p] == Filter(ByPriority(Arrivals, p), rest)
        invariant forall p :: i <= p <= PRIORITY_MAX ==> requests[p] == ByPriority(Arrivals, p)
        invariant removed == Ascending(Filter(Arrivals, f), i)
      {
        SwapPriority(Arrivals, f, i);
        removed := removed + Filter(requests[i], f);
        requests[i] := Filter(requests[i], rest);
      }
      forall p
        ensures ByPriority(Filter(Arrivals, rest), p) == Filter(ByPriority(Arrivals, p), rest)
      {
        SwapPriority(Arrivals, rest, p);
      }
      Arrivals := Filter(Arrivals, rest);
    }

    method Size() returns (n: nat)
      requires Valid()
      ensures n == |Arrivals|
    {
      hide ByPriority;
      n := 0;
      for i := 0 to requests.Length
        invariant n == CountBelow(Arrivals, i)
      {
        n := n + |requests[i]|;
      }
      CountAll(Arrivals);
    }
  }

  lemma SwapPriority(q: seq<Request>, f: Request -> bool, p: int)
    ensures ByPriority(Filter(q, f), p) == Filter(ByPriority(q, p), f)
  {
    FilterSwap(q, f, HasPriority(p));
  }

  lemma AllEmpty(q: seq<Request>)
    requires forall p :: 0 <= p <= PRIORITY_MAX ==> ByPriority(q, p) == []
    ensures q == []
  {
    if q != [] {
      TakeBest(q, q[Best(q)].priority);
    }
  }

  /** The highest priority with a request is the best request's. */
  lemma TopPriority(q: seq<Request>, i: nat)
    requires i <= PRIORITY_MAX && ByPriority(q, i) != []
    requires forall p :: i < p <= PRIORITY_MAX ==> ByPriority(q, p) == []
    ensures q != [] && q[Best(q)].priority == i
  {
    var p := q[Best(q)].priority;
    TakeBest(q, p);
    if p < i {
      NoneAbove(q, i);
    }
  }
}
