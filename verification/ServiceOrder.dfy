/** The order in which the scheduler serves the requests that wait in a quota group. */
module ServiceOrder {
  import opened NetworkRequestPriorityQueue
  import opened RequestScheduler

  // One step.

  /** The worker takes a request than which none is more urgent and none as urgent came earlier, and leaves the rest. */
  lemma PopServes(s: State)
    requires Enabled(s, Pop) && s.groups[s.worker.group].queue != []
    ensures var g := s.worker.group; var q := s.groups[g].queue; var t := Apply(s, Pop);
            exists b: nat ::
              && b < |q| && t.worker == Holding(g, q[b]) && t.groups[g].queue == q[..b] + q[b + 1..]
              && (forall i :: 0 <= i < |q| ==> q[i].priority <= q[b].priority)
              && (forall i :: 0 <= i < b ==> q[i].priority < q[b].priority)
  {
    var q := s.groups[s.worker.group].queue;
    var b := Best(q);
    assert Apply(s, Pop).worker == Holding(s.worker.group, q[b]);
  }

  /** A request that is submitted, or that the protocol was not ready for, arrives behind all that wait. */
  lemma ArrivesLast(s: State, step: Step)
    requires Enabled(s, step) && (step.Submit? || step.NotReady?)
    ensures var g := GroupOf(s, step); var r := if step.Submit? then step.r else s.worker.request;
            Apply(s, step).groups[g].queue == s.groups[g].queue + [r]
  {
  }

  /** A cancellation takes out exactly the queued requests of the id, and they wait for their callback. */
  lemma CancelTakes(s: State, g: nat, id: int, x: Request)
    requires Enabled(s, Cancel(g, id))
    ensures var a, b := s.groups[g], Apply(s, Cancel(g, id)).groups[g];
            && multiset(b.queue)[x] == (if x.id == id then 0 else multiset(a.queue)[x])
            && b.cancelled[x] == a.cancelled[x] + if x.id == id then multiset(a.queue)[x] else 0
  {
    FilterCount(s.groups[g].queue, HasId(id), x);
    FilterCount(s.groups[g].queue, HasOtherId(id), x);
    hide Filter;
  }

  // Runs.

  ghost predicate Earlier(q: seq<Request>, x: Request, y: Request) {
    exists i, j :: 0 <= i < j < |q| && q[i] == x && q[j] == y
  }

  /** Both wait, and `x` is more urgent, or as urgent and came earlier. */
  ghost predicate Before(q: seq<Request>, x: Request, y: Request) {
    x in q && y in q && (x.priority > y.priority || (x.priority == y.priority && Earlier(q, x, y)))
  }

  /** The request waits in the group from the first state of the run to the last. */
  ghost predicate Waits(s: State, steps: seq<Step>, g: nat, x: Request)
    decreases |steps|
  {
    && g < |s.groups| && x in s.groups[g].queue
    && (steps == [] || (Enabled(s, steps[0]) && Waits(Apply(s, steps[0]), steps[1..], g, x)))
  }

  ghost predicate Takes(s: State, step: Step, y: Request) {
    Enabled(s, step) && step.Pop? && Apply(s, step).worker.Holding? && Apply(s, step).worker.request == y
  }

  /** The worker takes the request at some step of the run. */
  ghost predicate Taken(s: State, steps: seq<Step>, y: Request)
    decreases |steps|
  {
    steps != [] && Enabled(s, steps[0]) && (Takes(s, steps[0], y) || Taken(Apply(s, steps[0]), steps[1..], y))
  }

  lemma NotTwice(s: State, x: Request, p: Place, q: Place)
    requires Inv(s) && Occurs(s, x, p) > 0 && Occurs(s, x, q) > 0
    ensures p == q
  {
    hide CountersExact, CallsExact, Places, Occurs;
    if p != q {
      TwoPlaces(s, x, p, q);
    }
  }

  /** No waiting request is more urgent, and none as urgent came earlier. */
  ghost predicate IsNext(q: seq<Request>, b: nat) {
    b < |q| && (forall i :: 0 <= i < |q| ==> q[i].priority <= q[b].priority)
            && (forall i :: 0 <= i < b ==> q[i].priority < q[b].priority)
  }

  lemma TakenIsNext(s: State, step: Step, y: Request) returns (b: nat)
    requires Takes(s, step, y)
    ensures s.worker.Checked? && s.worker.group < |s.groups|
    ensures IsNext(s.groups[s.worker.group].queue, b) && s.groups[s.worker.group].queue[b] == y
    ensures Apply(s, step).groups[s.worker.group].queue == Without(s.groups[s.worker.group].queue, b)
  {
    b := Best(s.groups[s.worker.group].queue);
  }

  lemma InQueue(s: State, g: nat, x: Request)
    requires g < |s.groups| && x in s.groups[g].queue
    ensures Occurs(s, x, Queued(g)) > 0
  {
    assert x in multiset(s.groups[g].queue);
  }

  lemma NextIsNotBehind(q: seq<Request>, b: nat, x: Request)
    requires IsNext(q, b) && multiset(q)[q[b]] == 1
    ensures !Before(q, x, q[b])
  {
    forall i, j | 0 <= i < j < |q| && q[i] == x && q[j] == q[b]
      ensures x.priority < q[b].priority
    {
      if j != b {
        CountedTwice(q, j, b);
      }
    }
  }

  lemma CountedTwice(q: seq<Request>, i: nat, j: nat)
    requires i < |q| && j < |q| && i != j && q[i] == q[j]
    ensures multiset(q)[q[i]] >= 2
  {
    TakenOnce(q, i, q[i]);
    var w := Without(q, i);
    assert w[if j < i then j else j - 1] == q[j];
    assert q[j] in multiset(w);
  }

  /** The request that is taken next is not behind another that waits. */
  lemma NotTaken(s: State, step: Step, g: nat, x: Request, y: Request)
    requires Inv(s) && g < |s.groups| && Before(s.groups[g].queue, x, y)
    ensures !Takes(s, step, y)
  {
    hide Inv, IsNext, Takes, Before;
    if Takes(s, step, y) {
      var b := TakenIsNext(s, step, y);
      assert y in s.groups[g].queue by {
        BothWait(s.groups[g].queue, x, y);
      }
      var h := s.worker.group;
      InQueue(s, h, y);
      InQueue(s, g, y);
      NotTwice(s, y, Queued(g), Queued(h));
      QueuedOnce(s, g, y);
      NextIsNotBehind(s.groups[g].queue, b, x);
    }
  }

  lemma BothWait(q: seq<Request>, x: Request, y: Request)
    requires Before(q, x, y)
    ensures x in q && y in q
  {
  }

  lemma QueuedOnce(s: State, g: nat, x: Request)
    requires Inv(s) && g < |s.groups| && x in s.groups[g].queue
    ensures multiset(s.groups[g].queue)[x] == 1
  {
    InQueue(s, g, x);
    OccursOnce(s, x, Queued(g));
    hide CountersExact, CallsExact, Places;
  }

  // Order is kept while both wait.

  lemma EarlierAppend(q: seq<Request>, r: Request, x: Request, y: Request)
    requires Earlier(q, x, y)
    ensures Earlier(q + [r], x, y)
  {
    var i, j :| 0 <= i < j < |q| && q[i] == x && q[j] == y;
    assert (q + [r])[i] == x && (q + [r])[j] == y;
  }

  lemma EarlierWithout(q: seq<Request>, b: nat, x: Request, y: Request)
    requires Earlier(q, x, y) && b < |q| && q[b] != x && q[b] != y
    ensures Earlier(Without(q, b), x, y)
  {
    var i, j :| 0 <= i < j < |q| && q[i] == x && q[j] == y;
    var w := Without(q, b);
    assert w[if i < b then i else i - 1] == x && w[if j < b then j else j - 1] == y;
  }

  lemma {:induction false} EarlierFilter(q: seq<Request>, f: Request -> bool, x: Request, y: Request)
    requires Earlier(q, x, y) && f(x) && f(y)
    ensures Earlier(Filter(q, f), x, y)
    decreases |q|
  {
    var n := |q| - 1;
    var i, j :| 0 <= i < j < |q| && q[i] == x && q[j] == y;
    FilterLast(q, f);
    OnlyCases(q[n], f);
    var rest := Filter(q[..n], f);
    if j < n {
      assert q[..n][i] == x && q[..n][j] == y;
      EarlierFilter(q[..n], f, x, y);
      hide Filter;
      if f(q[n]) {
        EarlierAppend(rest, q[n], x, y);
      } else {
        assert rest + [] == rest;
      }
    } else {
      assert q[..n][i] == x && x in multiset(q[..n]);
      FilterCount(q[..n], f, x);
      hide Filter;
      var k :| 0 <= k < |rest| && rest[k] == x;
      assert (rest + [y])[k] == x && (rest + [y])[|rest|] == y;
    }
  }

  /** A step that does not take either keeps their order if both still wait. */
  lemma OrderStep(s: State, step: Step, g: nat, x: Request, y: Request)
    requires Enabled(s, step) && g < |s.groups| && Earlier(s.groups[g].queue, x, y)
    requires !Takes(s, step, x) && !Takes(s, step, y)
    requires x in Apply(s, step).groups[g].queue && y in Apply(s, step).groups[g].queue
    ensures Earlier(Apply(s, step).groups[g].queue, x, y)
  {
    hide Filter, Best, Without, Earlier;
    var q := s.groups[g].queue;
    if g == GroupOf(s, step) {
      if step.Submit? {
        EarlierAppend(q, step.r, x, y);
      } else if step.NotReady? {
        EarlierAppend(q, s.worker.request, x, y);
      } else if step.Pop? && q != [] {
        EarlierWithout(q, Best(q), x, y);
      } else if step.Cancel? {
        KeptById(q, step.id, x);
        KeptById(q, step.id, y);
        EarlierFilter(q, HasOtherId(step.id), x, y);
      }
    }
  }

  lemma KeptById(q: seq<Request>, id: int, x: Request)
    requires x in Filter(q, HasOtherId(id))
    ensures x.id != id
  {
    FilterCount(q, HasOtherId(id), x);
    assert x in multiset(Filter(q, HasOtherId(id)));
  }

  /** A request leaves the queue only by being taken or by a cancellation. */
  lemma LeavesByCancel(s: State, step: Step, g: nat, y: Request)
    requires Enabled(s, step) && g < |s.groups| && y in s.groups[g].queue && !Takes(s, step, y)
    ensures y in Apply(s, step).groups[g].queue || Apply(s, step).groups[g].cancelled[y] > 0
  {
    var q := s.groups[g].queue;
    assert y in multiset(q);
    if step.Pop? && q != [] && g == GroupOf(s, step) {
      TakenOnce(q, Best(q), y);
      hide Best, Without;
      assert y in multiset(Without(q, Best(q)));
    } else if step.Cancel? && g == GroupOf(s, step) {
      CancelTakes(s, g, step.id, y);
      hide Filter;
      assert y.id != step.id ==> y in multiset(Apply(s, step).groups[g].queue);
    }
  }

  // Once cancelled, a request is never taken.

  predicate CancelledIn(s: State, g: nat, y: Request) {
    g < |s.groups| && (s.groups[g].cancelled[y] > 0 || s.finished[y] > 0)
  }

  lemma CancelledStep(s: State, step: Step, g: nat, y: Request)
    requires Enabled(s, step) && CancelledIn(s, g, y)
    ensures CancelledIn(Apply(s, step), g, y)
  {
    hide Filter, Best, Without;
  }

  lemma {:induction false} CancelledNotTaken(s: State, steps: seq<Step>, g: nat, y: Request)
    requires Inv(s) && CancelledIn(s, g, y)
    ensures !Taken(s, steps, y)
    decreases |steps|
  {
    hide Inv, Apply, Enabled, CancelledIn;
    if steps != [] && Enabled(s, steps[0]) {
      StepInv(s, steps[0]);
      CancelledStep(s, steps[0], g, y);
      CancelledNotHeld(Apply(s, steps[0]), g, y);
      CancelledNotTaken(Apply(s, steps[0]), steps[1..], g, y);
    }
  }

  lemma CancelledNotHeld(t: State, g: nat, y: Request)
    requires Inv(t) && CancelledIn(t, g, y)
    ensures !(t.worker.Holding? && t.worker.request == y)
  {
    hide Inv;
    if t.worker.Holding? && t.worker.request == y {
      NotTwice(t, y, WithWorker, if t.groups[g].cancelled[y] > 0 then Cancelling(g) else Finishing);
    }
  }

  /**
   Requests that wait together in a group are taken by priority, and within a priority in the order of their
   arrival: while `x` waits, `y` behind it is not taken, whatever else is submitted, sent, answered or cancelled.
   */
  lemma {:induction false} ServedInOrder(s: State, steps: seq<Step>, g: nat, x: Request, y: Request)
    requires Inv(s) && Waits(s, steps, g, x) && Before(s.groups[g].queue, x, y)
    ensures !Taken(s, steps, y)
    decreases |steps|
  {
    hide Inv, Apply, Enabled, Takes;
    if steps != [] {
      var step, t := steps[0], Apply(s, steps[0]);
      StepInv(s, step);
      NotTaken(s, step, g, x, y);
      if y in t.groups[g].queue {
        StillWaiting(s, step, g, x);
        if x.priority == y.priority {
          OrderStep(s, step, g, x, y);
        }
        ServedInOrder(t, steps[1..], g, x, y);
      } else {
        LeavesByCancel(s, step, g, y);
        CancelledNotTaken(t, steps[1..], g, y);
      }
    }
  }

  lemma StillWaiting(s: State, step: Step, g: nat, x: Request)
    requires Inv(s) && Enabled(s, step) && g < |Apply(s, step).groups| && x in Apply(s, step).groups[g].queue
    ensures !Takes(s, step, x)
  {
    StepInv(s, step);
    hide Inv, Apply, Enabled;
    if Takes(s, step, x) {
      InQueue(Apply(s, step), g, x);
      NotTwice(Apply(s, step), x, WithWorker, Queued(g));
    }
  }
}
