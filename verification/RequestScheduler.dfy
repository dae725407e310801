/**
 The request scheduler: quota groups with a priority queue each, one worker thread, a protocol that answers
 asynchronously, and callers that submit and cancel at any time.

 Every mutex-guarded section, atomic counter update and callback is one step; a run is any sequence of steps.
 The protocol is the environment: a request it accepts it answers exactly once, a request it refuses never.
 */
module RequestScheduler {
  import opened NetworkRequestPriorityQueue

  /**
   A quota group. A request of the group is `queue`d, or `cancelled` (taken out of the queue, callback still
   to run), or `flying` (accepted by the protocol), or `returning` (callback done, counter not yet lowered).
   `leaked` counts the sends that the protocol was not ready for: they raised the counter for good.
   */
  datatype Group = Group(
    quota: nat, counter: nat, queue: seq<Request>,
    cancelled: multiset<Request>, flying: multiset<Request>, returning: multiset<Request>,
    leaked: nat)

  /** Where the worker thread is; `Failed` is after the callback with a synchronous error. */
  datatype Worker =
    | Idle
    | Checked(group: nat)
    | Holding(group: nat, request: Request)
    | Sending(group: nat, request: Request)
    | Failed(group: nat, request: Request)

  /** `accepted` are the requests ever submitted, `calls` the callbacks run, with multiplicity. */
  datatype State = State(
    groups: seq<Group>, worker: Worker, finished: multiset<Request>,
    accepted: set<Request>, calls: multiset<Request>)

  datatype Step =
    | Submit(g: nat, r: Request)
    | Check(g: nat)
    | Pop
    | Begin
    | Accept
    | NotReady
    | Fail
    | FailDone
    | Respond(g: nat, r: Request)
    | Return(g: nat, r: Request)
    | Cancel(g: nat, id: int)
    | CancelCallback(g: nat, r: Request)

  function EmptyGroup(quota: nat): Group {
    Group(quota, 0, [], multiset{}, multiset{}, multiset{}, 0)
  }

  ghost predicate Init(s: State) {
    && (forall g :: 0 <= g < |s.groups| ==> s.groups[g] == EmptyGroup(s.groups[g].quota))
    && s == State(s.groups, Idle, multiset{}, {}, multiset{})
  }

  predicate Enabled(s: State, step: Step) {
    match step
    case Submit(g, r) => g < |s.groups| && r !in s.accepted
    case Check(g) => g < |s.groups| && s.worker.Idle? && s.groups[g].counter < s.groups[g].quota
    case Pop => s.worker.Checked? && s.worker.group < |s.groups|
    case Begin => s.worker.Holding? && s.worker.group < |s.groups|
    case Accept => s.worker.Sending? && s.worker.group < |s.groups|
    case NotReady => s.worker.Sending? && s.worker.group < |s.groups|
    case Fail => s.worker.Sending? && s.worker.group < |s.groups|
    case FailDone => s.worker.Failed? && s.worker.group < |s.groups|
    case Respond(g, r) => g < |s.groups| && r in s.groups[g].flying
    case Return(g, r) => g < |s.groups| && r in s.groups[g].returning
    case Cancel(g, id) => g < |s.groups|
    case CancelCallback(g, r) => g < |s.groups| && r in s.groups[g].cancelled
  }

  function HasId(id: int): Request -> bool {
    (r: Request) => r.id == id
  }

  function HasOtherId(id: int): Request -> bool {
    (r: Request) => r.id != id
  }

  /** A counter lowered by one; that it is never lowered below zero is part of the invariant. */
  function Lower(n: nat): nat {
    if n == 0 then 0 else n - 1
  }

  /** The group that a step changes, after the step. */
  function GroupAfter(s: State, step: Step, g: nat): Group
    requires g < |s.groups|
  {
    var a := s.groups[g];
    match step
    case Submit(_, r) => a.(queue := a.queue + [r])
    case Check(_) => a
    case Pop => if a.queue == [] then a else a.(queue := Without(a.queue, Best(a.queue)))
    case Begin => a.(counter := a.counter + 1)
    case Accept => if s.worker.Sending? then a.(flying := a.flying + multiset{s.worker.request}) else a
    case NotReady => if s.worker.Sending? then a.(queue := a.queue + [s.worker.request], leaked := a.leaked + 1) else a
    case Fail => a
    case FailDone => a.(counter := Lower(a.counter))
    case Respond(_, r) => a.(flying := a.flying - multiset{r}, returning := a.returning + multiset{r})
    case Return(_, r) => a.(returning := a.returning - multiset{r}, counter := Lower(a.counter))
    case Cancel(_, id) =>
      a.(queue := Filter(a.queue, HasOtherId(id)), cancelled := a.cancelled + multiset(Filter(a.queue, HasId(id))))
    case CancelCallback(_, r) => a.(cancelled := a.cancelled - multiset{r})
  }

  function GroupOf(s: State, step: Step): nat {
    match step
    case Submit(g, _) => g
    case Check(g) => g
    case Respond(g, _) => g
    case Return(g, _) => g
    case Cancel(g, _) => g
    case CancelCallback(g, _) => g
    case _ => if s.worker.Idle? then 0 else s.worker.group
  }

  function WorkerAfter(s: State, step: Step): Worker {
    var w := s.worker;
    match step
    case Check(g) => Checked(g)
    case Pop =>
      if w.Checked? && w.group < |s.groups| && s.groups[w.group].queue != []
      then Holding(w.group, s.groups[w.group].queue[Best(s.groups[w.group].queue)])
      else Idle
    case Begin => if w.Holding? then Sending(w.group, w.request) else w
    case Fail => if w.Sending? then Failed(w.group, w.request) else w
    case Accept => Idle
    case NotReady => Idle
    case FailDone => Idle
    case _ => w
  }

  /** The request whose callback the step runs. */
  function Called(s: State, step: Step): multiset<Request> {
    match step
    case Fail => if s.worker.Sending? then multiset{s.worker.request} else multiset{}
    case Respond(_, r) => multiset{r}
    case CancelCallback(_, r) => multiset{r}
    case _ => multiset{}
  }

  /** The request that the step finishes. */
  function Finished(s: State, step: Step): multiset<Request> {
    match step
    case FailDone => if s.worker.Failed? then multiset{s.worker.request} else multiset{}
    case Return(_, r) => multiset{r}
    case CancelCallback(_, r) => multiset{r}
    case _ => multiset{}
  }

  function Apply(s: State, step: Step): State
    requires Enabled(s, step)
  {
    var g := GroupOf(s, step);
    State(s.groups[g := GroupAfter(s, step, g)], WorkerAfter(s, step), s.finished + Finished(s, step),
          s.accepted + (if step.Submit? then {step.r} else {}), s.calls + Called(s, step))
  }

  /** The steps lead from `s` to `t`. */
  ghost predicate Runs(s: State, steps: seq<Step>, t: State)
    decreases |steps|
  {
    if steps == [] then s == t
    else Enabled(s, steps[0]) && Runs(Apply(s, steps[0]), steps[1..], t)
  }

  ghost predicate Reachable(t: State) {
    exists s, steps :: Init(s) && Runs(s, steps, t)
  }

  // Counting.

  /** How often the request occurs in the group. */
  function InGroup(a: Group, x: Request): nat {
    multiset(a.queue)[x] + a.cancelled[x] + a.flying[x] + a.returning[x]
  }

  function Anywhere(x: Request): Group -> nat {
    (a: Group) => InGroup(a, x)
  }

  function AnswerIn(x: Request): Group -> nat {
    (a: Group) => a.returning[x]
  }

  function Total(gs: seq<Group>, f: Group -> nat): nat {
    if gs == [] then 0 else Total(gs[..|gs| - 1], f) + f(gs[|gs| - 1])
  }

  lemma {:induction false} TotalUpdate(gs: seq<Group>, g: nat, a: Group, f: Group -> nat)
    requires g < |gs|
    ensures Total(gs[g := a], f) == Total(gs, f) - f(gs[g]) + f(a)
  {
    var n := |gs| - 1;
    if g == n {
      assert gs[g := a][..n] == gs[..n];
    } else {
      assert gs[g := a][..n] == gs[..n][g := a];
      TotalUpdate(gs[..n], g, a, f);
    }
  }

  lemma {:induction false} TotalZero(gs: seq<Group>, f: Group -> nat)
    requires forall i :: 0 <= i < |gs| ==> f(gs[i]) == 0
    ensures Total(gs, f) == 0
  {
    if gs != [] {
      TotalZero(gs[..|gs| - 1], f);
    }
  }

  lemma {:induction false} TotalBounds(gs: seq<Group>, f: Group -> nat, e: Group -> nat, g: nat)
    requires forall a :: f(a) <= e(a)
    ensures Total(gs, f) <= Total(gs, e)
    ensures g < |gs| ==> f(gs[g]) <= Total(gs, f)
    ensures g < |gs| ==> Total(gs, f) + (e(gs[g]) - f(gs[g])) <= Total(gs, e)
  {
    if gs != [] {
      var n := |gs| - 1;
      TotalBounds(gs[..n], f, e, g);
      if g < n {
        assert gs[..n][g] == gs[g];
      }
    }
  }

  function AtWorker(w: Worker, x: Request): nat {
    if (w.Holding? || w.Sending? || w.Failed?) && w.request == x then 1 else 0
  }

  function FailedAtWorker(w: Worker, x: Request): nat {
    if w.Failed? && w.request == x then 1 else 0
  }

  /** In how many places the request is. */
  function Places(s: State, x: Request): nat {
    Total(s.groups, Anywhere(x)) + AtWorker(s.worker, x) + s.finished[x]
  }

  /** In how many of the places that come after the callback. */
  function DonePlaces(s: State, x: Request): nat {
    Total(s.groups, AnswerIn(x)) + FailedAtWorker(s.worker, x) + s.finished[x]
  }

  // The invariant.

  /** One for the group whose counter the worker has raised and not yet settled. */
  function Busy(w: Worker, g: nat): nat {
    if (w.Sending? || w.Failed?) && w.group == g then 1 else 0
  }

  predicate Reserved(w: Worker, g: nat) {
    (w.Checked? || w.Holding?) && w.group == g
  }

  ghost predicate Balanced(a: Group, w: Worker, g: nat) {
    && a.counter == |a.flying| + |a.returning| + Busy(w, g) + a.leaked
    && a.counter <= a.quota
    && (Reserved(w, g) ==> a.counter < a.quota)
  }

  ghost predicate CountersExact(s: State) {
    && (forall g :: 0 <= g < |s.groups| ==> Balanced(s.groups[g], s.worker, g))
    && (s.worker.Idle? || s.worker.group < |s.groups|)
  }

  ghost predicate EachInOnePlace(s: State) {
    forall x: Request :: Places(s, x) == if x in s.accepted then 1 else 0
  }

  ghost predicate CallsExact(s: State) {
    forall x: Request :: s.calls[x] == DonePlaces(s, x)
  }

  ghost predicate Inv(s: State) {
    CountersExact(s) && EachInOnePlace(s) && CallsExact(s)
  }

  lemma InitInv(s: State)
    requires Init(s)
    ensures Inv(s)
  {
    forall x: Request
      ensures Places(s, x) == 0 && DonePlaces(s, x) == 0
    {
      TotalZero(s.groups, Anywhere(x));
      TotalZero(s.groups, AnswerIn(x));
    }
  }

  // Counters.

  /** The steps of the worker thread; the others are the callers' and the protocol's. */
  predicate IsWorkerStep(step: Step) {
    step.Check? || step.Pop? || step.Begin? || step.Accept? || step.NotReady? || step.Fail? || step.FailDone?
  }

  lemma CountersStep(s: State, step: Step)
    requires CountersExact(s) && Enabled(s, step)
    ensures CountersExact(Apply(s, step))
  {
    var t := Apply(s, step);
    var h := GroupOf(s, step);
    WorkerInRange(s, step);
    forall g | 0 <= g < |t.groups|
      ensures Balanced(t.groups[g], t.worker, g)
    {
      assert Balanced(s.groups[g], s.worker, g);
      if g != h {
        OtherGroup(s, step, g);
      } else if IsWorkerStep(step) {
        WorkerBalance(s, step, g);
      } else {
        ClientBalance(s, step, g);
      }
      hide *;
    }
  }

  lemma WorkerInRange(s: State, step: Step)
    requires CountersExact(s) && Enabled(s, step)
    ensures WorkerAfter(s, step).Idle? || WorkerAfter(s, step).group < |s.groups|
  {
    hide Best;
  }

  /** The worker concerns only the group that it works for. */
  lemma OtherGroup(s: State, step: Step, g: nat)
    requires Enabled(s, step) && g != GroupOf(s, step)
    ensures Busy(WorkerAfter(s, step), g) == Busy(s.worker, g)
    ensures Reserved(WorkerAfter(s, step), g) ==> Reserved(s.worker, g)
  {
    hide Best;
  }

  lemma WorkerBalance(s: State, step: Step, g: nat)
    requires Enabled(s, step) && IsWorkerStep(step) && g == GroupOf(s, step) && g < |s.groups|
    requires Balanced(s.groups[g], s.worker, g)
    ensures Balanced(GroupAfter(s, step, g), WorkerAfter(s, step), g)
  {
    hide Filter, Best, Without;
  }

  lemma ClientBalance(s: State, step: Step, g: nat)
    requires Enabled(s, step) && !IsWorkerStep(step) && g == GroupOf(s, step) && g < |s.groups|
    requires Balanced(s.groups[g], s.worker, g)
    ensures Balanced(GroupAfter(s, step, g), WorkerAfter(s, step), g)
  {
    hide Filter, Best, Without;
  }

  // Places.

  /** What the step changes in the group's count of a request. */
  lemma PlacesStep(s: State, step: Step, x: Request)
    requires CountersExact(s) && Enabled(s, step)
    ensures Places(Apply(s, step), x) == Places(s, x) + if step.Submit? && step.r == x then 1 else 0
  {
    var g := GroupOf(s, step);
    TotalUpdate(s.groups, g, GroupAfter(s, step, g), Anywhere(x));
    hide Total;
    GroupPlaces(s, step, g, x);
  }

  lemma GroupPlaces(s: State, step: Step, g: nat, x: Request)
    requires Enabled(s, step) && g == GroupOf(s, step) && g < |s.groups|
    ensures InGroup(GroupAfter(s, step, g), x) + AtWorker(WorkerAfter(s, step), x) + Finished(s, step)[x] ==
            InGroup(s.groups[g], x) + AtWorker(s.worker, x) + if step.Submit? && step.r == x then 1 else 0
  {
    if IsWorkerStep(step) {
      WorkerPlaces(s, step, g, x);
    } else {
      ClientPlaces(s, step, g, x);
    }
  }

  lemma WorkerPlaces(s: State, step: Step, g: nat, x: Request)
    requires Enabled(s, step) && IsWorkerStep(step) && g == GroupOf(s, step) && g < |s.groups|
    ensures InGroup(GroupAfter(s, step, g), x) + AtWorker(WorkerAfter(s, step), x) + Finished(s, step)[x] ==
            InGroup(s.groups[g], x) + AtWorker(s.worker, x)
  {
    hide Filter, Best, Without;
    var q := s.groups[g].queue;
    if step.Pop? && q != [] {
      TakenOnce(q, Best(q), x);
    } else if step.NotReady? {
      assert multiset(q + [s.worker.request])[x] == multiset(q)[x] + multiset([s.worker.request])[x];
    }
  }

  lemma ClientPlaces(s: State, step: Step, g: nat, x: Request)
    requires Enabled(s, step) && !IsWorkerStep(step) && g == GroupOf(s, step) && g < |s.groups|
    ensures InGroup(GroupAfter(s, step, g), x) + AtWorker(WorkerAfter(s, step), x) + Finished(s, step)[x] ==
            InGroup(s.groups[g], x) + AtWorker(s.worker, x) + if step.Submit? && step.r == x then 1 else 0
  {
    hide Filter, Best, Without;
    var q := s.groups[g].queue;
    if step.Cancel? {
      SplitById(q, step.id, x);
    } else if step.Submit? {
      assert multiset(q + [step.r])[x] == multiset(q)[x] + multiset([step.r])[x];
    }
  }

  lemma TakenOnce(q: seq<Request>, b: nat, x: Request)
    requires b < |q|
    ensures multiset(q)[x] == multiset(Without(q, b))[x] + if q[b] == x then 1 else 0
  {
    SplitAt(q, b);
    assert multiset(q)[x] == multiset(q[..b])[x] + multiset([q[b]] + q[b + 1..])[x];
    assert multiset([q[b]] + q[b + 1..])[x] == multiset([q[b]])[x] + multiset(q[b + 1..])[x];
  }

  lemma SplitById(q: seq<Request>, id: int, x: Request)
    ensures multiset(q)[x] == multiset(Filter(q, HasId(id)))[x] + multiset(Filter(q, HasOtherId(id)))[x]
  {
    FilterCount(q, HasId(id), x);
    FilterCount(q, HasOtherId(id), x);
  }

  // Callbacks.

  lemma CallsStep(s: State, step: Step, x: Request)
    requires CountersExact(s) && Enabled(s, step) && s.calls[x] == DonePlaces(s, x)
    ensures Apply(s, step).calls[x] == DonePlaces(Apply(s, step), x)
  {
    var g := GroupOf(s, step);
    TotalUpdate(s.groups, g, GroupAfter(s, step, g), AnswerIn(x));
    CallsBalance(s, step, g, x);
    hide Total, GroupAfter, WorkerAfter, Called, Finished;
  }

  lemma CallsBalance(s: State, step: Step, g: nat, x: Request)
    requires Enabled(s, step) && g == GroupOf(s, step) && g < |s.groups|
    ensures s.groups[g].returning[x] + FailedAtWorker(s.worker, x) + Called(s, step)[x] ==
            GroupAfter(s, step, g).returning[x] + FailedAtWorker(WorkerAfter(s, step), x) + Finished(s, step)[x]
  {
    hide Filter, Best, Without;
  }

  // Runs.

  lemma StepInv(s: State, step: Step)
    requires Inv(s) && Enabled(s, step)
    ensures Inv(Apply(s, step))
  {
    CountersStep(s, step);
    hide Places, DonePlaces, CountersExact, GroupAfter, WorkerAfter, Called, Finished;
    var t := Apply(s, step);
    forall x: Request
      ensures Places(t, x) == (if x in t.accepted then 1 else 0) && t.calls[x] == DonePlaces(t, x)
    {
      PlacesStep(s, step, x);
      CallsStep(s, step, x);
    }
  }

  lemma {:induction false} RunInv(s: State, steps: seq<Step>, t: State)
    requires Inv(s) && Runs(s, steps, t)
    ensures Inv(t)
    decreases |steps|
  {
    hide Inv, Enabled, Apply;
    if steps != [] {
      StepInv(s, steps[0]);
      RunInv(Apply(s, steps[0]), steps[1..], t);
    }
  }

  lemma ReachableInv(t: State)
    requires Reachable(t)
    ensures Inv(t)
  {
    var s, steps :| Init(s) && Runs(s, steps, t);
    InitInv(s);
    RunInv(s, steps, t);
  }

  // What holds in every reachable state.

  /** No group ever has more requests in flight than its quota allows, and its counter never passes the quota. */
  lemma QuotaHolds(t: State, g: nat)
    requires Reachable(t) && g < |t.groups|
    ensures |t.groups[g].flying| <= t.groups[g].counter <= t.groups[g].quota
  {
    hide Reachable, EachInOnePlace, CallsExact;
    ReachableInv(t);
    assert Balanced(t.groups[g], t.worker, g);
  }

  /** A step that lowers a counter finds it above zero. */
  lemma NoUnderflow(t: State, step: Step)
    requires Reachable(t) && Enabled(t, step) && (step.FailDone? || step.Return?)
    ensures t.groups[GroupOf(t, step)].counter >= 1
  {
    hide Reachable, EachInOnePlace, CallsExact;
    ReachableInv(t);
    var g := GroupOf(t, step);
    assert Balanced(t.groups[g], t.worker, g);
    if step.Return? {
      assert step.r in t.groups[g].returning;
      assert |t.groups[g].returning - multiset{step.r}| == |t.groups[g].returning| - 1;
    }
  }

  /** Where a request can be. */
  datatype Place =
    | Queued(g: nat) | Cancelling(g: nat) | Flying(g: nat) | Returning(g: nat) | WithWorker | Finishing

  function Occurs(s: State, x: Request, p: Place): nat {
    match p
    case Queued(g) => if g < |s.groups| then multiset(s.groups[g].queue)[x] else 0
    case Cancelling(g) => if g < |s.groups| then s.groups[g].cancelled[x] else 0
    case Flying(g) => if g < |s.groups| then s.groups[g].flying[x] else 0
    case Returning(g) => if g < |s.groups| then s.groups[g].returning[x] else 0
    case WithWorker => AtWorker(s.worker, x)
    case Finishing => s.finished[x]
  }

  lemma {:induction false} TotalPair(gs: seq<Group>, f: Group -> nat, g: nat, h: nat)
    requires g < h < |gs|
    ensures f(gs[g]) + f(gs[h]) <= Total(gs, f)
  {
    var n := |gs| - 1;
    if h < n {
      TotalPair(gs[..n], f, g, h);
    } else {
      TotalOne(gs[..n], f, g);
    }
  }

  lemma {:induction false} TotalOne(gs: seq<Group>, f: Group -> nat, g: nat)
    requires g < |gs|
    ensures f(gs[g]) <= Total(gs, f)
  {
    if g < |gs| - 1 {
      TotalOne(gs[..|gs| - 1], f, g);
    }
  }

  ghost predicate GroupPlace(p: Place) {
    p.Queued? || p.Cancelling? || p.Flying? || p.Returning?
  }

  lemma TwoPlaces(s: State, x: Request, p: Place, q: Place)
    requires p != q && Occurs(s, x, p) > 0 && Occurs(s, x, q) > 0
    ensures Places(s, x) >= 2
  {
    var f := Anywhere(x);
    if GroupPlace(p) {
      TotalOne(s.groups, f, p.g);
    }
    if GroupPlace(q) {
      TotalOne(s.groups, f, q.g);
    }
    if GroupPlace(p) && GroupPlace(q) && p.g < q.g {
      TotalPair(s.groups, f, p.g, q.g);
    } else if GroupPlace(p) && GroupPlace(q) && q.g < p.g {
      TotalPair(s.groups, f, q.g, p.g);
    }
  }

  /** A submitted request is in exactly one place; a request that was never submitted is in none. */
  lemma OnePlaceOnly(t: State, x: Request, p: Place, q: Place)
    requires Reachable(t) && Occurs(t, x, p) > 0 && Occurs(t, x, q) > 0
    ensures p == q && Occurs(t, x, p) == 1 && x in t.accepted
  {
    PlacesOfReachable(t, x);
    hide Reachable, Places, DonePlaces;
    if p != q {
      TwoPlaces(t, x, p, q);
    }
    OccursOnce(t, x, p);
  }

  lemma OccursOnce(s: State, x: Request, p: Place)
    ensures Occurs(s, x, p) <= Places(s, x)
  {
    if GroupPlace(p) && p.g < |s.groups| {
      TotalOne(s.groups, Anywhere(x), p.g);
    }
  }

  lemma {:induction false} TotalWitness(gs: seq<Group>, f: Group -> nat) returns (g: nat)
    requires Total(gs, f) > 0
    ensures g < |gs| && f(gs[g]) > 0
  {
    if f(gs[|gs| - 1]) > 0 {
      g := |gs| - 1;
    } else {
      g := TotalWitness(gs[..|gs| - 1], f);
    }
  }

  lemma PlacesOfReachable(t: State, x: Request)
    requires Reachable(t)
    ensures Places(t, x) == if x in t.accepted then 1 else 0
    ensures t.calls[x] == DonePlaces(t, x)
  {
    ReachableInv(t);
    hide Reachable, Places, DonePlaces, CountersExact;
  }

  /** No submitted request is ever lost. */
  lemma SomePlace(t: State, x: Request) returns (p: Place)
    requires Reachable(t) && x in t.accepted
    ensures Occurs(t, x, p) == 1
  {
    hide *;
    PlacesOfReachable(t, x);
    p := FindPlace(t, x);
    OccursOnce(t, x, p);
  }

  lemma FindPlace(t: State, x: Request) returns (p: Place)
    requires Places(t, x) > 0
    ensures Occurs(t, x, p) > 0
  {
    if t.finished[x] > 0 {
      p := Finishing;
    } else if AtWorker(t.worker, x) > 0 {
      p := WithWorker;
    } else {
      var g := TotalWitness(t.groups, Anywhere(x));
      assert InGroup(t.groups[g], x) > 0;
      hide *;
      p := PlaceInGroup(t, x, g);
    }
  }

  lemma PlaceInGroup(t: State, x: Request, g: nat) returns (p: Place)
    requires g < |t.groups| && InGroup(t.groups[g], x) > 0
    ensures Occurs(t, x, p) > 0
  {
    var a := t.groups[g];
    p := if multiset(a.queue)[x] > 0 then Queued(g) else if a.cancelled[x] > 0 then Cancelling(g)
         else if a.flying[x] > 0 then Flying(g) else Returning(g);
  }

  /** The callback has run once when the request is past it, and not at all before. */
  ghost predicate PastCallback(t: State, x: Request, p: Place) {
    p.Returning? || p.Finishing? || (p.WithWorker? && FailedAtWorker(t.worker, x) == 1)
  }

  lemma CallbackOnce(t: State, x: Request, p: Place)
    requires Reachable(t) && Occurs(t, x, p) > 0
    ensures t.calls[x] == if PastCallback(t, x, p) then 1 else 0
  {
    PlacesOfReachable(t, x);
    hide Reachable;
    var g := if GroupPlace(p) then p.g else 0;
    TotalBounds(t.groups, AnswerIn(x), Anywhere(x), g);
  }

  /** The callback of a request never runs twice, and never without a submission. */
  lemma CallbackAtMostOnce(t: State, x: Request)
    requires Reachable(t)
    ensures t.calls[x] <= if x in t.accepted then 1 else 0
  {
    PlacesOfReachable(t, x);
    hide Reachable;
    TotalBounds(t.groups, AnswerIn(x), Anywhere(x), 0);
  }

  // The counter that is not given back.

  /** Once a group is at rest its counter is exactly the number of sends the protocol was not ready for. */
  lemma RestingCounter(t: State, g: nat)
    requires Reachable(t) && g < |t.groups| && t.worker.Idle?
    requires t.groups[g].flying == multiset{} && t.groups[g].returning == multiset{}
    ensures t.groups[g].counter == t.groups[g].leaked
  {
    hide Reachable, EachInOnePlace, CallsExact;
    ReachableInv(t);
    assert Balanced(t.groups[g], t.worker, g);
  }

  /** So a group at rest is served again exactly when not all of its quota has leaked. */
  lemma RestingServed(t: State, g: nat)
    requires Reachable(t) && g < |t.groups| && t.worker.Idle?
    requires t.groups[g].flying == multiset{} && t.groups[g].returning == multiset{}
    ensures Enabled(t, Check(g)) <==> t.groups[g].leaked < t.groups[g].quota
    ensures !Enabled(t, Check(g)) <==> Starved(t, g)
  {
    RestingCounter(t, g);
    hide Reachable, EachInOnePlace, CallsExact;
    ReachableInv(t);
    assert Balanced(t.groups[g], t.worker, g);
  }

  /** All of the group's quota has leaked. */
  ghost predicate Starved(s: State, g: nat) {
    g < |s.groups| && s.groups[g].leaked == s.groups[g].quota
  }

  lemma StarvedStep(s: State, step: Step, g: nat)
    requires CountersExact(s) && Enabled(s, step) && Starved(s, g)
    ensures Starved(Apply(s, step), g) && step != Check(g)
  {
    hide Best, Filter, Without;
    assert Balanced(s.groups[g], s.worker, g);
  }

  /** A starved group never sends again: none of its requests is in flight in any later state. */
  lemma {:induction false} StarvedForever(s: State, steps: seq<Step>, t: State, g: nat)
    requires Inv(s) && Runs(s, steps, t) && Starved(s, g)
    ensures Starved(t, g) && Check(g) !in steps
    ensures t.groups[g].counter == t.groups[g].quota
    ensures t.groups[g].flying == multiset{} && t.groups[g].returning == multiset{}
    decreases |steps|
  {
    hide Inv, Apply, Enabled, Starved;
    if steps == [] {
      StarvedNow(t, g);
    } else {
      StarvedNow(s, g);
      StarvedStep(s, steps[0], g);
      StepInv(s, steps[0]);
      StarvedForever(Apply(s, steps[0]), steps[1..], t, g);
      assert steps == [steps[0]] + steps[1..];
    }
  }

  lemma StarvedNow(s: State, g: nat)
    requires Inv(s) && Starved(s, g)
    ensures CountersExact(s) && g < |s.groups| && s.groups[g].counter == s.groups[g].quota
    ensures s.groups[g].flying == multiset{} && s.groups[g].returning == multiset{}
  {
    hide EachInOnePlace, CallsExact;
    assert Balanced(s.groups[g], s.worker, g);
  }

  // A group that is not starved can always be served again.

  function Rank(w: Worker): nat {
    match w
    case Checked(_) => 4
    case Holding(_, _) => 3
    case Sending(_, _) => 2
    case Failed(_, _) => 1
    case Idle => 0
  }

  /** A step that brings the worker or the group nearer to rest and leaks nothing, if there is one. */
  lemma StepToRest(s: State, g: nat) returns (step: Step)
    requires CountersExact(s) && g < |s.groups| && s.groups[g].leaked < s.groups[g].quota && !Enabled(s, Check(g))
    ensures Enabled(s, step)
    ensures var t := Apply(s, step);
            && g < |t.groups| && t.groups[g].leaked == s.groups[g].leaked && t.groups[g].quota == s.groups[g].quota
            && (Rank(t.worker) < Rank(s.worker) ||
                (t.worker == s.worker &&
                 2 * |t.groups[g].flying| + |t.groups[g].returning| <
                 2 * |s.groups[g].flying| + |s.groups[g].returning|))
  {
    if s.worker.Idle? {
      step := GroupToRest(s, g);
    } else {
      step := WorkerToRest(s, g);
    }
  }

  lemma WorkerToRest(s: State, g: nat) returns (step: Step)
    requires CountersExact(s) && g < |s.groups| && !s.worker.Idle?
    ensures Enabled(s, step)
    ensures var t := Apply(s, step);
            && g < |t.groups| && t.groups[g].leaked == s.groups[g].leaked && t.groups[g].quota == s.groups[g].quota
            && Rank(t.worker) < Rank(s.worker)
  {
    hide Best, Filter, Without, Balanced;
    step := match s.worker
      case Checked(_) => Pop
      case Holding(_, _) => Begin
      case Sending(_, _) => Accept
      case _ => FailDone;
  }

  lemma GroupToRest(s: State, g: nat) returns (step: Step)
    requires CountersExact(s) && g < |s.groups| && s.groups[g].leaked < s.groups[g].quota && !Enabled(s, Check(g))
    requires s.worker.Idle?
    ensures Enabled(s, step)
    ensures var t := Apply(s, step);
            && g < |t.groups| && t.groups[g].leaked == s.groups[g].leaked && t.groups[g].quota == s.groups[g].quota
            && t.worker == s.worker
            && 2 * |t.groups[g].flying| + |t.groups[g].returning| <
               2 * |s.groups[g].flying| + |s.groups[g].returning|
  {
    hide Best, Filter, Without;
    assert Balanced(s.groups[g], s.worker, g);
    var a := s.groups[g];
    if a.flying != multiset{} {
      var r :| r in a.flying;
      step := Respond(g, r);
    } else {
      var r :| r in a.returning;
      step := Return(g, r);
    }
  }

  lemma {:induction false} ToRest(s: State, g: nat) returns (steps: seq<Step>, t: State)
    requires Inv(s) && g < |s.groups| && s.groups[g].leaked < s.groups[g].quota
    ensures Runs(s, steps, t) && Enabled(t, Check(g))
    decreases Rank(s.worker), 2 * |s.groups[g].flying| + |s.groups[g].returning|
  {
    steps, t := [], s;
    assert CountersExact(s);
    hide Inv, Apply, Enabled, CountersExact;
    if !Enabled(s, Check(g)) {
      var step := StepToRest(s, g);
      StepInv(s, step);
      var rest, u := ToRest(Apply(s, step), g);
      RunsCons(s, step, rest, u);
      steps, t := [step] + rest, u;
    }
  }

  /** From every reachable state: the group can still be served at some time exactly when not all quota has leaked. */
  lemma ServedExactly(s: State, g: nat)
    requires Reachable(s) && g < |s.groups|
    ensures (exists steps, t :: Runs(s, steps, t) && Enabled(t, Check(g))) <==> s.groups[g].leaked < s.groups[g].quota
  {
    hide Reachable, Inv, Runs;
    ReachableInv(s);
    if s.groups[g].leaked < s.groups[g].quota {
      var steps, t := ToRest(s, g);
    } else if steps, t :| Runs(s, steps, t) && Enabled(t, Check(g)) {
      AllLeaked(s, g);
      StarvedForever(s, steps, t, g);
    }
  }

  lemma AllLeaked(s: State, g: nat)
    requires Inv(s) && g < |s.groups| && s.groups[g].leaked >= s.groups[g].quota
    ensures Starved(s, g)
  {
    hide EachInOnePlace, CallsExact;
    assert Balanced(s.groups[g], s.worker, g);
  }

  // It happens: with a quota of one, a single unready send starves the group with its request still queued.

  function OneGroup(queue: seq<Request>, counter: nat, leaked: nat, w: Worker, accepted: set<Request>): State {
    State([Group(1, counter, queue, multiset{}, multiset{}, multiset{}, leaked)], w, multiset{}, accepted, multiset{})
  }

  lemma RunsCons(s: State, step: Step, rest: seq<Step>, t: State)
    requires Enabled(s, step) && Runs(Apply(s, step), rest, t)
    ensures Runs(s, [step] + rest, t)
  {
    hide Enabled, Apply;
    assert ([step] + rest)[1..] == rest;
  }

  lemma ExampleSubmit(r: Request)
    ensures Enabled(OneGroup([], 0, 0, Idle, {}), Submit(0, r))
    ensures Apply(OneGroup([], 0, 0, Idle, {}), Submit(0, r)) == OneGroup([r], 0, 0, Idle, {r})
  {
    assert [] + [r] == [r];
  }

  lemma ExampleSend(r: Request)
    ensures var s := OneGroup([r], 0, 0, Idle, {r});
            Enabled(s, Check(0)) && Apply(s, Check(0)) == OneGroup([r], 0, 0, Checked(0), {r})
    ensures var s := OneGroup([r], 0, 0, Checked(0), {r});
            Enabled(s, Pop) && Apply(s, Pop) == OneGroup([], 0, 0, Holding(0, r), {r})
    ensures var s := OneGroup([], 0, 0, Holding(0, r), {r});
            Enabled(s, Begin) && Apply(s, Begin) == OneGroup([], 1, 0, Sending(0, r), {r})
  {
    assert Without([r], Best([r])) == [];
  }

  lemma ExampleNotReady(r: Request)
    ensures var s := OneGroup([], 1, 0, Sending(0, r), {r});
            Enabled(s, NotReady) && Apply(s, NotReady) == OneGroup([r], 1, 1, Idle, {r})
  {
    assert [] + [r] == [r];
  }

  lemma StarvationExample(r: Request)
    ensures Init(OneGroup([], 0, 0, Idle, {})) && Starved(OneGroup([r], 1, 1, Idle, {r}), 0)
    ensures Runs(OneGroup([], 0, 0, Idle, {}), [Submit(0, r)] + ([Check(0)] + ([Pop] + ([Begin] + ([NotReady] + [])))),
                 OneGroup([r], 1, 1, Idle, {r}))
  {
    var t := OneGroup([r], 1, 1, Idle, {r});
    ExampleSubmit(r);
    ExampleSend(r);
    ExampleNotReady(r);
    assert Init(OneGroup([], 0, 0, Idle, {})) && Starved(t, 0) && Runs(t, [], t);
    hide *;
    RunsCons(OneGroup([], 1, 0, Sending(0, r), {r}), NotReady, [], t);
    RunsCons(OneGroup([], 0, 0, Holding(0, r), {r}), Begin, [NotReady] + [], t);
    RunsCons(OneGroup([r], 0, 0, Checked(0), {r}), Pop, [Begin] + ([NotReady] + []), t);
    RunsCons(OneGroup([r], 0, 0, Idle, {r}), Check(0), [Pop] + ([Begin] + ([NotReady] + [])), t);
    RunsCons(OneGroup([], 0, 0, Idle, {}), Submit(0, r), [Check(0)] + ([Pop] + ([Begin] + ([NotReady] + []))), t);
  }

  // Choosing the group.

  /** The last group whose selector takes the request; the first group, which takes all, is asked last. */
  method SelectGroup(selectors: seq<Request -> bool>, r: Request) returns (found: bool, g: nat)
    ensures found <==> exists i :: 0 <= i < |selectors| && selectors[i](r)
    ensures found ==> g < |selectors| && selectors[g](r) && forall i :: g < i < |selectors| ==> !selectors[i](r)
    ensures |selectors| > 0 && selectors[0](r) ==> found
  {
    found, g := false, 0;
    for i := |selectors| downto 0
      invariant forall j :: i <= j < |selectors| ==> !selectors[j](r)
    {
      if selectors[i](r) {
        return true, i;
      }
    }
  }
}
