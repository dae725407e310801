/**
 Request coalescing: callers that ask for the same key while a request for it is under way share one execution.

 Every section under the lock and every callback is one step; a run is any interleaving of steps of any number
 of threads. A provider may call back at any time and any number of times.
 */
module MultiRequestContext {
  type Key = string
  type CallerId = nat

  /** A response names the execution that produced it; a cancelled caller gets the prepared response instead. */
  datatype Response = CancelledResponse | Answer(execution: nat, value: int)

  /**
   A context is live while it can be found under its key. A completion takes it out and then runs the callbacks
   one by one; a cancellation takes it out, then runs the canceller's callback, if it is in the context at all.
   The last two phases record whose token was used.
   */
  datatype Phase =
    | Live
    | Delivering(response: Response)
    | CancelPending(canceller: CallerId)
    | Dropped(canceller: CallerId)

  /** `executions` counts how often the request of the context has been executed. */
  datatype Context = Context(key: Key, callbacks: set<CallerId>, phase: Phase, executions: nat)

  /**
   `owner` maps each caller to the context it joined, `calls` to the responses its callback has got. `starting` are
   the contexts that a caller has made and is, outside the lock, about to execute, `aborted` those whose execution
   a cancellation has told to stop.
   */
  datatype State = State(
    active: map<Key, nat>, contexts: seq<Context>, starting: set<nat>, aborted: set<nat>,
    owner: map<CallerId, nat>, calls: map<CallerId, seq<Response>>)

  datatype Step =
    | Associate(key: Key, id: CallerId)
    | Execute(context: nat)
    | Complete(execution: nat, value: int)
    | Deliver(context: nat, id: CallerId)
    | Cancel(id: CallerId)
    | CancelCallback(context: nat)

  const INITIAL := State(map[], [], {}, {}, map[], map[])

  predicate Enabled(s: State, step: Step) {
    match step
    case Associate(_, id) => id !in s.owner && id !in s.calls
    case Execute(c) => c in s.starting && c < |s.contexts|
    case Complete(e, _) => e < |s.contexts| && s.contexts[e].executions > 0
    case Deliver(c, id) =>
      c < |s.contexts| && s.contexts[c].phase.Delivering? && id in s.contexts[c].callbacks && id in s.calls
    case Cancel(id) => id in s.owner && s.owner[id] < |s.contexts|
    case CancelCallback(c) =>
      c < |s.contexts| && s.contexts[c].phase.CancelPending? && s.contexts[c].phase.canceller in s.calls
  }

  function AssociateStep(s: State, key: Key, id: CallerId): State {
    if key in s.active && s.active[key] < |s.contexts| then
      var c := s.active[key];
      s.(contexts := s.contexts[c := s.contexts[c].(callbacks := s.contexts[c].callbacks + {id})],
         owner := s.owner[id := c], calls := s.calls[id := []])
    else
      s.(active := s.active[key := |s.contexts|], contexts := s.contexts + [Context(key, {id}, Live, 0)],
         starting := s.starting + {|s.contexts|}, owner := s.owner[id := |s.contexts|], calls := s.calls[id := []])
  }

  /** Takes the context under the key out of the map. */
  function Detach(s: State, key: Key, phase: Phase): State
    requires key in s.active && s.active[key] < |s.contexts|
  {
    var c := s.active[key];
    s.(active := s.active - {key}, contexts := s.contexts[c := s.contexts[c].(phase := phase)])
  }

  function CompleteStep(s: State, e: nat, v: int): State
    requires e < |s.contexts|
  {
    var key := s.contexts[e].key;
    if key in s.active && s.active[key] < |s.contexts| then Detach(s, key, Delivering(Answer(e, v))) else s
  }

  /** Runs a callback and forgets it. */
  function CallStep(s: State, c: nat, id: CallerId, r: Response, phase: Phase): State
    requires c < |s.contexts| && id in s.calls
  {
    s.(contexts := s.contexts[c := s.contexts[c].(callbacks := s.contexts[c].callbacks - {id}, phase := phase)],
       calls := s.calls[id := s.calls[id] + [r]])
  }

  function CancelStep(s: State, id: CallerId): State
    requires id in s.owner && s.owner[id] < |s.contexts|
  {
    var key := s.contexts[s.owner[id]].key;
    if key in s.active && s.active[key] < |s.contexts| then
      Detach(s, key, if id in s.contexts[s.active[key]].callbacks then CancelPending(id) else Dropped(id))
    else s
  }

  function Apply(s: State, step: Step): State
    requires Enabled(s, step)
  {
    match step
    case Associate(key, id) => AssociateStep(s, key, id)
    case Execute(c) =>
      s.(contexts := s.contexts[c := s.contexts[c].(executions := s.contexts[c].executions + 1)],
         starting := s.starting - {c})
    case Complete(e, v) => CompleteStep(s, e, v)
    case Deliver(c, id) => CallStep(s, c, id, s.contexts[c].phase.response, s.contexts[c].phase)
    case Cancel(id) => CancelStep(s, id)
    case CancelCallback(c) =>
      var id := s.contexts[c].phase.canceller;
      CallStep(s, c, id, CancelledResponse, Dropped(id)).(
        aborted := s.aborted + if |s.contexts[c].callbacks| <= 1 then {c} else {})
  }

  ghost predicate Runs(s: State, steps: seq<Step>, t: State)
    decreases |steps|
  {
    if steps == [] then s == t
    else Enabled(s, steps[0]) && Runs(Apply(s, steps[0]), steps[1..], t)
  }

  ghost predicate Reachable(t: State) {
    exists steps :: Runs(INITIAL, steps, t)
  }

  // The invariant.

  /** What a caller of the context has been called with so far. */
  function Expected(x: Context, id: CallerId): seq<Response> {
    match x.phase
    case Live => []
    case Delivering(r) => if id in x.callbacks then [] else [r]
    case CancelPending(_) => []
    case Dropped(canceller) => if canceller == id then [CancelledResponse] else []
  }

  /** The map finds a live context of the key. */
  ghost predicate KeyFine(s: State, k: Key) {
    k in s.active && s.active[k] < |s.contexts| &&
    s.contexts[s.active[k]].key == k && s.contexts[s.active[k]].phase.Live?
  }

  /** A live context is found under its key; a context is executed once, and waits only for callers that joined it. */
  ghost predicate ContextFine(s: State, c: nat) {
    && c < |s.contexts|
    && (s.contexts[c].phase.Live? ==> s.contexts[c].key in s.active && s.active[s.contexts[c].key] == c)
    && (forall id :: id in s.contexts[c].callbacks ==> id in s.owner && s.owner[id] == c)
    && s.contexts[c].executions == (if c in s.starting then 0 else 1)
    && (s.contexts[c].phase.Live? || s.contexts[c].phase.CancelPending? ==> s.contexts[c].callbacks != {})
    && (c in s.aborted <==> s.contexts[c].phase.Dropped? && s.contexts[c].callbacks == {})
    && (s.contexts[c].phase.CancelPending? ==> s.contexts[c].phase.canceller in s.contexts[c].callbacks)
  }

  /** A caller is waited for until the first callback of its context runs, and has been called as expected. */
  ghost predicate CallerFine(s: State, id: CallerId) {
    && id in s.owner && s.owner[id] < |s.contexts| && id in s.calls
    && (s.contexts[s.owner[id]].phase.Live? || s.contexts[s.owner[id]].phase.CancelPending? ==>
          id in s.contexts[s.owner[id]].callbacks)
    && (s.contexts[s.owner[id]].phase.Dropped? ==>
          (id in s.contexts[s.owner[id]].callbacks <==> id != s.contexts[s.owner[id]].phase.canceller))
    && s.calls[id] == Expected(s.contexts[s.owner[id]], id)
  }

  ghost predicate Inv(s: State) {
    && s.calls.Keys == s.owner.Keys
    && (forall c :: c in s.starting ==> c < |s.contexts|)
    && (forall c :: c in s.aborted ==> c < |s.contexts|)
    && (forall k :: k in s.active ==> KeyFine(s, k))
    && (forall c: nat :: c < |s.contexts| ==> ContextFine(s, c))
    && (forall id :: id in s.owner ==> CallerFine(s, id))
  }

  lemma KeyStep(s: State, step: Step, k: Key)
    requires Inv(s) && Enabled(s, step) && k in Apply(s, step).active
    ensures KeyFine(Apply(s, step), k)
  {
    hide ContextFine, CallerFine;
    if k in s.active {
      assert KeyFine(s, k);
    }
    if step.Complete? && s.contexts[step.execution].key in s.active {
      assert KeyFine(s, s.contexts[step.execution].key);
    } else if step.Cancel? && s.contexts[s.owner[step.id]].key in s.active {
      assert KeyFine(s, s.contexts[s.owner[step.id]].key);
    }
  }

  lemma ContextStep(s: State, step: Step, c: nat)
    requires Inv(s) && Enabled(s, step) && c < |Apply(s, step).contexts|
    ensures ContextFine(Apply(s, step), c)
  {
    if step.Deliver? || step.CancelCallback? {
      CalledContext(s, step, c);
    } else if step.Associate? {
      JoinedContext(s, step, c);
    } else {
      DetachedContext(s, step, c);
    }
  }

  lemma JoinedContext(s: State, step: Step, c: nat)
    requires Inv(s) && Enabled(s, step) && step.Associate? && c < |Apply(s, step).contexts|
    ensures ContextFine(Apply(s, step), c)
  {
    hide CallerFine;
    assert c < |s.contexts| ==> ContextFine(s, c);
    assert step.key in s.active ==> KeyFine(s, step.key);
  }

  lemma DetachedContext(s: State, step: Step, c: nat)
    requires Inv(s) && Enabled(s, step) && (step.Execute? || step.Complete? || step.Cancel?) && c < |s.contexts|
    ensures ContextFine(Apply(s, step), c)
  {
    hide CallerFine;
    assert ContextFine(s, c);
    if !step.Execute? {
      var key := s.contexts[if step.Complete? then step.execution else s.owner[step.id]].key;
      assert key in s.active ==> KeyFine(s, key);
    }
  }

  lemma CalledContext(s: State, step: Step, c: nat)
    requires Inv(s) && Enabled(s, step) && (step.Deliver? || step.CancelCallback?) && c < |s.contexts|
    ensures ContextFine(Apply(s, step), c)
  {
    hide CallerFine, KeyFine;
    assert ContextFine(s, c);
    if step.CancelCallback? {
      assert ContextFine(s, step.context);
      OnlyCaller(s.contexts[step.context].callbacks, s.contexts[step.context].phase.canceller);
    }
  }

  lemma OnlyCaller(callbacks: set<CallerId>, id: CallerId)
    requires id in callbacks
    ensures |callbacks| <= 1 <==> callbacks - {id} == {}
  {
    if callbacks - {id} == {} {
      assert callbacks == {id};
    } else {
      assert |callbacks - {id}| == |callbacks| - 1;
    }
  }

  lemma CallerStep(s: State, step: Step, id: CallerId)
    requires Inv(s) && Enabled(s, step) && id in Apply(s, step).owner
    ensures CallerFine(Apply(s, step), id)
  {
    if id in s.owner {
      assert CallerFine(s, id);
    }
    match step
    case Associate(key, _) =>
      assert key in s.active ==> KeyFine(s, key);
    case Execute(d) =>
    case Complete(e, v) =>
      assert s.contexts[e].key in s.active ==> KeyFine(s, s.contexts[e].key);
    case Deliver(d, i) =>
      assert ContextFine(s, d);
    case Cancel(i) =>
      var key := s.contexts[s.owner[i]].key;
      assert key in s.active ==> KeyFine(s, key) && ContextFine(s, s.active[key]);
    case CancelCallback(d) =>
      assert ContextFine(s, d);
  }

  lemma FieldsStep(s: State, step: Step)
    requires Inv(s) && Enabled(s, step)
    ensures var t := Apply(s, step);
            t.calls.Keys == t.owner.Keys && (forall c :: c in t.starting ==> c < |t.contexts|) &&
            (forall c :: c in t.aborted ==> c < |t.contexts|)
  {
    hide KeyFine, ContextFine, CallerFine;
  }

  lemma StepInv(s: State, step: Step)
    requires Inv(s) && Enabled(s, step)
    ensures Inv(Apply(s, step))
  {
    hide Apply, Enabled, KeyFine, ContextFine, CallerFine;
    var t := Apply(s, step);
    FieldsStep(s, step);
    forall k | k in t.active
      ensures KeyFine(t, k)
    {
      KeyStep(s, step, k);
    }
    forall c: nat | c < |t.contexts|
      ensures ContextFine(t, c)
    {
      ContextStep(s, step, c);
    }
    forall id | id in t.owner
      ensures CallerFine(t, id)
    {
      CallerStep(s, step, id);
    }
  }

  lemma {:induction false} RunInv(s: State, steps: seq<Step>, t: State)
    requires Inv(s) && Runs(s, steps, t)
    ensures Inv(t)
    decreases |steps|
  {
    hide Inv, Enabled, Apply;
    if steps != [] {
      StepInv(s, steps[0]);
      RunInv(Apply(s, steps[0]), steps[1..], t);
    }
  }

  lemma ReachableInv(t: State)
    requires Reachable(t)
    ensures Inv(t)
  {
    var steps :| Runs(INITIAL, steps, t);
    assert Inv(INITIAL);
    hide Runs;
    RunInv(INITIAL, steps, t);
  }

  // What callers can rely on.

  /** No callback ever runs twice, whatever is completed and cancelled in whatever order. */
  lemma AtMostOnce(t: State, id: CallerId)
    requires Reachable(t) && id in t.calls
    ensures |t.calls[id]| <= 1
  {
    hide Reachable;
    ReachableInv(t);
    assert t.calls[id] == Expected(t.contexts[t.owner[id]], id);
  }

  /** A key never has two live contexts. */
  lemma OneLiveContext(t: State, c: nat, d: nat)
    requires Reachable(t) && c < |t.contexts| && d < |t.contexts|
    requires t.contexts[c].phase.Live? && t.contexts[d].phase.Live? && t.contexts[c].key == t.contexts[d].key
    ensures c == d
  {
    hide Reachable;
    ReachableInv(t);
    assert ContextFine(t, c) && ContextFine(t, d);
  }

  /** Asking for a key makes a context to execute exactly when none is live under the key; otherwise it joins that. */
  lemma JoinOrStart(t: State, key: Key, id: CallerId)
    requires Reachable(t) && Enabled(t, Associate(key, id))
    ensures var u := Apply(t, Associate(key, id));
            && |u.contexts| == |t.contexts| + (if key in t.active then 0 else 1)
            && u.starting == t.starting + (if key in t.active then {} else {|t.contexts|})
            && u.owner[id] < |u.contexts| && u.contexts[u.owner[id]].key == key
            && u.contexts[u.owner[id]].phase.Live? && id in u.contexts[u.owner[id]].callbacks
            && (key in t.active ==> u.owner[id] == t.active[key])
  {
    hide Reachable;
    ReachableInv(t);
  }

  /**
   In every interleaving the request of a context is executed at most once, however many callers join it; it has
   been executed exactly when the caller who made the context is done with that.
   */
  lemma ExecutedOnce(t: State, c: nat)
    requires Reachable(t) && c < |t.contexts|
    ensures t.contexts[c].executions <= 1
    ensures t.contexts[c].executions == 1 <==> c !in t.starting
  {
    hide Reachable;
    ReachableInv(t);
    assert ContextFine(t, c);
  }

  /** And it will be: nothing but its execution, and no cancellation either, stops a context from being executed. */
  lemma {:induction false} StillToExecute(s: State, steps: seq<Step>, t: State, c: nat)
    requires Runs(s, steps, t) && c in s.starting && c < |s.contexts| && Execute(c) !in steps
    ensures c in t.starting && Enabled(t, Execute(c))
    decreases |steps|
  {
    if steps != [] {
      assert steps[0] in steps;
      assert c in Apply(s, steps[0]).starting && c < |Apply(s, steps[0]).contexts|;
      hide Apply, Enabled;
      StillToExecute(Apply(s, steps[0]), steps[1..], t, c);
    }
  }

  /** A context that was completed, and whose callbacks have all run, gave its one response to all its callers. */
  lemma CompletedReachesAll(t: State, c: nat, id: CallerId)
    requires Reachable(t) && c < |t.contexts|
    requires t.contexts[c].phase.Delivering? && t.contexts[c].callbacks == {}
    requires id in t.owner && t.owner[id] == c
    ensures id in t.calls && t.calls[id] == [t.contexts[c].phase.response]
  {
    hide Reachable;
    ReachableInv(t);
  }

  /** No step of the threads that took the context out is left to do. */
  predicate Settled(x: Context) {
    x.phase.Dropped? || (x.phase.Delivering? && x.callbacks == {})
  }

  /** A caller is left without any answer exactly when someone else's cancellation took its context out. */
  lemma LostExactlyWhenDroppedByAnother(t: State, id: CallerId)
    requires Reachable(t) && id in t.owner
    ensures id in t.calls && t.owner[id] < |t.contexts|
    ensures Settled(t.contexts[t.owner[id]]) ==>
              (t.calls[id] == [] <==>
               t.contexts[t.owner[id]].phase.Dropped? && t.contexts[t.owner[id]].phase.canceller != id)
  {
    hide Reachable;
    ReachableInv(t);
    assert t.calls[id] == Expected(t.contexts[t.owner[id]], id);
  }

  /** `id` is the one whose token took the context out. */
  predicate CancelledBy(s: State, c: nat, id: CallerId) {
    c < |s.contexts| && (s.contexts[c].phase.CancelPending? || s.contexts[c].phase.Dropped?) &&
    s.contexts[c].phase.canceller == id
  }

  lemma CancelledByStep(s: State, step: Step, c: nat, id: CallerId)
    requires Enabled(s, step) && CancelledBy(Apply(s, step), c, id)
    ensures step == Cancel(id) || CancelledBy(s, c, id)
  {
  }

  /** That is what happened: the canceller on record has used its token in the run. */
  lemma {:induction false} CancellerCancelled(s: State, steps: seq<Step>, t: State, c: nat, id: CallerId)
    requires Runs(s, steps, t) && CancelledBy(t, c, id)
    ensures Cancel(id) in steps || CancelledBy(s, c, id)
    decreases |steps|
  {
    hide CancelledBy, Apply, Enabled;
    if steps != [] {
      CancellerCancelled(Apply(s, steps[0]), steps[1..], t, c, id);
      if CancelledBy(Apply(s, steps[0]), c, id) {
        CancelledByStep(s, steps[0], c, id);
      }
      assert steps == [steps[0]] + steps[1..];
    }
  }

  /** A cancellation stops the execution exactly when it was the context's only caller who cancelled. */
  lemma AbortedExactly(t: State, c: nat)
    requires Reachable(t) && c < |t.contexts|
    ensures c in t.aborted <==>
            t.contexts[c].phase.Dropped? && forall id :: id in t.owner && t.owner[id] == c ==>
                                              id == t.contexts[c].phase.canceller
  {
    hide Reachable;
    ReachableInv(t);
    assert ContextFine(t, c);
    forall id | id in t.owner && t.owner[id] == c
      ensures CallerFine(t, id)
    {
    }
  }

  // Once dropped, dropped for good.

  lemma DroppedStep(s: State, step: Step, c: nat)
    requires Inv(s) && Enabled(s, step) && c < |s.contexts| && s.contexts[c].phase.Dropped?
    ensures var t := Apply(s, step); c < |t.contexts| && t.contexts[c].phase == s.contexts[c].phase
    ensures var t := Apply(s, step); forall id :: id in s.owner ==> id in t.owner && t.owner[id] == s.owner[id]
  {
  }

  /** The callers of a dropped context, but for the canceller, are never called in any continuation. */
  lemma {:induction false} DroppedForever(s: State, steps: seq<Step>, t: State, id: CallerId)
    requires Inv(s) && Runs(s, steps, t) && id in s.owner && s.owner[id] < |s.contexts|
    requires s.contexts[s.owner[id]].phase.Dropped? && s.contexts[s.owner[id]].phase.canceller != id
    ensures id in t.calls && t.calls[id] == []
    decreases |steps|
  {
    if steps == [] {
      assert s.calls[id] == Expected(s.contexts[s.owner[id]], id);
    } else {
      StepInv(s, steps[0]);
      DroppedStep(s, steps[0], s.owner[id]);
      hide Inv, Apply, Enabled;
      DroppedForever(Apply(s, steps[0]), steps[1..], t, id);
    }
  }

  /** A completion reaches its own context exactly when that is still live; otherwise it takes the key's newer one. */
  lemma CompletionTarget(t: State, e: nat, v: int)
    requires Reachable(t) && Enabled(t, Complete(e, v))
    ensures var u := Apply(t, Complete(e, v)); var key := t.contexts[e].key;
            && (t.contexts[e].phase.Live? <==> key in t.active && t.active[key] == e)
            && (t.contexts[e].phase.Live? ==> u.contexts[e].phase == Delivering(Answer(e, v)))
            && (key in t.active && !t.contexts[e].phase.Live? ==>
                  t.active[key] != e && t.active[key] < |u.contexts| &&
                  u.contexts[t.active[key]].phase == Delivering(Answer(e, v)))
  {
    hide Reachable;
    ReachableInv(t);
    assert ContextFine(t, e);
    assert t.contexts[e].key in t.active ==> KeyFine(t, t.contexts[e].key);
  }

  /** A token used while its own context is live takes that out, whoever shares it, and nothing else. */
  lemma CancelTakesOut(t: State, id: CallerId)
    requires Reachable(t) && Enabled(t, Cancel(id)) && t.contexts[t.owner[id]].phase.Live?
    ensures var c := t.owner[id]; var u := Apply(t, Cancel(id));
            && u.active == t.active - {t.contexts[c].key}
            && u.contexts == t.contexts[c := t.contexts[c].(phase := CancelPending(id))]
            && u.calls == t.calls && u.owner == t.owner && u.starting == t.starting
  {
    hide Reachable;
    ReachableInv(t);
    assert ContextFine(t, t.owner[id]) && CallerFine(t, id);
  }

  /** The callback that follows gives the canceller the prepared response, forgets it, and calls nobody else. */
  lemma CancelAnswers(t: State, id: CallerId, c: nat)
    requires Reachable(t) && c < |t.contexts| && t.contexts[c].phase == CancelPending(id)
    ensures Enabled(t, CancelCallback(c))
    ensures var u := Apply(t, CancelCallback(c));
            && u.calls == t.calls[id := [CancelledResponse]] && u.active == t.active
            && u.contexts == t.contexts[c := t.contexts[c].(callbacks := t.contexts[c].callbacks - {id},
                                                            phase := Dropped(id))]
  {
    hide Reachable;
    ReachableInv(t);
    assert ContextFine(t, c) && CallerFine(t, id);
    assert t.calls[id] == [];
    assert [] + [CancelledResponse] == [CancelledResponse];
  }

  /** A token used when no context is live under its key does nothing. */
  lemma CancelTooLate(t: State, id: CallerId)
    requires Enabled(t, Cancel(id)) && t.contexts[t.owner[id]].key !in t.active
    ensures Apply(t, Cancel(id)) == t
  {
  }

  /** A token used after its request's context has gone drops the key's newer context and calls nobody. */
  lemma StaleTokenDropsOthers(t: State, id: CallerId)
    requires Reachable(t) && Enabled(t, Cancel(id)) && !t.contexts[t.owner[id]].phase.Live?
    requires t.contexts[t.owner[id]].key in t.active
    ensures var u := Apply(t, Cancel(id)); var c := t.active[t.contexts[t.owner[id]].key];
            c != t.owner[id] && c < |u.contexts| && u.contexts[c].phase == Dropped(id) && u.calls == t.calls
  {
    hide Reachable;
    ReachableInv(t);
    var key := t.contexts[t.owner[id]].key;
    assert KeyFine(t, key) && ContextFine(t, t.active[key]) && CallerFine(t, id);
  }

  // Both happen: after a cancellation the old execution answers for the new context under the key.

  const EXAMPLE: seq<Step> := [Associate("k", 0), Execute(0), Cancel(0), Associate("k", 1), Complete(0, 7)]

  /** The state after the first `n` steps of the example. */
  function ExampleState(n: nat): State {
    var earlier := Context("k", {0}, CancelPending(0), 1);
    match n
    case 0 => INITIAL
    case 1 => State(map["k" := 0], [Context("k", {0}, Live, 0)], {0}, {}, map[0 := 0], map[0 := []])
    case 2 => State(map["k" := 0], [Context("k", {0}, Live, 1)], {}, {}, map[0 := 0], map[0 := []])
    case 3 => State(map[], [earlier], {}, {}, map[0 := 0], map[0 := []])
    case 4 => State(map["k" := 1], [earlier, Context("k", {1}, Live, 0)], {1}, {},
                    map[0 := 0, 1 := 1], map[0 := [], 1 := []])
    case _ => State(map[], [earlier, Context("k", {1}, Delivering(Answer(0, 7)), 0)], {1}, {},
                    map[0 := 0, 1 := 1], map[0 := [], 1 := []])
  }

  lemma ExampleStep(n: nat)
    requires n < 5
    ensures Enabled(ExampleState(n), EXAMPLE[n]) && Apply(ExampleState(n), EXAMPLE[n]) == ExampleState(n + 1)
  {
    if n < 2 {
      ExampleStart(n);
    } else if n < 4 {
      ExampleCancel(n);
    } else {
      assert EXAMPLE[4] == Complete(0, 7);
    }
  }

  lemma ExampleStart(n: nat)
    requires n < 2
    ensures Enabled(ExampleState(n), EXAMPLE[n]) && Apply(ExampleState(n), EXAMPLE[n]) == ExampleState(n + 1)
  {
    assert EXAMPLE[0] == Associate("k", 0) && EXAMPLE[1] == Execute(0);
  }

  lemma ExampleCancel(n: nat)
    requires 2 <= n < 4
    ensures Enabled(ExampleState(n), EXAMPLE[n]) && Apply(ExampleState(n), EXAMPLE[n]) == ExampleState(n + 1)
  {
    assert EXAMPLE[2] == Cancel(0) && EXAMPLE[3] == Associate("k", 1);
  }

  lemma {:induction false} ExampleRuns(n: nat)
    requires n <= 5
    ensures Runs(ExampleState(n), EXAMPLE[n..], ExampleState(5))
    decreases 5 - n
  {
    hide ExampleState, Apply, Enabled;
    if n < 5 {
      ExampleStep(n);
      ExampleRuns(n + 1);
      assert EXAMPLE[n..][1..] == EXAMPLE[n + 1..];
    }
  }

  lemma StaleAnswerExample()
    ensures exists t :: Runs(INITIAL, EXAMPLE, t) && |t.contexts| == 2 && t.owner == map[0 := 0, 1 := 1] &&
                        t.contexts[1].phase == Delivering(Answer(0, 7))
  {
    ExampleRuns(0);
    assert EXAMPLE[0..] == EXAMPLE && ExampleState(0) == INITIAL;
    hide Runs;
    var t := ExampleState(5);
    assert t.owner == map[0 := 0, 1 := 1] && t.contexts[1].phase == Delivering(Answer(0, 7));
  }
}
