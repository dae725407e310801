/**
 The table of pending requests, and the callbacks that the catalog client gates with it.

 A request reserves a key, hands the repository a callback, and only then stores its cancellation token under
 the key; the repository may answer at any time, several times, and before the token is stored.
 */
module PendingRequests {

  type Token = nat

  const NO_TOKEN: Token := 0

  datatype Table = Table(key: nat, requests: map<nat, Token>)

  function Generated(t: Table): Table {
    Table(t.key + 1, t.requests[t.key + 1 := NO_TOKEN])
  }

  function Inserted(t: Table, token: Token, key: nat): Table {
    if key in t.requests then t.(requests := t.requests[key := token]) else t
  }

  function Removed(t: Table, key: nat): Table {
    t.(requests := t.requests - {key})
  }

  class PendingTable {
    var key: nat
    var requestsMap: map<nat, Token>

    ghost function View(): Table
      reads this
    {
      Table(key, requestsMap)
    }

    constructor ()
      ensures View() == Table(0, map[])
    {
      key, requestsMap := 0, map[];
    }

    method GenerateRequestPlaceholder() returns (k: nat)
      modifies this
      ensures View() == Generated(old(View())) && k == key
    {
      key := key + 1;
      requestsMap := requestsMap[key := NO_TOKEN];
      k := key;
    }

    method Insert(token: Token, k: nat) returns (ok: bool)
      modifies this
      ensures View() == Inserted(old(View()), token, k) && ok == (k in old(requestsMap))
    {
      if k !in requestsMap {
        return false;
      }
      requestsMap := requestsMap[k := token];
      return true;
    }

    method Remove(k: nat) returns (ok: bool)
      modifies this
      ensures View() == Removed(old(View()), k) && ok == (k in old(requestsMap))
    {
      if k in requestsMap {
        requestsMap := requestsMap - {k};
        return true;
      }
      assert requestsMap == requestsMap - {k};
      return false;
    }

    /** Cancels the token of every pending request once, from a copy of the table, and leaves the table as it is. */
    method CancelPendingRequests() returns (cancelled: map<nat, Token>)
      ensures cancelled == requestsMap
    {
      var copy := requestsMap;
      var todo := copy.Keys;
      cancelled := map[];
      while todo != {}
        invariant todo <= copy.Keys && cancelled == map k | k in copy && k !in todo :: copy[k]
        decreases todo
      {
        var k :| k in todo;
        cancelled := cancelled[k := copy[k]];
        todo := todo - {k};
      }
    }
  }

  // The client.

  /**
   What the callback given to the repository does: `Gated` runs the user's callback if it could remove the key,
   `Update` (the online refresh of a cached answer) only removes the key, `Prefetch` runs the user's callback only.
   */
  datatype Kind = Gated | Update | Prefetch

  /** `kinds` are the keys issued, `answered` those the repository has answered, `userCalls` the callbacks run. */
  datatype State = State(table: Table, kinds: map<nat, Kind>, answered: set<nat>, userCalls: multiset<nat>)

  datatype Step =
    | Issue(kind: Kind)
    | Answer(key: nat)
    | Store(key: nat, token: Token)

  const INITIAL := State(Table(0, map[]), map[], {}, multiset{})

  predicate Enabled(s: State, step: Step) {
    match step
    case Issue(_) => true
    case Answer(k) => k in s.kinds
    case Store(k, _) => k in s.kinds
  }

  function Apply(s: State, step: Step): State
    requires Enabled(s, step)
  {
    match step
    case Issue(kind) => s.(table := Generated(s.table), kinds := s.kinds[s.table.key + 1 := kind])
    case Store(k, token) => s.(table := Inserted(s.table, token, k))
    case Answer(k) =>
      var calls := s.kinds[k].Prefetch? || (s.kinds[k].Gated? && k in s.table.requests);
      s.(table := if s.kinds[k].Prefetch? then s.table else Removed(s.table, k),
         answered := s.answered + {k},
         userCalls := s.userCalls + if calls then multiset{k} else multiset{})
  }

  ghost predicate Runs(s: State, steps: seq<Step>, t: State)
    decreases |steps|
  {
    if steps == [] then s == t
    else Enabled(s, steps[0]) && Runs(Apply(s, steps[0]), steps[1..], t)
  }

  ghost predicate Reachable(t: State) {
    exists steps :: Runs(INITIAL, steps, t)
  }

  /** The keys still in the table: issued, and either not answered or never to be removed. */
  predicate Outstanding(s: State, k: nat) {
    k in s.kinds && (k !in s.answered || s.kinds[k].Prefetch?)
  }

  ghost predicate Inv(s: State) {
    && (forall k :: k in s.kinds ==> k <= s.table.key)
    && (forall k :: k in s.answered ==> k in s.kinds)
    && (forall k :: k in s.table.requests <==> Outstanding(s, k))
    && (forall k :: k in s.userCalls ==> k in s.kinds)
    && (forall k :: k in s.kinds && s.kinds[k].Gated? ==> s.userCalls[k] == if k in s.answered then 1 else 0)
    && (forall k :: k in s.kinds && s.kinds[k].Update? ==> s.userCalls[k] == 0)
  }

  lemma StepInv(s: State, step: Step)
    requires Inv(s) && Enabled(s, step)
    ensures Inv(Apply(s, step))
  {
  }

  lemma {:induction false} RunInv(s: State, steps: seq<Step>, t: State)
    requires Inv(s) && Runs(s, steps, t)
    ensures Inv(t)
    decreases |steps|
  {
    hide Inv, Apply;
    if steps != [] {
      StepInv(s, steps[0]);
      RunInv(Apply(s, steps[0]), steps[1..], t);
    }
  }

  lemma ReachableInv(t: State)
    requires Reachable(t)
    ensures Inv(t)
  {
    var steps :| Runs(INITIAL, steps, t);
    assert Inv(INITIAL);
    hide Runs;
    RunInv(INITIAL, steps, t);
  }

  /** However often the repository answers a gated request, the user's callback runs once, at the first answer. */
  lemma GatedOnce(t: State, k: nat)
    requires Reachable(t) && k in t.kinds && t.kinds[k].Gated?
    ensures t.userCalls[k] == if k in t.answered then 1 else 0
  {
    hide Reachable;
    ReachableInv(t);
  }

  /** The pending keys are exactly the unanswered ones; storing a token late never brings an answered key back. */
  lemma PendingExactly(t: State, k: nat)
    requires Reachable(t) && k in t.kinds && !t.kinds[k].Prefetch?
    ensures k in t.table.requests <==> k !in t.answered
  {
    hide Reachable;
    ReachableInv(t);
    assert k in t.table.requests <==> Outstanding(t, k);
  }

  /** The exception: a prefetch hands on the user's own callback, so its key stays in the table for good. */
  lemma PrefetchStays(t: State, k: nat)
    requires Reachable(t) && k in t.kinds && t.kinds[k].Prefetch?
    ensures k in t.table.requests
  {
    hide Reachable;
    ReachableInv(t);
    assert Outstanding(t, k);
  }

  /** And its callback runs once more at each answer. */
  lemma PrefetchUngated(t: State, k: nat)
    requires Reachable(t) && k in t.kinds
    ensures Apply(t, Answer(k)).userCalls[k] ==
            t.userCalls[k] + if t.kinds[k].Prefetch? || (t.kinds[k].Gated? && k !in t.answered) then 1 else 0
  {
    hide Reachable;
    ReachableInv(t);
    assert k in t.table.requests <==> Outstanding(t, k);
  }

  // Tokens.

  /** The token last stored under the key, `token` if none is. */
  function LastStored(steps: seq<Step>, k: nat, token: Token): Token
    decreases |steps|
  {
    if steps == [] then token
    else LastStored(steps[1..], k, if steps[0].Store? && steps[0].key == k then steps[0].token else token)
  }

  lemma {:induction false} RunTokens(s: State, steps: seq<Step>, t: State, k: nat, token: Token)
    requires Inv(s) && Runs(s, steps, t) && k in t.table.requests
    requires if k in s.table.requests then s.table.requests[k] == token else k in s.kinds || token == NO_TOKEN
    ensures t.table.requests[k] == LastStored(steps, k, token)
    decreases |steps|
  {
    if steps != [] {
      StepInv(s, steps[0]);
      var u := Apply(s, steps[0]);
      assert k in s.table.requests <==> Outstanding(s, k);
      RunTokens(u, steps[1..], t, k, if steps[0].Store? && steps[0].key == k then steps[0].token else token);
    }
  }

  /** A pending key has the token last stored under it, or none yet; a cancellation of all uses exactly those. */
  lemma PendingToken(steps: seq<Step>, t: State, k: nat)
    requires Runs(INITIAL, steps, t) && k in t.table.requests
    ensures t.table.requests[k] == LastStored(steps, k, NO_TOKEN)
  {
    RunTokens(INITIAL, steps, t, k, NO_TOKEN);
  }
}
