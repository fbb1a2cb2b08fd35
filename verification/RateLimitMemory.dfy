/**
 The in-process limiter (cache/memory/rate_limit.go): one batch operation over a map of states
 with lazy expiry and a periodic sweep.
 */
module RateLimitMemory {
  import opened Wrappers
  import opened RateLimitRequest
  import opened RateLimitApply
  import opened RateLimitHistory

  const CLEANUP_INTERVAL: int := 60 * SECOND

  datatype Store = Store(items: map<string, State>, cleanupAt: Option<int>)

  const EMPTY_STORE := Store(map[], None)

  predicate Expired(state: State, now: nat) {
    state.expiresAt.Some? && now >= state.expiresAt.value
  }

  predicate SweepDue(store: Store, now: nat) {
    store.cleanupAt.None? || now > store.cleanupAt.value
  }

  function Unexpired(items: map<string, State>, now: nat): map<string, State> {
    map key | key in items && !Expired(items[key], now) :: items[key]
  }

  function Swept(store: Store, now: nat): Store {
    if SweepDue(store, now) then Store(Unexpired(store.items, now), Some(now + CLEANUP_INTERVAL)) else store
  }

  /** The state a request sees: a missing or expired state counts as the zero state. */
  function Lookup(items: map<string, State>, now: nat, key: string): State {
    if key in items && !Expired(items[key], now) then items[key] else ZERO_STATE
  }

  function Keys(requests: seq<Request>): set<string> {
    set request | request in requests :: request.key
  }

  /** The first validation or duplicate-key error of a batch, in request order. */
  function FirstError(requests: seq<Request>): Option<Error> {
    if requests == [] then None
    else
      var front, request := requests[..|requests| - 1], requests[|requests| - 1];
      if FirstError(front).Some? then FirstError(front)
      else if !request.Valid() then request.Validate()
      else if request.key in Keys(front) then Some(DuplicateKey(request.key))
      else None
  }

  datatype Progress = Progress(denied: bool, retryAfter: int, updates: map<string, State>)

  /** One request's effect on the batch: a denial raises the delay, an admission stages an update. */
  function Advance(progress: Progress, items: map<string, State>, now: nat, request: Request): Progress
    requires request.Valid()
  {
    var decision := Apply(now, request, Lookup(items, now, request.key));
    if decision.allowed then
      progress.(updates := progress.updates[request.key := Stamped(request, now, decision.next)])
    else
      progress.(denied := true,
                retryAfter := if decision.retry > progress.retryAfter then decision.retry else progress.retryAfter)
  }

  function Evaluate(items: map<string, State>, now: nat, requests: seq<Request>): Progress
    requires AllValid(requests)
  {
    if requests == [] then Progress(false, 0, map[])
    else Advance(Evaluate(items, now, requests[..|requests| - 1]), items, now, requests[|requests| - 1])
  }

  lemma {:induction false} FirstErrorMeaning(requests: seq<Request>)
    ensures FirstError(requests).None? <==> AllValid(requests) && DistinctKeys(requests)
  {
    if requests == [] {
    } else {
      var front := requests[..|requests| - 1];
      FirstErrorMeaning(front);
      assert forall i :: 0 <= i < |front| ==> front[i] == requests[i];
    }
  }

  /** What one more request adds to the loop's view of the batch. */
  lemma PrefixStep(items: map<string, State>, now: nat, requests: seq<Request>, i: nat)
    requires i < |requests|
    ensures Keys(requests[..i + 1]) == Keys(requests[..i]) + {requests[i].key}
    ensures FirstError(requests[..i + 1]) ==
              if FirstError(requests[..i]).Some? then FirstError(requests[..i])
              else if !requests[i].Valid() then requests[i].Validate()
              else if requests[i].key in Keys(requests[..i]) then Some(DuplicateKey(requests[i].key))
              else None
    ensures AllValid(requests[..i]) && requests[i].Valid() ==>
              && AllValid(requests[..i + 1])
              && Evaluate(items, now, requests[..i + 1])
                   == Advance(Evaluate(items, now, requests[..i]), items, now, requests[i])
  {
    assert requests[..i + 1][..i] == requests[..i];
    assert requests[..i + 1] == requests[..i] + [requests[i]];
  }

  /** Deciding one request, as the loop does it, is one step of the batch. */
  lemma AdvanceIs(items: map<string, State>, now: nat, request: Request, denied: bool, retryAfter: int,
                  updates: map<string, State>)
    requires request.Valid()
    ensures var decision := Apply(now, request, Lookup(items, now, request.key));
            Advance(Progress(denied, retryAfter, updates), items, now, request) ==
            if decision.allowed then
              Progress(denied, retryAfter,
                       updates[request.key := decision.next.(expiresAt := Some(now + StateTTL(request)))])
            else
              Progress(true, if decision.retry > retryAfter then decision.retry else retryAfter, updates)
  {
    hide Apply, StateTTL, Lookup, Request.Validate;
  }

  /** The whole batch operation as a function of the store. */
  function Take(store: Store, now: nat, requests: seq<Request>): (Store, Outcome) {
    if requests == [] then (store, Outcome(true, 0, None))
    else
      var swept := Swept(store, now);
      if FirstError(requests).Some? then (swept, Outcome(false, 0, FirstError(requests)))
      else
        FirstErrorMeaning(requests);
        var progress := Evaluate(swept.items, now, requests);
        if progress.denied then (swept, Outcome(false, progress.retryAfter, None))
        else (swept.(items := swept.items + progress.updates), Outcome(true, 0, None))
  }

  class Memory {
    var rateLimitItems: map<string, State>
    var rateLimitCleanupAt: Option<int>

    ghost function View(): Store
      reads this
    {
      Store(rateLimitItems, rateLimitCleanupAt)
    }

    constructor ()
      ensures View() == EMPTY_STORE
    {
      rateLimitItems, rateLimitCleanupAt := map[], None;
    }

    /** Deletes every expired state; the order of the keys does not matter. */
    method Sweep(now: nat)
      modifies this`rateLimitItems
      ensures rateLimitItems == Unexpired(old(rateLimitItems), now)
    {
      var pending := rateLimitItems.Keys;
      while pending != {}
        invariant pending <= rateLimitItems.Keys <= old(rateLimitItems.Keys)
        invariant forall key :: key in rateLimitItems ==> rateLimitItems[key] == old(rateLimitItems)[key]
        invariant forall key :: key in old(rateLimitItems) && key !in pending ==>
                    (key in rateLimitItems <==> !Expired(old(rateLimitItems)[key], now))
      {
        var key :| key in pending;
        pending := pending - {key};
        if Expired(rateLimitItems[key], now) {
          rateLimitItems := rateLimitItems - {key};
        }
      }
    }

    /** Writes the staged states of an admitted batch. */
    method Commit(updates: map<string, State>)
      modifies this`rateLimitItems
      ensures rateLimitItems == old(rateLimitItems) + updates
    {
      var pending := updates.Keys;
      while pending != {}
        invariant pending <= updates.Keys
        invariant rateLimitItems == old(rateLimitItems) + (updates - pending)
      {
        var key :| key in pending;
        pending := pending - {key};
        rateLimitItems := rateLimitItems[key := updates[key]];
      }
      assert updates - {} == updates;
    }

    /** The deciding loop: it only reads the stored states and stages the updates. */
    method Judge(now: nat, requests: seq<Request>) returns (error: Option<Error>, progress: Progress)
      ensures error == FirstError(requests)
      ensures error.None? ==> AllValid(requests) && progress == Evaluate(rateLimitItems, now, requests)
    {
      var updates: map<string, State> := map[];
      var seen: set<string> := {};
      var retryAfter, denied, i := 0, false, 0;
      progress := Progress(false, 0, map[]);
      while i < |requests|
        invariant 0 <= i <= |requests|
        invariant seen == Keys(requests[..i])
        invariant AllValid(requests[..i]) && FirstError(requests[..i]).None?
        invariant Evaluate(rateLimitItems, now, requests[..i]) == Progress(denied, retryAfter, updates)
      {
        hide Apply, StateTTL, Lookup, Evaluate, Advance, FirstError, Keys, Request.Validate;
        var request := requests[i];
        PrefixStep(rateLimitItems, now, requests, i);
        if request.Validate().Some? {
          FirstErrorOfPrefix(requests, i + 1);
          return request.Validate(), progress;
        }
        if request.key in seen {
          FirstErrorOfPrefix(requests, i + 1);
          return Some(DuplicateKey(request.key)), progress;
        }
        seen := seen + {request.key};
        AdvanceIs(rateLimitItems, now, request, denied, retryAfter, updates);
        var state := Lookup(rateLimitItems, now, request.key);
        var decision := Apply(now, request, state);
        if !decision.allowed {
          denied := true;
          if decision.retry > retryAfter {
            retryAfter := decision.retry;
          }
        } else {
          updates := updates[request.key := decision.next.(expiresAt := Some(now + StateTTL(request)))];
        }
        i := i + 1;
      }
      assert requests[..i] == requests;
      return None, Progress(denied, retryAfter, updates);
    }

    method TakeRateLimits(now: nat, requests: seq<Request>) returns (outcome: Outcome)
      modifies this
      ensures (View(), outcome) == Take(old(View()), now, requests)
    {
      if |requests| == 0 {
        return Outcome(true, 0, None);
      }
      if rateLimitCleanupAt.None? || now > rateLimitCleanupAt.value {
        Sweep(now);
        rateLimitCleanupAt := Some(now + CLEANUP_INTERVAL);
      }
      var error, progress := Judge(now, requests);
      if error.Some? {
        return Outcome(false, 0, error);
      }
      if progress.denied {
        return Outcome(false, progress.retryAfter, None);
      }
      Commit(progress.updates);
      return Outcome(true, 0, None);
    }
  }

  lemma {:induction false} FirstErrorOfPrefix(requests: seq<Request>, n: nat)
    requires n <= |requests| && FirstError(requests[..n]).Some?
    ensures FirstError(requests) == FirstError(requests[..n])
    decreases |requests|
  {
    if n < |requests| {
      assert requests[..|requests| - 1][..n] == requests[..n];
      FirstErrorOfPrefix(requests[..|requests| - 1], n);
    } else {
      assert requests[..n] == requests;
    }
  }
}
